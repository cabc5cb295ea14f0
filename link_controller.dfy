/**
 * `LinkController`: the public redirect with its click logging, slug
 * allocation and link creation, and the cache invalidation of update and
 * destroy. The controller owns the `short_links` and `click_logs` tables and
 * the two key families of the cache store.
 */
module LinkControl {

  import opened Wrappers
  import opened Links
  import opened UserAgent
  import opened Analytics
  import opened AnalyticsService

  /** What `request()` supplies to `logClick`: `ip()`, `userAgent()` and the `referer` header, each possibly absent. */
  datatype Request = Request(ip: Option<string>, userAgent: Option<string>, referer: Option<string>)

  /**
   * The responses of `redirect`: a redirect to the target, `firstOrFail`'s 404,
   * `abort(410)`, or the `TypeError` raised when a null user agent reaches a
   * detector declared with a non-null `string` parameter.
   */
  datatype RedirectOutcome = Redirected(url: string) | NotFound | Gone | ServerError

  /** The row `logClick` writes; country and city are never filled in. */
  function ClickRow(id: int, linkId: int, req: Request, now: int): ClickLog
    requires req.userAgent.Some?
  {
    var ua := req.userAgent.value;
    ClickLog(id, linkId, req.ip, req.userAgent, req.referer, None, None,
             Some(DetectDevice(ua)), Some(DetectBrowser(ua)), Some(DetectOS(ua)), now)
  }

  predicate UniqueIds(links: seq<ShortLink>) {
    forall i, j :: 0 <= i < j < |links| ==> links[i].id != links[j].id
  }

  /** The unique index on `short_links.slug`. */
  predicate UniqueSlugs(links: seq<ShortLink>) {
    forall i, j :: 0 <= i < j < |links| ==> links[i].slug != links[j].slug
  }

  /** Some link row has primary key `id`. */
  ghost predicate HasLink(links: seq<ShortLink>, id: int) {
    exists j :: 0 <= j < |links| && links[j].id == id
  }

  /** The foreign key `click_logs.short_link_id`: every click belongs to a stored link. */
  ghost predicate ClicksBelong(links: seq<ShortLink>, clicks: seq<ClickLog>) {
    forall k :: 0 <= k < |clicks| ==> HasLink(links, clicks[k].shortLinkId)
  }

  /** `click_count` starts at 0 and is incremented once per logged click, so it counts the link's rows. */
  ghost predicate CountsMatch(links: seq<ShortLink>, clicks: seq<ClickLog>) {
    forall i :: 0 <= i < |links| ==> links[i].clickCount == |ClicksOf(clicks, links[i].id)|
  }

  /** What the two tables keep true between requests. */
  ghost predicate TablesValid(links: seq<ShortLink>, clicks: seq<ClickLog>, nextLinkId: int, nextClickId: int) {
    && UniqueIds(links)
    && UniqueSlugs(links)
    && ClicksBelong(links, clicks)
    && CountsMatch(links, clicks)
    && (forall i :: 0 <= i < |links| ==> links[i].id < nextLinkId)
    && (forall i :: 0 <= i < |links| && links[i].customAlias.Some? ==> links[i].customAlias.value == links[i].slug)
    && (forall k :: 0 <= k < |clicks| ==> clicks[k].id < nextClickId)
  }

  /** Logging a click on link `i` and incrementing its counter keeps every counter equal to its link's rows. */
  lemma {:induction false} ClickKeepsCounts(links: seq<ShortLink>, clicks: seq<ClickLog>, i: nat, c: ClickLog)
    requires CountsMatch(links, clicks) && UniqueIds(links)
    requires i < |links| && c.shortLinkId == links[i].id
    ensures CountsMatch(links[i := links[i].(clickCount := links[i].clickCount + 1)], clicks + [c])
  {
    var after := links[i := links[i].(clickCount := links[i].clickCount + 1)];
    forall j | 0 <= j < |after| ensures after[j].clickCount == |ClicksOf(clicks + [c], after[j].id)| {
      ClicksOfAppend(clicks, c, links[j].id);
      if j != i {
        assert links[j].id != links[i].id by {
          if j < i { assert links[j].id != links[i].id; } else { assert links[i].id != links[j].id; }
        }
      }
    }
  }

  /** A primary key above every stored one has no clicks yet. */
  lemma NewIdHasNoClicks(links: seq<ShortLink>, clicks: seq<ClickLog>, id: int)
    requires ClicksBelong(links, clicks)
    requires forall i :: 0 <= i < |links| ==> links[i].id < id
    ensures ClicksOf(clicks, id) == []
  {
    forall k | 0 <= k < |clicks| ensures clicks[k].shortLinkId != id {
      assert HasLink(links, clicks[k].shortLinkId);
    }
    ClicksOfAbsent(clicks, id);
  }

  /** The table without row `i`. */
  function Without(links: seq<ShortLink>, i: nat): (r: seq<ShortLink>)
    requires i < |links|
    ensures |r| == |links| - 1
    ensures forall j :: 0 <= j < |r| ==> r[j] == links[if j < i then j else j + 1]
  {
    links[..i] + links[i + 1..]
  }

  /** Deleting link `i` and its clicks leaves every other counter equal to its link's rows. */
  lemma {:induction false} DeleteKeepsCounts(links: seq<ShortLink>, clicks: seq<ClickLog>, i: nat)
    requires CountsMatch(links, clicks) && UniqueIds(links) && i < |links|
    ensures CountsMatch(Without(links, i), WithoutLink(clicks, links[i].id))
  {
    var rest := Without(links, i);
    forall j | 0 <= j < |rest| ensures rest[j].clickCount == |ClicksOf(WithoutLink(clicks, links[i].id), rest[j].id)| {
      var m := if j < i then j else j + 1;
      ClicksOfWithoutLink(clicks, links[i].id, links[m].id);
      assert links[m].id != links[i].id by {
        if m < i { assert links[m].id != links[i].id; } else { assert links[i].id != links[m].id; }
      }
    }
  }

  /** After the cascade every remaining click still belongs to a remaining link. */
  lemma {:induction false} DeleteKeepsBelong(links: seq<ShortLink>, clicks: seq<ClickLog>, i: nat)
    requires ClicksBelong(links, clicks) && i < |links|
    ensures ClicksBelong(Without(links, i), WithoutLink(clicks, links[i].id))
  {
    var rest := Without(links, i);
    var kept := WithoutLink(clicks, links[i].id);
    forall k | 0 <= k < |kept| ensures HasLink(rest, kept[k].shortLinkId) {
      var n :| 0 <= n < |clicks| && clicks[n] == kept[k];
      assert HasLink(links, clicks[n].shortLinkId);
      var m :| 0 <= m < |links| && links[m].id == kept[k].shortLinkId;
      assert rest[if m < i then m else m - 1] == links[m];
    }
  }

  /** Deleting link `i` together with its clicks keeps the tables valid. */
  lemma DeleteKeepsTables(links: seq<ShortLink>, clicks: seq<ClickLog>, i: nat, nextLinkId: int, nextClickId: int)
    requires TablesValid(links, clicks, nextLinkId, nextClickId) && i < |links|
    ensures TablesValid(Without(links, i), WithoutLink(clicks, links[i].id), nextLinkId, nextClickId)
  {
    DeleteKeepsCounts(links, clicks, i);
    DeleteKeepsBelong(links, clicks, i);
    var kept := WithoutLink(clicks, links[i].id);
    forall k | 0 <= k < |kept| ensures kept[k].id < nextClickId {
      assert kept[k] in clicks;
    }
  }

  /** A click on link `i` keeps every existing click attached to a stored link, and attaches itself. */
  lemma {:induction false} ClickKeepsBelong(links: seq<ShortLink>, clicks: seq<ClickLog>, i: nat, c: ClickLog)
    requires ClicksBelong(links, clicks) && i < |links| && c.shortLinkId == links[i].id
    ensures ClicksBelong(links[i := links[i].(clickCount := links[i].clickCount + 1)], clicks + [c])
  {
    var after := links[i := links[i].(clickCount := links[i].clickCount + 1)];
    forall k | 0 <= k < |clicks + [c]| ensures HasLink(after, (clicks + [c])[k].shortLinkId) {
      if k < |clicks| {
        assert HasLink(links, clicks[k].shortLinkId);
        var m :| 0 <= m < |links| && links[m].id == clicks[k].shortLinkId;
        assert after[m].id == links[m].id;
      } else {
        assert after[i].id == c.shortLinkId;
      }
    }
  }

  /**
   * Logging the request's click on link `i` and incrementing that link's
   * counter keeps the tables valid (a request without a user agent logs nothing).
   */
  lemma ClickKeepsTables(links: seq<ShortLink>, clicks: seq<ClickLog>, i: nat, req: Request, now: int, nextLinkId: int, nextClickId: int)
    requires TablesValid(links, clicks, nextLinkId, nextClickId) && i < |links|
    ensures req.userAgent.Some? ==>
      TablesValid(links[i := links[i].(clickCount := links[i].clickCount + 1)],
                  clicks + [ClickRow(nextClickId, links[i].id, req, now)], nextLinkId, nextClickId + 1)
  {
    if req.userAgent.Some? {
      var c := ClickRow(nextClickId, links[i].id, req, now);
      var after := links[i := links[i].(clickCount := links[i].clickCount + 1)];
      assert forall j :: 0 <= j < |links| ==> after[j].id == links[j].id && after[j].slug == links[j].slug && after[j].customAlias == links[j].customAlias;
      ClickKeepsCounts(links, clicks, i, c);
      ClickKeepsBelong(links, clicks, i, c);
    }
  }

  /** A new active row whose slug no other row has is what the lookup by that slug finds. */
  lemma FindsNewLink(links: seq<ShortLink>, link: ShortLink)
    requires !SlugTaken(links, link.slug) && link.isActive
    ensures FindActiveBySlug(links + [link], link.slug) == Some(|links|)
  {
    assert (links + [link])[|links|] == link;
  }

  /** A request that redirects: an active link with that slug that has not expired. */
  predicate Redirects(links: seq<ShortLink>, slug: string, now: int) {
    var found := FindActiveBySlug(links, slug);
    found.Some? && !IsExpired(links[found.value], now)
  }

  /**
   * The redirect answers 404 exactly when no active row has the slug, and it
   * redirects only to an active row with that slug that has not expired.
   */
  lemma RedirectStatuses(links: seq<ShortLink>, slug: string, now: int)
    ensures FindActiveBySlug(links, slug).None? <==> forall j :: 0 <= j < |links| && links[j].slug == slug ==> !links[j].isActive
    ensures Redirects(links, slug, now) ==> exists j :: 0 <= j < |links| && links[j].slug == slug && links[j].isActive && !IsExpired(links[j], now)
  {
  }

  /** An inactive link answers 404 even once expired: `is_active` is part of the lookup. */
  lemma InactiveIsNotFound(links: seq<ShortLink>, i: nat, now: int)
    requires UniqueSlugs(links) && i < |links| && !links[i].isActive
    ensures FindActiveBySlug(links, links[i].slug).None?
  {
  }

  /** The fields of `store`'s validated request that the model keeps. */
  datatype StoreRequest = StoreRequest(targetUrl: string, customAlias: Option<string>, expiresAt: Option<int>)

  datatype StoreOutcome = Created(link: ShortLink) | ValidationFailed

  /**
   * `store`'s validation: `target_url` required, a URL (`isUrl`) and at most
   * 2048 characters; `custom_alias` `alpha_dash`, at most 100 characters and
   * unique among slugs; `expires_at` after now.
   */
  predicate StoreValid(links: seq<ShortLink>, req: StoreRequest, now: int, isUrl: string -> bool) {
    && 0 < |req.targetUrl| <= 2048 && isUrl(req.targetUrl)
    && (req.customAlias.Some? ==> AlphaDash(req.customAlias.value) && !SlugTaken(links, req.customAlias.value))
    && (req.expiresAt.Some? ==> req.expiresAt.value > now)
  }

  /** `Str::random` eventually draws a slug no row has. */
  ghost predicate SomeFree(links: seq<ShortLink>, draws: seq<string>) {
    exists k :: 0 <= k < |draws| && !SlugTaken(links, draws[k])
  }

  /** The changes `update` validates; a field the request leaves out is kept. */
  datatype Field<T> = Keep | Set(value: T)

  datatype Changes = Changes(targetUrl: string, expiresAt: Field<Option<int>>, isActive: Field<bool>)

  function Apply<T>(f: Field<T>, current: T): T {
    match f
    case Keep => current
    case Set(v) => v
  }

  /** `$link->update($validated)`: target, expiry and activity change, nothing else does. */
  function Updated(link: ShortLink, ch: Changes): (r: ShortLink)
    ensures r.id == link.id && r.slug == link.slug && r.customAlias == link.customAlias
    ensures r.userId == link.userId && r.clickCount == link.clickCount && r.createdAt == link.createdAt
    ensures r.targetUrl == ch.targetUrl && r.scheduledAt == link.scheduledAt
    ensures r.expiresAt == Apply(ch.expiresAt, link.expiresAt) && r.isActive == Apply(ch.isActive, link.isActive)
    ensures r == link.(targetUrl := r.targetUrl, expiresAt := r.expiresAt, isActive := r.isActive)
  {
    link.(targetUrl := ch.targetUrl, expiresAt := Apply(ch.expiresAt, link.expiresAt), isActive := Apply(ch.isActive, link.isActive))
  }

  /** Responses of `update` and `destroy`: route-model binding's 404, `authorize`'s 403, a failed validation, or done. */
  datatype EditOutcome = Done | Missing | Forbidden | Invalid

  class LinkController {
    var links: seq<ShortLink>
    var clicks: seq<ClickLog>
    var nextLinkId: int
    var nextClickId: int
    const reports: Store<ReportKey, LinkAnalytics>
    const stats: Store<int, UserStats>

    ghost predicate Valid()
      reads this
    {
      TablesValid(links, clicks, nextLinkId, nextClickId)
    }

    constructor(reports: Store<ReportKey, LinkAnalytics>, stats: Store<int, UserStats>)
      ensures Valid() && links == [] && clicks == []
      ensures this.reports == reports && this.stats == stats
    {
      links := [];
      clicks := [];
      nextLinkId := 1;
      nextClickId := 1;
      this.reports := reports;
      this.stats := stats;
    }

    /**
     * `logClick`: appends one row for `linkId` stamped `now`, with the request
     * fields and the three detected classes. A null user agent raises before
     * the row is written.
     */
    method LogClick(linkId: int, req: Request, now: int) returns (ok: bool)
      modifies this
      ensures ok == req.userAgent.Some?
      ensures ok ==> clicks == old(clicks) + [ClickRow(old(nextClickId), linkId, req, now)] && nextClickId == old(nextClickId) + 1
      ensures !ok ==> unchanged(this)
      ensures links == old(links) && nextLinkId == old(nextLinkId)
    {
      if req.userAgent.None? {
        return false;
      }
      clicks := clicks + [ClickRow(nextClickId, linkId, req, now)];
      nextClickId := nextClickId + 1;
      ok := true;
    }

    /**
     * `redirect($slug)`: 404 without an active row for the slug, 410 once its
     * expiry has passed, and otherwise one click row, one increment of that
     * link's `click_count`, the 7- and 30-day reports of the link forgotten
     * (user stats kept), and a redirect to its target.
     */
    method Redirect(slug: string, req: Request, now: int) returns (outcome: RedirectOutcome)
      requires Valid() && Routable(slug)
      modifies this, reports
      ensures Valid()
      ensures FindActiveBySlug(old(links), slug).None? ==> outcome == NotFound && unchanged(this, reports)
      ensures FindActiveBySlug(old(links), slug).Some? ==>
        var i := FindActiveBySlug(old(links), slug).value;
        var link := old(links)[i];
        if IsExpired(link, now) then outcome == Gone && unchanged(this, reports)
        else if req.userAgent.None? then outcome == ServerError && unchanged(this, reports)
        else
          && outcome == Redirected(link.targetUrl)
          && clicks == old(clicks) + [ClickRow(old(nextClickId), link.id, req, now)]
          && links == old(links)[i := link.(clickCount := link.clickCount + 1)]
          && nextLinkId == old(nextLinkId) && nextClickId == old(nextClickId) + 1
          && reports.entries == old(reports.entries) - {ReportKey(link.id, 30), ReportKey(link.id, 7)}
    {
      var found := FindActiveBySlug(links, slug);
      if found.None? {
        return NotFound;
      }
      var i := found.value;
      var target := links[i].targetUrl;
      if IsExpired(links[i], now) {
        return Gone;
      }
      var ok := Visit(i, req, now);
      outcome := if ok then Redirected(target) else ServerError;
    }

    /**
     * The eligible path of `redirect`: `logClick`, the increment of link `i`'s
     * `click_count`, and `clearLinkCache`. Nothing is written when the
     * detectors reject a null user agent.
     */
    method Visit(i: nat, req: Request, now: int) returns (ok: bool)
      requires Valid() && i < |links|
      modifies this, reports
      ensures Valid()
      ensures ok == req.userAgent.Some?
      ensures !ok ==> unchanged(this, reports)
      ensures ok ==>
        var link := old(links)[i];
        && clicks == old(clicks) + [ClickRow(old(nextClickId), link.id, req, now)]
        && links == old(links)[i := link.(clickCount := link.clickCount + 1)]
        && nextLinkId == old(nextLinkId) && nextClickId == old(nextClickId) + 1
        && reports.entries == old(reports.entries) - {ReportKey(link.id, 30), ReportKey(link.id, 7)}
    {
      var link := links[i];
      ClickKeepsTables(links, clicks, i, req, now, nextLinkId, nextClickId);
      ok := LogClick(link.id, req, now);
      if !ok {
        return;
      }
      links := links[i := link.(clickCount := link.clickCount + 1)];
      ClearLinkCache(reports, link.id);
    }

    /**
     * `generateUniqueSlug($length)`: draws until a slug no row has comes up
     * and returns it; `draws` are the successive results of `Str::random`.
     */
    method GenerateUniqueSlug(length: nat, draws: seq<string>) returns (slug: string)
      requires SomeFree(links, draws)
      requires forall k :: 0 <= k < |draws| ==> RandomSlug(draws[k], length)
      ensures !SlugTaken(links, slug) && RandomSlug(slug, length)
      ensures exists k :: 0 <= k < |draws| && draws[k] == slug && forall j :: 0 <= j < k ==> SlugTaken(links, draws[j])
    {
      var n := 0;
      while SlugTaken(links, draws[n])
        invariant 0 <= n < |draws|
        invariant forall j :: 0 <= j < n ==> SlugTaken(links, draws[j])
        invariant exists k :: n <= k < |draws| && !SlugTaken(links, draws[k])
        decreases |draws| - n
      {
        n := n + 1;
      }
      slug := draws[n];
    }

    /**
     * `store`: after validation the slug is the custom alias when one is given,
     * otherwise a generated six-character slug; the new link is active and has
     * no clicks, and the lookup by its slug finds it.
     */
    method Store(req: StoreRequest, userId: int, now: int, isUrl: string -> bool, draws: seq<string>)
      returns (outcome: StoreOutcome)
      requires Valid()
      requires req.customAlias.None? ==> SomeFree(links, draws) && forall k :: 0 <= k < |draws| ==> RandomSlug(draws[k], 6)
      modifies this
      ensures Valid()
      ensures !StoreValid(old(links), req, now, isUrl) ==> outcome == ValidationFailed && unchanged(this)
      ensures StoreValid(old(links), req, now, isUrl) ==>
        && outcome.Created?
        && links == old(links) + [outcome.link]
        && clicks == old(clicks)
        && nextLinkId == old(nextLinkId) + 1 && nextClickId == old(nextClickId)
        && outcome.link == ShortLink(old(nextLinkId), userId, outcome.link.slug, req.customAlias, req.targetUrl,
                                     true, req.expiresAt, None, 0, now)
        && (req.customAlias.Some? ==> outcome.link.slug == req.customAlias.value)
        && (req.customAlias.None? ==> RandomSlug(outcome.link.slug, 6) && !SlugTaken(old(links), outcome.link.slug))
        && FindActiveBySlug(links, outcome.link.slug) == Some(|old(links)|)
    {
      if !StoreValid(links, req, now, isUrl) {
        return ValidationFailed;
      }
      var slug;
      if req.customAlias.Some? {
        slug := req.customAlias.value;
      } else {
        slug := GenerateUniqueSlug(6, draws);
      }
      var link := ShortLink(nextLinkId, userId, slug, req.customAlias, req.targetUrl, true, req.expiresAt, None, 0, now);
      StoreKeepsTables(links, clicks, link, nextLinkId, nextClickId);
      FindsNewLink(links, link);
      links := links + [link];
      nextLinkId := nextLinkId + 1;
      outcome := Created(link);
    }

    /**
     * `update`: the bound link, the policy's verdict `allowed`, then validation;
     * the change is written and the link's 7- and 30-day reports are forgotten.
     */
    method Update(linkId: int, ch: Changes, allowed: bool, isUrl: string -> bool) returns (outcome: EditOutcome)
      requires Valid()
      modifies this, reports
      ensures Valid()
      ensures FindById(old(links), linkId).None? ==> outcome == Missing && unchanged(this, reports)
      ensures FindById(old(links), linkId).Some? ==>
        var i := FindById(old(links), linkId).value;
        if !allowed then outcome == Forbidden && unchanged(this, reports)
        else if !(0 < |ch.targetUrl| <= 2048 && isUrl(ch.targetUrl)) then outcome == Invalid && unchanged(this, reports)
        else
          && outcome == Done
          && links == old(links)[i := Updated(old(links)[i], ch)]
          && clicks == old(clicks) && nextLinkId == old(nextLinkId) && nextClickId == old(nextClickId)
          && reports.entries == old(reports.entries) - {ReportKey(linkId, 30), ReportKey(linkId, 7)}
    {
      var found := FindById(links, linkId);
      if found.None? {
        return Missing;
      }
      if !allowed {
        return Forbidden;
      }
      if !(0 < |ch.targetUrl| <= 2048 && isUrl(ch.targetUrl)) {
        return Invalid;
      }
      var i := found.value;
      UpdateKeepsTables(links, clicks, i, ch, nextLinkId, nextClickId);
      links := links[i := Updated(links[i], ch)];
      ClearLinkCache(reports, linkId);
      outcome := Done;
    }

    /**
     * `destroy`: the bound link and the policy's verdict `allowed`; the link's
     * 7- and 30-day reports and the acting user's stats are forgotten, then
     * the row goes and its clicks cascade with it.
     */
    method Destroy(linkId: int, actingUser: int, allowed: bool) returns (outcome: EditOutcome)
      requires Valid()
      modifies this, reports, stats
      ensures Valid()
      ensures FindById(old(links), linkId).None? ==> outcome == Missing && unchanged(this, reports, stats)
      ensures FindById(old(links), linkId).Some? ==>
        var i := FindById(old(links), linkId).value;
        if !allowed then outcome == Forbidden && unchanged(this, reports, stats)
        else
          && outcome == Done
          && links == Without(old(links), i)
          && clicks == WithoutLink(old(clicks), linkId)
          && nextLinkId == old(nextLinkId) && nextClickId == old(nextClickId)
          && reports.entries == old(reports.entries) - {ReportKey(linkId, 30), ReportKey(linkId, 7)}
          && stats.entries == old(stats.entries) - {actingUser}
    {
      var found := FindById(links, linkId);
      if found.None? {
        return Missing;
      }
      if !allowed {
        return Forbidden;
      }
      var i := found.value;
      ClearLinkCache(reports, linkId);
      ClearUserCache(stats, actingUser);
      DeleteKeepsTables(links, clicks, i, nextLinkId, nextClickId);
      links := Without(links, i);
      clicks := WithoutLink(clicks, linkId);
      outcome := Done;
    }
  }

  /** Appending a new link with a fresh id and a free slug keeps the tables valid. */
  lemma StoreKeepsTables(links: seq<ShortLink>, clicks: seq<ClickLog>, link: ShortLink, nextLinkId: int, nextClickId: int)
    requires TablesValid(links, clicks, nextLinkId, nextClickId)
    requires link.id == nextLinkId && link.clickCount == 0 && !SlugTaken(links, link.slug)
    requires link.customAlias.Some? ==> link.customAlias.value == link.slug
    ensures TablesValid(links + [link], clicks, nextLinkId + 1, nextClickId)
  {
    NewIdHasNoClicks(links, clicks, nextLinkId);
    var after := links + [link];
    forall k | 0 <= k < |clicks| ensures HasLink(after, clicks[k].shortLinkId) {
      assert HasLink(links, clicks[k].shortLinkId);
      var m :| 0 <= m < |links| && links[m].id == clicks[k].shortLinkId;
      assert after[m] == links[m];
    }
  }

  /** Changing target, expiry or activity of link `i` keeps the tables valid. */
  lemma UpdateKeepsTables(links: seq<ShortLink>, clicks: seq<ClickLog>, i: nat, ch: Changes, nextLinkId: int, nextClickId: int)
    requires TablesValid(links, clicks, nextLinkId, nextClickId) && i < |links|
    ensures TablesValid(links[i := Updated(links[i], ch)], clicks, nextLinkId, nextClickId)
  {
    var after := links[i := Updated(links[i], ch)];
    forall k | 0 <= k < |clicks| ensures HasLink(after, clicks[k].shortLinkId) {
      assert HasLink(links, clicks[k].shortLinkId);
      var m :| 0 <= m < |links| && links[m].id == clicks[k].shortLinkId;
      assert after[m].id == links[m].id;
    }
  }

  /**
   * `redirect` forgets the link's reports but never the owner's dashboard
   * stats: within five minutes of computing them, the dashboard still shows
   * the counts from before the click, although the click was logged.
   */
  method StatsStaleAfterRedirect(c: LinkController, slug: string, req: Request, now: int, userId: int,
                                 clock: Clock, laterClock: Clock, monthOf: int -> int)
    returns (before: UserStats, outcome: RedirectOutcome, after: UserStats)
    requires c.Valid() && Routable(slug)
    requires !c.stats.Live(userId, clock.now)
    requires clock.now <= laterClock.now < clock.now + UserTtl
    modifies c, c.reports, c.stats
    ensures before == UserReport(old(c.clicks), old(c.links), userId, clock, monthOf)
    ensures outcome.Redirected? ==> |c.clicks| == |old(c.clicks)| + 1
    ensures after == before
  {
    before := GetUserStats(c.stats, c.clicks, c.links, userId, clock, monthOf);
    outcome := c.Redirect(slug, req, now);
    assert c.stats.Live(userId, laterClock.now);
    after := GetUserStats(c.stats, c.clicks, c.links, userId, laterClock, monthOf);
  }
}
