/**
 * The `short_links` and `click_logs` rows, the two validity predicates of
 * the ShortLink model, the slug patterns of the router and of link
 * creation, and the queries over the tables that the controllers run.
 * Timestamps are integer seconds; `now` is always a parameter.
 */
module Links {

  import opened Wrappers
  import Seqs

  const Minute: int := 60
  const Day: int := 86400
  const Week: int := 7 * Day

  /** A `short_links` row. Title, description, category, UTM and QR settings are not modelled. */
  datatype ShortLink = ShortLink(
    id: int,
    userId: int,
    slug: string,
    customAlias: Option<string>,
    targetUrl: string,
    isActive: bool,
    expiresAt: Option<int>,
    scheduledAt: Option<int>,
    clickCount: int,
    createdAt: int)

  /** A `click_logs` row. Latitude and longitude are never written and are left out. */
  datatype ClickLog = ClickLog(
    id: int,
    shortLinkId: int,
    ipAddress: Option<string>,
    userAgent: Option<string>,
    referrer: Option<string>,
    country: Option<string>,
    city: Option<string>,
    deviceType: Option<string>,
    browserName: Option<string>,
    os: Option<string>,
    clickedAt: int)

  /** `ShortLink::isExpired`: an expiry is set and lies strictly in the past. */
  predicate IsExpired(link: ShortLink, now: int) {
    match link.expiresAt
    case None => false
    case Some(t) => t < now
  }

  /** `ShortLink::isScheduled`: a start time is set and lies strictly in the future. */
  predicate IsScheduled(link: ShortLink, now: int) {
    match link.scheduledAt
    case None => false
    case Some(t) => t > now
  }

  /** A link without an expiry never expires. */
  lemma NoExpiryNeverExpires(link: ShortLink, now: int)
    requires link.expiresAt.None?
    ensures !IsExpired(link, now)
  {
  }

  /** `isExpired` holds exactly when the expiry is strictly before `now`; at the expiry instant itself the link is live. */
  lemma ExpiredIffPast(link: ShortLink, now: int)
    ensures IsExpired(link, now) <==> link.expiresAt.Some? && link.expiresAt.value < now
    ensures link.expiresAt == Some(now) ==> !IsExpired(link, now)
  {
  }

  /** Once expired, a link stays expired as the clock advances. */
  lemma ExpiryIsPermanent(link: ShortLink, now: int, later: int)
    requires IsExpired(link, now) && now <= later
    ensures IsExpired(link, later)
  {
  }

  /** `isScheduled` holds exactly when the start time is strictly after `now`; it stops holding at the start time. */
  lemma ScheduledIffFuture(link: ShortLink, now: int)
    ensures IsScheduled(link, now) <==> link.scheduledAt.Some? && link.scheduledAt.value > now
    ensures link.scheduledAt == Some(now) ==> !IsScheduled(link, now)
  {
  }

  /** Each predicate reads only its own timestamp and the clock. */
  lemma PredicatesReadOwnTimestamp(a: ShortLink, b: ShortLink, now: int)
    ensures a.expiresAt == b.expiresAt ==> IsExpired(a, now) == IsExpired(b, now)
    ensures a.scheduledAt == b.scheduledAt ==> IsScheduled(a, now) == IsScheduled(b, now)
  {
  }

  predicate IsAlphaNum(c: char) {
    'a' <= c <= 'z' || 'A' <= c <= 'Z' || '0' <= c <= '9'
  }

  /** The `{slug}` route pattern `[a-zA-Z0-9\-]+`. */
  predicate Routable(slug: string) {
    |slug| > 0 && forall k :: 0 <= k < |slug| ==> IsAlphaNum(slug[k]) || slug[k] == '-'
  }

  /** The `alpha_dash` rule on a custom alias (ASCII letters and digits only in this model) with `max:100`. */
  predicate AlphaDash(s: string) {
    0 < |s| <= 100 && forall k :: 0 <= k < |s| ==> IsAlphaNum(s[k]) || s[k] == '-' || s[k] == '_'
  }

  /** What `Str::random($length)` can produce: letters and digits of the requested length. */
  predicate RandomSlug(s: string, length: nat) {
    |s| == length && forall k :: 0 <= k < |s| ==> IsAlphaNum(s[k])
  }

  /** Every slug `Str::random` produces, of positive length, can be reached through the redirect route. */
  lemma RandomSlugRoutable(s: string, length: nat)
    requires RandomSlug(s, length) && length > 0
    ensures Routable(s)
  {
  }

  /** An alias that `alpha_dash` accepts but that holds `_` is never matched by the redirect route. */
  lemma UnderscoreAliasUnroutable(alias: string)
    requires AlphaDash(alias) && '_' in alias
    ensures !Routable(alias)
  {
    var k :| 0 <= k < |alias| && alias[k] == '_';
    assert !(IsAlphaNum(alias[k]) || alias[k] == '-');
  }

  /** `ShortLink::where('slug', $slug)->where('is_active', true)->first()`. */
  function FindActiveBySlug(links: seq<ShortLink>, slug: string): (r: Option<nat>)
    ensures r.Some? ==> r.value < |links| && links[r.value].slug == slug && links[r.value].isActive
    ensures r.None? ==> forall j :: 0 <= j < |links| ==> !(links[j].slug == slug && links[j].isActive)
  {
    Seqs.FindFirst(links, (l: ShortLink) => l.slug == slug && l.isActive)
  }

  /** Route-model binding of `{link}`: the row with that primary key. */
  function FindById(links: seq<ShortLink>, id: int): (r: Option<nat>)
    ensures r.Some? ==> r.value < |links| && links[r.value].id == id
    ensures r.None? ==> forall j :: 0 <= j < |links| ==> links[j].id != id
  {
    Seqs.FindFirst(links, (l: ShortLink) => l.id == id)
  }

  /** Whether some row in the table has `slug` (the `exists()` query of slug generation). */
  predicate SlugTaken(links: seq<ShortLink>, slug: string) {
    exists j :: 0 <= j < |links| && links[j].slug == slug
  }

  /** `$link->clickLogs()`: the rows of the log that belong to one link, in log order. */
  function ClicksOf(log: seq<ClickLog>, linkId: int): (r: seq<ClickLog>)
    ensures forall k :: 0 <= k < |r| ==> r[k] in log && r[k].shortLinkId == linkId
    ensures forall k :: 0 <= k < |log| && log[k].shortLinkId == linkId ==> log[k] in r
    ensures |r| <= |log|
  {
    if log == [] then []
    else
      var init := log[..|log| - 1];
      var last := log[|log| - 1];
      assert log == init + [last];
      ClicksOf(init, linkId) + (if last.shortLinkId == linkId then [last] else [])
  }

  /** A link's clicks hold each of its log rows exactly as often as the log does, and nothing else. */
  lemma {:induction false} ClicksOfCount(log: seq<ClickLog>, linkId: int)
    ensures forall c :: multiset(ClicksOf(log, linkId))[c] == if c.shortLinkId == linkId then multiset(log)[c] else 0
  {
    if log != [] {
      var init := log[..|log| - 1];
      var last := log[|log| - 1];
      assert log == init + [last];
      ClicksOfCount(init, linkId);
    }
  }

  /** Appending one row adds it to its own link's clicks and to no other link's. */
  lemma ClicksOfAppend(log: seq<ClickLog>, c: ClickLog, linkId: int)
    ensures ClicksOf(log + [c], linkId) == ClicksOf(log, linkId) + (if c.shortLinkId == linkId then [c] else [])
  {
    assert (log + [c])[..|log|] == log;
  }

  /** A link none of whose id appears in the log has no clicks. */
  lemma {:induction false} ClicksOfAbsent(log: seq<ClickLog>, linkId: int)
    requires forall k :: 0 <= k < |log| ==> log[k].shortLinkId != linkId
    ensures ClicksOf(log, linkId) == []
  {
    if log != [] {
      ClicksOfAbsent(log[..|log| - 1], linkId);
    }
  }

  /** The `cascadeOnDelete` of `click_logs.short_link_id`: the log without one link's rows. */
  function WithoutLink(log: seq<ClickLog>, linkId: int): (r: seq<ClickLog>)
    ensures forall k :: 0 <= k < |r| ==> r[k] in log && r[k].shortLinkId != linkId
    ensures forall k :: 0 <= k < |log| && log[k].shortLinkId != linkId ==> log[k] in r
  {
    if log == [] then []
    else
      var init := log[..|log| - 1];
      var last := log[|log| - 1];
      assert log == init + [last];
      WithoutLink(init, linkId) + (if last.shortLinkId == linkId then [] else [last])
  }

  /** The cascade keeps each other link's row exactly as often as the log holds it, and none of the deleted link's. */
  lemma {:induction false} WithoutLinkCount(log: seq<ClickLog>, linkId: int)
    ensures forall c :: multiset(WithoutLink(log, linkId))[c] == if c.shortLinkId == linkId then 0 else multiset(log)[c]
  {
    if log != [] {
      var init := log[..|log| - 1];
      var last := log[|log| - 1];
      assert log == init + [last];
      WithoutLinkCount(init, linkId);
    }
  }

  /** The cascade removes exactly the deleted link's clicks: every other link keeps its own. */
  lemma {:induction false} ClicksOfWithoutLink(log: seq<ClickLog>, gone: int, linkId: int)
    ensures ClicksOf(WithoutLink(log, gone), linkId) == if linkId == gone then [] else ClicksOf(log, linkId)
  {
    if log != [] {
      var init := log[..|log| - 1];
      var last := log[|log| - 1];
      ClicksOfWithoutLink(init, gone, linkId);
      var rest := WithoutLink(init, gone);
      assert ClicksOf(log, linkId) == ClicksOf(init, linkId) + (if last.shortLinkId == linkId then [last] else []);
      if last.shortLinkId != gone {
        assert WithoutLink(log, gone) == rest + [last];
        ClicksOfAppend(rest, last, linkId);
      } else {
        assert WithoutLink(log, gone) == rest;
      }
    }
  }

  /** The clock readings the analytics queries take from Carbon. */
  datatype Clock = Clock(
    now: int,        // now()
    monthAgo: int,   // now()->subMonth(): the same day and time one calendar month back
    weekStart: int,  // now()->startOfWeek(): Monday 00:00:00
    weekEnd: int)    // now()->endOfWeek(): Sunday 23:59:59

  /** What the calendar guarantees about those readings (UTC, whole seconds). */
  ghost predicate ValidClock(c: Clock) {
    && c.now - 31 * Day <= c.monthAgo <= c.now - 28 * Day
    && c.weekStart % Day == 0
    && c.weekStart <= c.now < c.weekStart + Week
    && c.weekEnd == c.weekStart + Week - 1
  }

  /** `DATE(t)` as a day number (floor division, as the calendar does). */
  function DayOf(t: int): int {
    t / Day
  }
}
