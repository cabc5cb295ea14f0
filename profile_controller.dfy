/**
 * `ProfileController::show`: the public bio page. It lists the owner's
 * active, unexpired links, newest first, and counts the view.
 */
module Profiles {

  import opened Wrappers
  import opened Links
  import opened Accounts
  import Seqs

  /** A `profiles` row, reduced to what `show` reads and writes. */
  datatype Profile = Profile(id: int, userId: int, profileSlug: string, profileViews: int)

  datatype ProfileOutcome = Shown(profile: Profile, links: seq<ShortLink>) | NotFound

  /** The query's filter: the owner's link, active, and without expiry or expiring strictly after `now`. */
  predicate Listed(link: ShortLink, userId: int, now: int) {
    link.userId == userId && link.isActive && (link.expiresAt.None? || link.expiresAt.value > now)
  }

  /** The rows the `where` clauses keep, in table order. */
  function ListedLinks(links: seq<ShortLink>, userId: int, now: int): (r: seq<ShortLink>)
    ensures forall k :: 0 <= k < |r| ==> r[k] in links && Listed(r[k], userId, now)
    ensures forall k :: 0 <= k < |links| && Listed(links[k], userId, now) ==> links[k] in r
  {
    if links == [] then []
    else
      var init := links[..|links| - 1];
      var last := links[|links| - 1];
      assert links == init + [last];
      ListedLinks(init, userId, now) + (if Listed(last, userId, now) then [last] else [])
  }

  /** The filter keeps each listed row exactly as often as the table holds it, and nothing else. */
  lemma {:induction false} ListedLinksCount(links: seq<ShortLink>, userId: int, now: int)
    ensures forall l :: multiset(ListedLinks(links, userId, now))[l] == if Listed(l, userId, now) then multiset(links)[l] else 0
  {
    if links != [] {
      var init := links[..|links| - 1];
      var last := links[|links| - 1];
      assert links == init + [last];
      ListedLinksCount(init, userId, now);
    }
  }

  function CreatedAt(link: ShortLink): int {
    link.createdAt
  }

  /** `orderBy('created_at', 'desc')->get()` over the filtered rows. */
  function VisibleLinks(links: seq<ShortLink>, userId: int, now: int): seq<ShortLink> {
    Seqs.SortDesc(ListedLinks(links, userId, now), CreatedAt)
  }

  /**
   * The page lists exactly the owner's active links that have no expiry or
   * expire after `now`, each as often as the table holds it, newest first.
   */
  lemma VisibleLinksSpec(links: seq<ShortLink>, userId: int, now: int, r: seq<ShortLink>)
    requires r == VisibleLinks(links, userId, now)
    ensures forall k :: 0 <= k < |r| ==> r[k] in links && Listed(r[k], userId, now)
    ensures forall k :: 0 <= k < |links| && Listed(links[k], userId, now) ==> links[k] in r
    ensures Seqs.SortedDesc(r, CreatedAt)
    ensures multiset(r) == multiset(ListedLinks(links, userId, now))
  {
    var listed := ListedLinks(links, userId, now);
    Seqs.SortDescSpec(listed, CreatedAt);
    forall k | 0 <= k < |r| ensures r[k] in links && Listed(r[k], userId, now) {
      assert r[k] in multiset(listed);
    }
    forall k | 0 <= k < |links| && Listed(links[k], userId, now) ensures links[k] in r {
      assert links[k] in multiset(listed);
    }
  }

  /**
   * At its expiry instant a link is already hidden from the profile page
   * (`expires_at > now` fails) while the redirect still serves it
   * (`isPast` does not yet hold).
   */
  lemma HiddenAtExpiryButRedirects(link: ShortLink, now: int)
    requires link.expiresAt == Some(now)
    ensures !Listed(link, link.userId, now)
    ensures !IsExpired(link, now)
  {
  }

  /** Away from that instant the page and the redirect agree on expiry. */
  lemma ListedIffUnexpired(link: ShortLink, now: int)
    requires link.isActive && link.expiresAt != Some(now)
    ensures Listed(link, link.userId, now) <==> !IsExpired(link, now)
  {
  }

  ghost predicate UniqueProfileSlugs(profiles: seq<Profile>) {
    forall i, j :: 0 <= i < j < |profiles| ==> profiles[i].profileSlug != profiles[j].profileSlug
  }

  /** `profiles.user_id` is a constrained foreign key: every profile has its user. */
  ghost predicate OwnersExist(profiles: seq<Profile>, users: seq<User>) {
    forall i :: 0 <= i < |profiles| ==> exists j :: 0 <= j < |users| && users[j].id == profiles[i].userId
  }

  class ProfileController {
    var profiles: seq<Profile>
    var users: seq<User>

    ghost predicate Valid()
      reads this
    {
      UniqueProfileSlugs(profiles) && OwnersExist(profiles, users)
    }

    constructor(profiles: seq<Profile>, users: seq<User>)
      requires UniqueProfileSlugs(profiles) && OwnersExist(profiles, users)
      ensures Valid() && this.profiles == profiles && this.users == users
    {
      this.profiles := profiles;
      this.users := users;
    }

    /**
     * `show($profileSlug)`: 404 for an unknown slug or an inactive owner,
     * with nothing written; otherwise the owner's visible links and the
     * profile with `profile_views` incremented, the only change made.
     */
    method Show(profileSlug: string, links: seq<ShortLink>, now: int) returns (outcome: ProfileOutcome)
      requires Valid()
      modifies this
      ensures Valid()
      ensures var p := Seqs.FindFirst(old(profiles), (q: Profile) => q.profileSlug == profileSlug);
        if p.None? then outcome == NotFound && unchanged(this)
        else
          var profile := old(profiles)[p.value];
          var owner := Seqs.FindFirst(users, (u: User) => u.id == profile.userId);
          if owner.None? || !users[owner.value].isActive then outcome == NotFound && unchanged(this)
          else
            && outcome == Shown(profile.(profileViews := profile.profileViews + 1), VisibleLinks(links, profile.userId, now))
            && profiles == old(profiles)[p.value := profile.(profileViews := profile.profileViews + 1)]
            && users == old(users)
    {
      var p := Seqs.FindFirst(profiles, (q: Profile) => q.profileSlug == profileSlug);
      if p.None? {
        return NotFound;
      }
      var profile := profiles[p.value];
      var owner := Seqs.FindFirst(users, (u: User) => u.id == profile.userId);
      if owner.None? || !users[owner.value].isActive {
        return NotFound;
      }
      var visible := VisibleLinks(links, profile.userId, now);
      var viewed := profile.(profileViews := profile.profileViews + 1);
      profiles := profiles[p.value := viewed];
      assert forall i :: 0 <= i < |profiles| ==>
        profiles[i].profileSlug == old(profiles)[i].profileSlug && profiles[i].userId == old(profiles)[i].userId;
      outcome := Shown(viewed, visible);
    }
  }
}
