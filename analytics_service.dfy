/**
 * The caching half of `AnalyticsService`: the keyed cache behind
 * `Cache::remember` and `Cache::forget`, the two cached reports with their
 * time-to-live, and the two invalidation calls.
 */
module AnalyticsService {

  import opened Wrappers
  import opened Links
  import opened Analytics

  /**
   * The key `analytics:link:{linkId}:days:{days}`. The other key family,
   * `stats:user:{userId}`, is keyed by the user id alone; the two prefixes never
   * collide, so each family is held in a store of its own.
   */
  datatype ReportKey = ReportKey(linkId: int, days: int)

  datatype Entry<V> = Entry(value: V, expiresAt: int)

  /** `now()->addMinutes(10)` and `now()->addMinutes(5)`, in seconds from now. */
  const LinkTtl: nat := 10 * Minute
  const UserTtl: nat := 5 * Minute

  /** One key family of the application cache store, with explicit expiry times. */
  class Store<K(==), V> {
    var entries: map<K, Entry<V>>

    constructor()
      ensures entries == map[]
    {
      entries := map[];
    }

    /** A stored entry is served while `now` is before its expiry. */
    predicate Live(key: K, now: int)
      reads this
    {
      key in entries && now < entries[key].expiresAt
    }

    /**
     * `Cache::remember`: a live entry is returned and nothing changes;
     * otherwise the closure's value is stored until `now + ttl` and returned.
     * The closures cached here are pure, so the value they would compute is
     * passed in place of the closure.
     */
    method Remember(key: K, ttl: nat, now: int, computed: V) returns (v: V)
      modifies this
      ensures old(Live(key, now)) ==> v == old(entries)[key].value && entries == old(entries)
      ensures !old(Live(key, now)) ==> v == computed && entries == old(entries)[key := Entry(v, now + ttl)]
    {
      if key in entries && now < entries[key].expiresAt {
        v := entries[key].value;
      } else {
        v := computed;
        entries := entries[key := Entry(v, now + ttl)];
      }
    }

    /** `Cache::forget`: the key is gone, every other entry stays. */
    method Forget(key: K)
      modifies this
      ensures entries == old(entries) - {key}
    {
      entries := entries - {key};
    }
  }

  /** `clearLinkCache`: forgets the 30-day and 7-day reports of the link and no other key. */
  method ClearLinkCache(reports: Store<ReportKey, LinkAnalytics>, linkId: int)
    modifies reports
    ensures reports.entries == old(reports.entries) - {ReportKey(linkId, 30), ReportKey(linkId, 7)}
  {
    reports.Forget(ReportKey(linkId, 30));
    reports.Forget(ReportKey(linkId, 7));
  }

  /** `clearUserCache`: forgets the user's dashboard stats and no other key. */
  method ClearUserCache(stats: Store<int, UserStats>, userId: int)
    modifies stats
    ensures stats.entries == old(stats.entries) - {userId}
  {
    stats.Forget(userId);
  }

  /**
   * `getLinkAnalytics($link, $days)`: the cached report while it lives,
   * otherwise a report over the link's clicks at `clock`, kept for ten minutes.
   */
  method GetLinkAnalytics(reports: Store<ReportKey, LinkAnalytics>, log: seq<ClickLog>, link: ShortLink, days: int,
                          clock: Clock, parseHost: string -> Option<string>) returns (a: LinkAnalytics)
    modifies reports
    ensures old(reports.Live(ReportKey(link.id, days), clock.now)) ==>
      a == old(reports.entries)[ReportKey(link.id, days)].value && reports.entries == old(reports.entries)
    ensures !old(reports.Live(ReportKey(link.id, days), clock.now)) ==>
      a == LinkReport(ClicksOf(log, link.id), clock, days, parseHost) &&
      reports.entries == old(reports.entries)[ReportKey(link.id, days) := Entry(a, clock.now + LinkTtl)]
  {
    a := reports.Remember(ReportKey(link.id, days), LinkTtl, clock.now, LinkReport(ClicksOf(log, link.id), clock, days, parseHost));
  }

  /**
   * `getUserStats($userId)`: the cached stats while they live, otherwise
   * stats over the clicks on the user's links at `clock`, kept for five minutes.
   */
  method GetUserStats(stats: Store<int, UserStats>, log: seq<ClickLog>, links: seq<ShortLink>, userId: int,
                      clock: Clock, monthOf: int -> int) returns (s: UserStats)
    modifies stats
    ensures old(stats.Live(userId, clock.now)) ==>
      s == old(stats.entries)[userId].value && stats.entries == old(stats.entries)
    ensures !old(stats.Live(userId, clock.now)) ==>
      s == UserReport(log, links, userId, clock, monthOf) &&
      stats.entries == old(stats.entries)[userId := Entry(s, clock.now + UserTtl)]
  {
    s := stats.Remember(userId, UserTtl, clock.now, UserReport(log, links, userId, clock, monthOf));
  }

  /**
   * Within ten minutes of a computed report, a second request gets the same
   * report, even when the log changed and the clock moved on, as long as no
   * `clearLinkCache` for the link ran in between. A click made through the
   * redirect runs it, so for the 7- and 30-day windows this is the case of
   * rows written by any other path.
   */
  method ServedFromCache(reports: Store<ReportKey, LinkAnalytics>, log: seq<ClickLog>, later: seq<ClickLog>, link: ShortLink, days: int,
                         clock: Clock, laterClock: Clock, parseHost: string -> Option<string>)
    returns (first: LinkAnalytics, second: LinkAnalytics)
    requires !reports.Live(ReportKey(link.id, days), clock.now)
    requires clock.now <= laterClock.now < clock.now + LinkTtl
    modifies reports
    ensures first == LinkReport(ClicksOf(log, link.id), clock, days, parseHost)
    ensures second == first
  {
    first := GetLinkAnalytics(reports, log, link, days, clock, parseHost);
    assert reports.Live(ReportKey(link.id, days), laterClock.now);
    second := GetLinkAnalytics(reports, later, link, days, laterClock, parseHost);
  }

  /** A report for any window other than 7 or 30 days outlives `clearLinkCache` and stays stale. */
  method OtherWindowsSurvive(reports: Store<ReportKey, LinkAnalytics>, linkId: int, days: int) returns (kept: bool)
    requires days != 7 && days != 30
    modifies reports
    ensures kept == (ReportKey(linkId, days) in old(reports.entries))
    ensures kept ==> (ReportKey(linkId, days) in reports.entries &&
      reports.entries[ReportKey(linkId, days)] == old(reports.entries)[ReportKey(linkId, days)])
  {
    ClearLinkCache(reports, linkId);
    kept := ReportKey(linkId, days) in reports.entries;
  }
}
