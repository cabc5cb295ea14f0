/**
 * The queries of `AnalyticsService`, as functions over one link's click
 * rows (`$link->clickLogs()`) or over the whole log: scalar counts, the
 * grouped facets, the referrer table, the recent-click projection with its
 * defaults and IP masking, and the per-user dashboard counts.
 */
module Analytics {

  import opened Wrappers
  import opened Text
  import Seqs
  import opened Grouping
  import opened Links

  /** The columns the facet queries group by. */
  datatype Column = Country | DeviceType | BrowserName | Os | Referrer | IpAddress

  /**
   * The value a click contributes when grouping by `col`, or None when the
   * query's `whereNotNull` (and, for referrers, `!= ''`) drops the row.
   */
  function Grouped(c: ClickLog, col: Column): Option<string> {
    match col
    case Country => c.country
    case DeviceType => c.deviceType
    case BrowserName => c.browserName
    case Os => c.os
    case IpAddress => c.ipAddress
    case Referrer => if c.referrer == Some("") then None else c.referrer
  }

  /** The number of clicks whose grouped value is `v`: the `COUNT(*)` of its group. */
  function Matching(clicks: seq<ClickLog>, col: Column, v: string): (n: nat)
    ensures n <= |clicks|
  {
    if clicks == [] then 0
    else
      var last := clicks[|clicks| - 1];
      Matching(clicks[..|clicks| - 1], col, v) + (if Grouped(last, col) == Some(v) then 1 else 0)
  }

  /** The grouped values of the clicks, in log order, nulls dropped. */
  function ColumnValues(clicks: seq<ClickLog>, col: Column): (vs: seq<string>)
    ensures |vs| <= |clicks|
    ensures forall k :: 0 <= k < |clicks| && Grouped(clicks[k], col).Some? ==> Grouped(clicks[k], col).value in vs
  {
    if clicks == [] then []
    else
      var init := clicks[..|clicks| - 1];
      var last := clicks[|clicks| - 1];
      assert clicks == init + [last];
      ColumnValues(init, col) + (match Grouped(last, col) case None => [] case Some(v) => [v])
  }

  /** Each value occurs among the grouped values as often as it matches a click. */
  lemma {:induction false} ColumnValuesCount(clicks: seq<ClickLog>, col: Column, v: string)
    ensures multiset(ColumnValues(clicks, col))[v] == Matching(clicks, col, v)
  {
    if clicks != [] {
      ColumnValuesCount(clicks[..|clicks| - 1], col, v);
    }
  }

  /** The `GROUP BY col … ORDER BY clicks DESC [LIMIT n]` facet over one link's clicks. */
  function Facet(clicks: seq<ClickLog>, col: Column, limit: Option<nat>): seq<Row<string>> {
    Ranked(ColumnValues(clicks, col), RowClicks, limit)
  }

  function ClicksByCountry(clicks: seq<ClickLog>): seq<Row<string>> { Facet(clicks, Country, Some(10)) }
  function ClicksByDevice(clicks: seq<ClickLog>): seq<Row<string>> { Facet(clicks, DeviceType, None) }
  function ClicksByBrowser(clicks: seq<ClickLog>): seq<Row<string>> { Facet(clicks, BrowserName, Some(10)) }
  function ClicksByOs(clicks: seq<ClickLog>): seq<Row<string>> { Facet(clicks, Os, Some(10)) }

  /**
   * A facet has at most `limit` rows, counts never increasing, each row's
   * count the number of clicks with that value (so at least one), no value
   * twice, and every value some click carries has a row unless the facet is
   * full of values with at least as many clicks.
   */
  lemma {:induction false} FacetSpec(clicks: seq<ClickLog>, col: Column, limit: Option<nat>, r: seq<Row<string>>)
    requires r == Facet(clicks, col, limit)
    ensures limit.Some? ==> |r| <= limit.value
    ensures Seqs.SortedDesc(r, RowClicks)
    ensures forall i :: 0 <= i < |r| ==> r[i].clicks == Matching(clicks, col, r[i].value) > 0
    ensures forall i, j :: 0 <= i < j < |r| ==> r[i].value != r[j].value
    ensures forall k :: 0 <= k < |clicks| && Grouped(clicks[k], col).Some? ==>
      HasRow(r, Grouped(clicks[k], col).value) ||
      (limit.Some? && |r| == limit.value &&
       forall i :: 0 <= i < |r| ==> r[i].clicks >= Matching(clicks, col, Grouped(clicks[k], col).value))
  {
    var vs := ColumnValues(clicks, col);
    RankedSpec(vs, RowClicks, limit, r);
    forall i | 0 <= i < |r| {
      FacetRowCount(clicks, col, r, vs, i);
    }
    forall k | 0 <= k < |clicks| && Grouped(clicks[k], col).Some? {
      FacetClickRanked(clicks, col, limit, r, vs, k);
    }
  }

  lemma FacetRowCount(clicks: seq<ClickLog>, col: Column, r: seq<Row<string>>, vs: seq<string>, i: nat)
    requires vs == ColumnValues(clicks, col) && Counted(r, vs) && i < |r|
    ensures r[i].clicks == Matching(clicks, col, r[i].value) > 0
  {
    ColumnValuesCount(clicks, col, r[i].value);
  }

  lemma FacetClickRanked(clicks: seq<ClickLog>, col: Column, limit: Option<nat>, r: seq<Row<string>>, vs: seq<string>, k: nat)
    requires vs == ColumnValues(clicks, col) && TopRows(r, vs, RowClicks, limit)
    requires k < |clicks| && Grouped(clicks[k], col).Some?
    ensures HasRow(r, Grouped(clicks[k], col).value) ||
      (limit.Some? && |r| == limit.value &&
       forall i :: 0 <= i < |r| ==> r[i].clicks >= Matching(clicks, col, Grouped(clicks[k], col).value))
  {
    var v := Grouped(clicks[k], col).value;
    var m :| 0 <= m < |vs| && vs[m] == v;
    ColumnValuesCount(clicks, col, v);
  }

  /** The device facet has no limit: every device type some click carries has its row. */
  lemma DeviceFacetComplete(clicks: seq<ClickLog>, k: nat)
    requires k < |clicks| && clicks[k].deviceType.Some?
    ensures HasRow(ClicksByDevice(clicks), clicks[k].deviceType.value)
  {
    FacetSpec(clicks, DeviceType, None, ClicksByDevice(clicks));
  }

  /** The day numbers of the clicks at or after `from`, in log order. */
  function DaysFrom(clicks: seq<ClickLog>, from: int): (ds: seq<int>)
    ensures forall k :: 0 <= k < |clicks| && clicks[k].clickedAt >= from ==> DayOf(clicks[k].clickedAt) in ds
  {
    if clicks == [] then []
    else
      var init := clicks[..|clicks| - 1];
      var last := clicks[|clicks| - 1];
      assert clicks == init + [last];
      DaysFrom(init, from) + (if last.clickedAt >= from then [DayOf(last.clickedAt)] else [])
  }

  /** The number of clicks at or after `from` that fall on day `d`. */
  function MatchingDay(clicks: seq<ClickLog>, from: int, d: int): (n: nat)
    ensures n <= |clicks|
  {
    if clicks == [] then 0
    else
      var last := clicks[|clicks| - 1];
      MatchingDay(clicks[..|clicks| - 1], from, d) + (if last.clickedAt >= from && DayOf(last.clickedAt) == d then 1 else 0)
  }

  lemma {:induction false} DaysFromCount(clicks: seq<ClickLog>, from: int, d: int)
    ensures multiset(DaysFrom(clicks, from))[d] == MatchingDay(clicks, from, d)
  {
    if clicks != [] {
      DaysFromCount(clicks[..|clicks| - 1], from, d);
    }
  }

  /** `ORDER BY date ASC` as a descending order on the negated day. */
  function NegDay(r: Row<int>): int {
    -r.value
  }

  /** `getClicksByDate`: clicks at or after `from` grouped by calendar day, oldest day first. */
  function ClicksByDate(clicks: seq<ClickLog>, from: int): seq<Row<int>> {
    Ranked(DaysFrom(clicks, from), NegDay, None)
  }

  /**
   * Days strictly increase, each row counts the clicks of its day inside the
   * window (at least one), and every day with a click in the window has a row.
   */
  lemma {:induction false} ClicksByDateSpec(clicks: seq<ClickLog>, from: int, r: seq<Row<int>>)
    requires r == ClicksByDate(clicks, from)
    ensures forall i, j :: 0 <= i < j < |r| ==> r[i].value < r[j].value
    ensures forall i :: 0 <= i < |r| ==> r[i].clicks == MatchingDay(clicks, from, r[i].value) > 0
    ensures forall k :: 0 <= k < |clicks| && clicks[k].clickedAt >= from ==> HasRow(r, DayOf(clicks[k].clickedAt))
  {
    var ds := DaysFrom(clicks, from);
    RankedSpec(ds, NegDay, None, r);
    forall i, j | 0 <= i < j < |r| ensures r[i].value < r[j].value {
      assert NegDay(r[i]) >= NegDay(r[j]) && r[i].value != r[j].value;
    }
    forall i | 0 <= i < |r| {
      DateRowCount(clicks, from, r, ds, i);
    }
    forall k | 0 <= k < |clicks| && clicks[k].clickedAt >= from {
      DateClickRanked(clicks, from, r, ds, k);
    }
  }

  lemma DateRowCount(clicks: seq<ClickLog>, from: int, r: seq<Row<int>>, ds: seq<int>, i: nat)
    requires ds == DaysFrom(clicks, from) && Counted(r, ds) && i < |r|
    ensures r[i].clicks == MatchingDay(clicks, from, r[i].value) > 0
  {
    DaysFromCount(clicks, from, r[i].value);
  }

  lemma DateClickRanked(clicks: seq<ClickLog>, from: int, r: seq<Row<int>>, ds: seq<int>, k: nat)
    requires ds == DaysFrom(clicks, from) && TopRows(r, ds, NegDay, None)
    requires k < |clicks| && clicks[k].clickedAt >= from
    ensures HasRow(r, DayOf(clicks[k].clickedAt))
  {
    var m :| 0 <= m < |ds| && ds[m] == DayOf(clicks[k].clickedAt);
  }

  /** `formatReferrer`: the host `parse_url` finds (section 3.2.2 of RFC 3986), else the referrer as given. */
  function FormatReferrer(raw: string, parseHost: string -> Option<string>): string {
    match parseHost(raw)
    case Some(host) => host
    case None => raw
  }

  /** A `top_referrers` entry. */
  datatype ReferrerRow = ReferrerRow(referrer: string, fullReferrer: string, clicks: nat)

  function ReferrerClicks(r: ReferrerRow): int {
    r.clicks
  }

  /** `getTopReferrers`: the ten most frequent non-empty referrers, shown by host. */
  function TopReferrers(clicks: seq<ClickLog>, parseHost: string -> Option<string>): seq<ReferrerRow> {
    ReferrerRows(Facet(clicks, Referrer, Some(10)), parseHost)
  }

  /** The `map` over the grouped rows: display form, raw referrer and count. */
  function ReferrerRows(rows: seq<Row<string>>, parseHost: string -> Option<string>): (r: seq<ReferrerRow>)
    ensures |r| == |rows|
    ensures forall i :: 0 <= i < |rows| ==>
      r[i] == ReferrerRow(FormatReferrer(rows[i].value, parseHost), rows[i].value, rows[i].clicks)
  {
    if rows == [] then []
    else [ReferrerRow(FormatReferrer(rows[0].value, parseHost), rows[0].value, rows[0].clicks)] + ReferrerRows(rows[1..], parseHost)
  }

  /** No empty referrer is ever grouped. */
  lemma {:induction false} EmptyReferrerNeverMatches(clicks: seq<ClickLog>)
    ensures Matching(clicks, Referrer, "") == 0
  {
    if clicks != [] {
      EmptyReferrerNeverMatches(clicks[..|clicks| - 1]);
    }
  }

  /**
   * At most ten rows, counts never increasing; each row keeps the raw
   * referrer, which is never empty, beside its display form, and counts the
   * clicks with exactly that referrer; no referrer appears twice; and a
   * referrer some click carries is missing only when ten referrers with at
   * least as many clicks fill the list.
   */
  lemma TopReferrersSpec(clicks: seq<ClickLog>, parseHost: string -> Option<string>, r: seq<ReferrerRow>)
    requires r == TopReferrers(clicks, parseHost)
    ensures |r| <= 10
    ensures Seqs.SortedDesc(r, ReferrerClicks)
    ensures forall i :: 0 <= i < |r| ==>
      && r[i].fullReferrer != ""
      && r[i].clicks == Matching(clicks, Referrer, r[i].fullReferrer) > 0
      && r[i].referrer == (if parseHost(r[i].fullReferrer).Some? then parseHost(r[i].fullReferrer).value else r[i].fullReferrer)
    ensures forall i, j :: 0 <= i < j < |r| ==> r[i].fullReferrer != r[j].fullReferrer
    ensures forall k :: 0 <= k < |clicks| && Grouped(clicks[k], Referrer).Some? ==>
      ListsReferrer(r, Grouped(clicks[k], Referrer).value) ||
      (|r| == 10 && forall i :: 0 <= i < |r| ==> r[i].clicks >= Matching(clicks, Referrer, Grouped(clicks[k], Referrer).value))
  {
    TopReferrersRows(clicks, parseHost, r);
    TopReferrersComplete(clicks, parseHost, r);
  }

  /** The rows of the list, one by one: bounded, ordered, counted, shown by host, distinct. */
  lemma TopReferrersRows(clicks: seq<ClickLog>, parseHost: string -> Option<string>, r: seq<ReferrerRow>)
    requires r == TopReferrers(clicks, parseHost)
    ensures |r| <= 10
    ensures Seqs.SortedDesc(r, ReferrerClicks)
    ensures forall i :: 0 <= i < |r| ==>
      && r[i].fullReferrer != ""
      && r[i].clicks == Matching(clicks, Referrer, r[i].fullReferrer) > 0
      && r[i].referrer == (if parseHost(r[i].fullReferrer).Some? then parseHost(r[i].fullReferrer).value else r[i].fullReferrer)
    ensures forall i, j :: 0 <= i < j < |r| ==> r[i].fullReferrer != r[j].fullReferrer
  {
    var rows := Facet(clicks, Referrer, Some(10));
    FacetSpec(clicks, Referrer, Some(10), rows);
    EmptyReferrerNeverMatches(clicks);
    assert r == ReferrerRows(rows, parseHost);
    forall i | 0 <= i < |r|
      ensures r[i].clicks == rows[i].clicks && r[i].fullReferrer == rows[i].value
      ensures r[i].referrer == FormatReferrer(rows[i].value, parseHost)
    {
    }
    forall i, j | 0 <= i < j < |r| ensures ReferrerClicks(r[i]) >= ReferrerClicks(r[j]) {
      assert RowClicks(rows[i]) >= RowClicks(rows[j]);
    }
  }

  /** A referrer some click carries is listed unless ten referrers with at least as many clicks fill the list. */
  lemma TopReferrersComplete(clicks: seq<ClickLog>, parseHost: string -> Option<string>, r: seq<ReferrerRow>)
    requires r == TopReferrers(clicks, parseHost)
    ensures forall k :: 0 <= k < |clicks| && Grouped(clicks[k], Referrer).Some? ==>
      ListsReferrer(r, Grouped(clicks[k], Referrer).value) ||
      (|r| == 10 && forall i :: 0 <= i < |r| ==> r[i].clicks >= Matching(clicks, Referrer, Grouped(clicks[k], Referrer).value))
  {
    var rows := Facet(clicks, Referrer, Some(10));
    FacetSpec(clicks, Referrer, Some(10), rows);
    forall k | 0 <= k < |clicks| && Grouped(clicks[k], Referrer).Some? {
      TopReferrerAt(clicks, parseHost, rows, r, Grouped(clicks[k], Referrer).value);
    }
  }

  /** Some row of the list shows the raw referrer `v`. */
  ghost predicate ListsReferrer(r: seq<ReferrerRow>, v: string) {
    exists i :: 0 <= i < |r| && r[i].fullReferrer == v
  }

  /** One grouped referrer is listed, or the list is full of referrers with at least as many clicks. */
  lemma TopReferrerAt(clicks: seq<ClickLog>, parseHost: string -> Option<string>, rows: seq<Row<string>>, r: seq<ReferrerRow>, v: string)
    requires r == ReferrerRows(rows, parseHost)
    requires HasRow(rows, v) || (|rows| == 10 && forall i :: 0 <= i < |rows| ==> rows[i].clicks >= Matching(clicks, Referrer, v))
    ensures ListsReferrer(r, v) || (|r| == 10 && forall i :: 0 <= i < |r| ==> r[i].clicks >= Matching(clicks, Referrer, v))
  {
    if HasRow(rows, v) {
      var i :| 0 <= i < |rows| && rows[i].value == v;
      assert r[i].fullReferrer == v;
    }
  }

  /** PHP truthiness of a nullable string: null, "" and "0" are falsy. */
  predicate Falsy(s: Option<string>) {
    s.None? || s.value == "" || s.value == "0"
  }

  /** `maskIP`: hide the last group of an IPv4 or IPv6 address. */
  function MaskIP(ip: Option<string>): string {
    if Falsy(ip) then "Unknown"
    else
      var parts := Split(ip.value, '.');
      if |parts| == 4 then Join(parts[..3] + ["xxx"], '.')
      else if ':' in ip.value then
        var groups := Split(ip.value, ':');
        Join(groups[..|groups| - 1] + ["xxxx"], ':')
      else ip.value
  }

  /** Null, "" and "0" are all shown as "Unknown". */
  lemma MaskFalsy(ip: Option<string>)
    requires Falsy(ip)
    ensures MaskIP(ip) == "Unknown"
  {
  }

  /** Four dot-separated parts, numeric or not: the first three stay, the fourth reads "xxx". */
  lemma {:induction false} MaskDotted(ip: Option<string>)
    requires !Falsy(ip) && |Split(ip.value, '.')| == 4
    ensures Split(MaskIP(ip), '.') == Split(ip.value, '.')[..3] + ["xxx"]
  {
    var masked := Split(ip.value, '.')[..3] + ["xxx"];
    assert masked[3] == "xxx";
    assert '.' !in "xxx";
    SplitJoin(masked, '.');
  }

  /**
   * With four dot parts, the address is those parts joined by dots, and the
   * masked address is the same join with the fourth part replaced by "xxx":
   * the first three parts are kept exactly as written.
   */
  lemma MaskReplacesLastPart(ip: Option<string>)
    requires !Falsy(ip) && |Split(ip.value, '.')| == 4
    ensures var parts := Split(ip.value, '.');
      ip.value == Join(parts[..3] + [parts[3]], '.') && MaskIP(ip) == Join(parts[..3] + ["xxx"], '.')
  {
    var parts := Split(ip.value, '.');
    JoinSplit(ip.value, '.');
    assert parts[..3] + [parts[3]] == parts;
  }

  /** Otherwise, with a colon: as many groups as before, all but the last unchanged, the last "xxxx". */
  lemma {:induction false} MaskColon(ip: Option<string>)
    requires !Falsy(ip) && |Split(ip.value, '.')| != 4 && ':' in ip.value
    ensures |Split(MaskIP(ip), ':')| == |Split(ip.value, ':')|
    ensures Split(MaskIP(ip), ':')[..|Split(ip.value, ':')| - 1] == Split(ip.value, ':')[..|Split(ip.value, ':')| - 1]
    ensures Split(MaskIP(ip), ':')[|Split(ip.value, ':')| - 1] == "xxxx"
  {
    var groups := Split(ip.value, ':');
    var masked := groups[..|groups| - 1] + ["xxxx"];
    assert masked[|groups| - 1] == "xxxx";
    assert ':' !in "xxxx";
    SplitJoin(masked, ':');
    assert masked[..|groups| - 1] == groups[..|groups| - 1];
  }

  /** Anything else is shown as stored. */
  lemma MaskOther(ip: Option<string>)
    requires !Falsy(ip) && |Split(ip.value, '.')| != 4 && ':' !in ip.value
    ensures MaskIP(ip) == ip.value
  {
  }

  /** An example: the last octet of an IPv4 address is hidden. */
  lemma MaskExample()
    ensures MaskIP(Some("203.0.113.42")) == "203.0.113.xxx"
  {
    var parts := ["203", "0", "113", "42"];
    ExampleParts();
    SplitJoin(parts, '.');
    assert parts[..3] + ["xxx"] == ["203", "0", "113", "xxx"];
    ExampleMasked();
  }

  lemma ExampleParts()
    ensures Join(["203", "0", "113", "42"], '.') == "203.0.113.42"
  {
  }

  lemma ExampleMasked()
    ensures Join(["203", "0", "113", "xxx"], '.') == "203.0.113.xxx"
  {
  }

  /** A `recent_clicks` entry; `clicked_at` keeps the timestamp instead of its relative wording. */
  datatype RecentClick = RecentClick(
    id: int,
    ipAddress: string,
    country: string,
    city: Option<string>,
    deviceType: string,
    browserName: string,
    os: string,
    referrer: string,
    clickedAt: int)

  /** How `getRecentClicks` shows one row. */
  function Shown(c: ClickLog): RecentClick {
    RecentClick(
      c.id,
      MaskIP(c.ipAddress),
      c.country.GetOr("Unknown"),
      c.city,
      c.deviceType.GetOr("Unknown"),
      c.browserName.GetOr("Unknown"),
      c.os.GetOr("Unknown"),
      if Falsy(c.referrer) then "Direct" else c.referrer.value,
      c.clickedAt)
  }

  /**
   * Null columns are shown as "Unknown" and set ones as stored; a falsy
   * referrer is shown as "Direct", so no shown referrer is falsy; the IP is
   * masked and the city passed through.
   */
  lemma ShownSpec(c: ClickLog)
    ensures Shown(c).country == (if c.country.None? then "Unknown" else c.country.value)
    ensures Shown(c).deviceType == (if c.deviceType.None? then "Unknown" else c.deviceType.value)
    ensures Shown(c).browserName == (if c.browserName.None? then "Unknown" else c.browserName.value)
    ensures Shown(c).os == (if c.os.None? then "Unknown" else c.os.value)
    ensures Falsy(c.referrer) ==> Shown(c).referrer == "Direct"
    ensures !Falsy(c.referrer) ==> Shown(c).referrer == c.referrer.value
    ensures !Falsy(Some(Shown(c).referrer))
    ensures Shown(c).ipAddress == MaskIP(c.ipAddress) && Shown(c).city == c.city
    ensures Shown(c).id == c.id && Shown(c).clickedAt == c.clickedAt
  {
  }

  function ClickedAt(c: ClickLog): int {
    c.clickedAt
  }

  /** `getRecentClicks($link, limit)`: the latest `limit` clicks, newest first, as shown. */
  function RecentClicks(clicks: seq<ClickLog>, limit: nat): seq<RecentClick> {
    ShownAll(Seqs.Take(Seqs.SortDesc(clicks, ClickedAt), limit))
  }

  /** The `map` over the fetched rows. */
  function ShownAll(cs: seq<ClickLog>): (r: seq<RecentClick>)
    ensures |r| == |cs|
    ensures forall i :: 0 <= i < |cs| ==> r[i] == Shown(cs[i])
  {
    if cs == [] then [] else [Shown(cs[0])] + ShownAll(cs[1..])
  }

  /** Some click of `clicks` is shown as `row`. */
  ghost predicate ShowsSome(row: RecentClick, clicks: seq<ClickLog>) {
    exists k :: 0 <= k < |clicks| && row == Shown(clicks[k])
  }

  /**
   * As many rows as clicks, up to `limit`; newest first; each row shows a
   * click of the link, and no click is shown more often than it occurs; and
   * a click left out is no newer than any row shown.
   */
  lemma {:induction false} RecentClicksSpec(clicks: seq<ClickLog>, limit: nat, r: seq<RecentClick>)
    requires r == RecentClicks(clicks, limit)
    ensures |r| == if |clicks| <= limit then |clicks| else limit
    ensures forall i, j :: 0 <= i < j < |r| ==> r[i].clickedAt >= r[j].clickedAt
    ensures forall i :: 0 <= i < |r| ==> ShowsSome(r[i], clicks)
    ensures exists latest :: multiset(latest) <= multiset(clicks) && r == ShownAll(latest)
    ensures forall k :: 0 <= k < |clicks| ==>
      Shown(clicks[k]) in r || (|r| == limit && forall i :: 0 <= i < |r| ==> r[i].clickedAt >= clicks[k].clickedAt)
  {
    var sorted := Seqs.SortDesc(clicks, ClickedAt);
    Seqs.SortDescSpec(clicks, ClickedAt);
    RecentRows(clicks, limit, sorted, r);
    Seqs.TakeSubMultiset(sorted, limit);
    assert multiset(Seqs.Take(sorted, limit)) <= multiset(clicks) && r == ShownAll(Seqs.Take(sorted, limit));
    forall k | 0 <= k < |clicks|
      ensures Shown(clicks[k]) in r || (|r| == limit && forall i :: 0 <= i < |r| ==> r[i].clickedAt >= clicks[k].clickedAt)
    {
      RecentClickAt(clicks, limit, sorted, r, k);
    }
  }

  /** The rows shown are the first rows of the clicks sorted newest first. */
  lemma RecentRows(clicks: seq<ClickLog>, limit: nat, sorted: seq<ClickLog>, r: seq<RecentClick>)
    requires sorted == Seqs.SortDesc(clicks, ClickedAt) && Seqs.SortedDesc(sorted, ClickedAt)
    requires r == ShownAll(Seqs.Take(sorted, limit))
    ensures |r| == if |clicks| <= limit then |clicks| else limit
    ensures forall i :: 0 <= i < |r| ==> r[i] == Shown(sorted[i])
    ensures forall i, j :: 0 <= i < j < |r| ==> r[i].clickedAt >= r[j].clickedAt
    ensures forall i :: 0 <= i < |r| ==> ShowsSome(r[i], clicks)
  {
    var latest := Seqs.Take(sorted, limit);
    forall i | 0 <= i < |r| ensures r[i] == Shown(sorted[i]) {
      assert latest[i] == sorted[i];
    }
    forall i, j | 0 <= i < j < |r| ensures r[i].clickedAt >= r[j].clickedAt {
      assert ClickedAt(sorted[i]) >= ClickedAt(sorted[j]);
    }
    forall i | 0 <= i < |r| ensures ShowsSome(r[i], clicks) {
      assert sorted[i] in multiset(clicks);
    }
  }

  /** One click is shown, or the list is full of rows no older than it. */
  lemma RecentClickAt(clicks: seq<ClickLog>, limit: nat, sorted: seq<ClickLog>, r: seq<RecentClick>, k: nat)
    requires multiset(sorted) == multiset(clicks) && Seqs.SortedDesc(sorted, ClickedAt)
    requires |r| == if |sorted| <= limit then |sorted| else limit
    requires forall i :: 0 <= i < |r| ==> r[i] == Shown(sorted[i])
    requires k < |clicks|
    ensures Shown(clicks[k]) in r || (|r| == limit && forall i :: 0 <= i < |r| ==> r[i].clickedAt >= clicks[k].clickedAt)
  {
    assert clicks[k] in multiset(sorted);
    var j :| 0 <= j < |sorted| && sorted[j] == clicks[k];
    if j < |r| {
      assert r[j] == Shown(clicks[k]);
    } else {
      forall i | 0 <= i < |r| ensures r[i].clickedAt >= clicks[k].clickedAt {
        assert ClickedAt(sorted[i]) >= ClickedAt(sorted[j]);
      }
    }
  }

  /** A window on `clicked_at`, as the counting queries filter it. */
  datatype Window =
    | OnDay(day: int)                           // whereDate('clicked_at', today())
    | Since(start: int)                         // where('clicked_at', '>=', t)
    | Between(lo: int, hi: int)                 // whereBetween('clicked_at', [lo, hi])
    | InMonth(month: int, monthOf: int -> int)  // whereMonth('clicked_at', m)

  predicate InWindow(t: int, w: Window) {
    match w
    case OnDay(d) => DayOf(t) == d
    case Since(start) => t >= start
    case Between(lo, hi) => lo <= t <= hi
    case InMonth(m, monthOf) => monthOf(t) == m
  }

  /** The `count()` of the clicks inside a window. */
  function CountIn(clicks: seq<ClickLog>, w: Window): (n: nat)
    ensures n <= |clicks|
  {
    if clicks == [] then 0
    else
      var last := clicks[|clicks| - 1];
      CountIn(clicks[..|clicks| - 1], w) + (if InWindow(last.clickedAt, w) then 1 else 0)
  }

  /** A window contained in another counts no more clicks. */
  lemma {:induction false} CountInMonotone(clicks: seq<ClickLog>, inner: Window, outer: Window)
    requires forall k :: 0 <= k < |clicks| ==> InWindow(clicks[k].clickedAt, inner) ==> InWindow(clicks[k].clickedAt, outer)
    ensures CountIn(clicks, inner) <= CountIn(clicks, outer)
  {
    if clicks != [] {
      var init := clicks[..|clicks| - 1];
      assert forall k :: 0 <= k < |init| ==> init[k] == clicks[k];
      CountInMonotone(init, inner, outer);
    }
  }

  /** A timestamp on the same calendar day as `now` lies less than a day away from it. */
  lemma SameDay(t: int, now: int)
    requires DayOf(t) == DayOf(now)
    ensures now - Day < t < now + Day
    ensures Day * DayOf(now) <= t < Day * DayOf(now) + Day
  {
  }

  /** The scalar entries of `getLinkAnalytics`. */
  datatype LinkCounts = LinkCounts(
    totalClicks: nat,
    uniqueIps: nat,
    todayClicks: nat,
    weekClicks: nat,
    monthClicks: nat)

  /** The array `getLinkAnalytics` returns, its scalar entries grouped in `counts`. */
  datatype LinkAnalytics = LinkAnalytics(
    counts: LinkCounts,
    clicksByDate: seq<Row<int>>,
    clicksByCountry: seq<Row<string>>,
    clicksByDevice: seq<Row<string>>,
    clicksByBrowser: seq<Row<string>>,
    clicksByOs: seq<Row<string>>,
    topReferrers: seq<ReferrerRow>,
    recentClicks: seq<RecentClick>)

  /**
   * `total_clicks`, `unique_ips` (`COUNT(DISTINCT ip_address)`, which skips
   * nulls), and the clicks of today, of the last 7 days and since one month ago.
   */
  function Counts(clicks: seq<ClickLog>, clock: Clock): LinkCounts {
    LinkCounts(
      |clicks|,
      |Seqs.Distinct(ColumnValues(clicks, IpAddress))|,
      CountIn(clicks, OnDay(DayOf(clock.now))),
      CountIn(clicks, Since(clock.now - Week)),
      CountIn(clicks, Since(clock.monthAgo)))
  }

  /** The computation `getLinkAnalytics` caches, over the link's clicks, for the last `days` days. */
  function LinkReport(clicks: seq<ClickLog>, clock: Clock, days: int, parseHost: string -> Option<string>): LinkAnalytics {
    LinkAnalytics(
      Counts(clicks, clock),
      ClicksByDate(clicks, clock.now - days * Day),
      ClicksByCountry(clicks),
      ClicksByDevice(clicks),
      ClicksByBrowser(clicks),
      ClicksByOs(clicks),
      TopReferrers(clicks, parseHost),
      RecentClicks(clicks, 20))
  }

  /**
   * The rolling windows nest: today's clicks are within the last week, the
   * last week within the last month, and the month within all clicks; the
   * distinct IPs never outnumber the clicks. No bound on future timestamps is needed.
   */
  lemma LinkCountsOrdered(clicks: seq<ClickLog>, clock: Clock)
    requires ValidClock(clock)
    ensures var a := Counts(clicks, clock);
      a.todayClicks <= a.weekClicks <= a.monthClicks <= a.totalClicks && a.uniqueIps <= a.totalClicks
  {
    RollingWindowsNest(clicks, clock);
  }

  lemma RollingWindowsNest(clicks: seq<ClickLog>, clock: Clock)
    requires ValidClock(clock)
    ensures CountIn(clicks, OnDay(DayOf(clock.now))) <= CountIn(clicks, Since(clock.now - Week))
    ensures CountIn(clicks, Since(clock.now - Week)) <= CountIn(clicks, Since(clock.monthAgo))
  {
    forall k | 0 <= k < |clicks| && InWindow(clicks[k].clickedAt, OnDay(DayOf(clock.now)))
      ensures InWindow(clicks[k].clickedAt, Since(clock.now - Week))
    {
      SameDay(clicks[k].clickedAt, clock.now);
    }
    CountInMonotone(clicks, OnDay(DayOf(clock.now)), Since(clock.now - Week));
    CountInMonotone(clicks, Since(clock.now - Week), Since(clock.monthAgo));
  }

  /** Whether the click belongs to a link owned by `userId` (`whereHas('shortLink', user_id = …)`). */
  predicate OwnedBy(c: ClickLog, links: seq<ShortLink>, userId: int) {
    match FindById(links, c.shortLinkId)
    case Some(j) => links[j].userId == userId
    case None => false
  }

  /** The clicks on all of one user's links, in log order. */
  function UserClicks(log: seq<ClickLog>, links: seq<ShortLink>, userId: int): (r: seq<ClickLog>)
    ensures forall k :: 0 <= k < |r| ==> r[k] in log && OwnedBy(r[k], links, userId)
    ensures forall k :: 0 <= k < |log| && OwnedBy(log[k], links, userId) ==> log[k] in r
  {
    if log == [] then []
    else
      var init := log[..|log| - 1];
      var last := log[|log| - 1];
      assert log == init + [last];
      UserClicks(init, links, userId) + (if OwnedBy(last, links, userId) then [last] else [])
  }

  /** The user's clicks hold each click on the user's links exactly as often as the log does, and nothing else. */
  lemma {:induction false} UserClicksCount(log: seq<ClickLog>, links: seq<ShortLink>, userId: int)
    ensures forall c :: multiset(UserClicks(log, links, userId))[c] == if OwnedBy(c, links, userId) then multiset(log)[c] else 0
  {
    if log != [] {
      var init := log[..|log| - 1];
      var last := log[|log| - 1];
      assert log == init + [last];
      UserClicksCount(init, links, userId);
    }
  }

  /** The array `getUserStats` returns. */
  datatype UserStats = UserStats(totalClicks: nat, todayClicks: nat, weekClicks: nat, monthClicks: nat)

  /**
   * The computation `getUserStats` caches: the calendar week from
   * `startOfWeek` to `endOfWeek`, and `whereMonth`, which compares only the
   * month number (`monthOf`), whatever the year.
   */
  function UserReport(log: seq<ClickLog>, links: seq<ShortLink>, userId: int, clock: Clock, monthOf: int -> int): UserStats {
    var clicks := UserClicks(log, links, userId);
    UserStats(
      |clicks|,
      CountIn(clicks, OnDay(DayOf(clock.now))),
      CountIn(clicks, Between(clock.weekStart, clock.weekEnd)),
      CountIn(clicks, InMonth(monthOf(clock.now), monthOf)))
  }

  /** Today lies inside the calendar week, so today's clicks never exceed the week's. */
  lemma UserCountsBounded(log: seq<ClickLog>, links: seq<ShortLink>, userId: int, clock: Clock, monthOf: int -> int)
    requires ValidClock(clock)
    ensures var s := UserReport(log, links, userId, clock, monthOf);
      s.todayClicks <= s.weekClicks <= s.totalClicks && s.monthClicks <= s.totalClicks
  {
    var clicks := UserClicks(log, links, userId);
    forall k | 0 <= k < |clicks| && InWindow(clicks[k].clickedAt, OnDay(DayOf(clock.now)))
      ensures InWindow(clicks[k].clickedAt, Between(clock.weekStart, clock.weekEnd))
    {
      SameDay(clicks[k].clickedAt, clock.now);
      DayInWeek(clock);
    }
    CountInMonotone(clicks, OnDay(DayOf(clock.now)), Between(clock.weekStart, clock.weekEnd));
  }

  /** The whole of today lies between `startOfWeek` and `endOfWeek`. */
  lemma DayInWeek(clock: Clock)
    requires ValidClock(clock)
    ensures clock.weekStart <= Day * DayOf(clock.now)
    ensures Day * DayOf(clock.now) + Day - 1 <= clock.weekEnd
  {
    var w := clock.weekStart / Day;
    assert clock.weekStart == Day * w;
    assert w <= DayOf(clock.now) < w + 7;
  }

  /**
   * Unlike the rolling windows of a link's analytics, the user's week count
   * can exceed the month count: a week that starts in the previous month.
   */
  lemma WeekMayExceedMonth()
    ensures var clock := Clock(3 * Day, 3 * Day - 30 * Day, 0, Week - 1);
      var monthOf := (t: int) => if t < 2 * Day then 1 else 2;
      var links := [ShortLink(1, 7, "abc123", None, "https://example.com", true, None, None, 1, 0)];
      var log := [ClickLog(1, 1, None, None, None, None, None, None, None, None, Day)];
      var s := UserReport(log, links, 7, clock, monthOf);
      ValidClock(clock) && s.weekClicks == 1 && s.monthClicks == 0
  {
    var clock := Clock(3 * Day, 3 * Day - 30 * Day, 0, Week - 1);
    var monthOf := (t: int) => if t < 2 * Day then 1 else 2;
    var links := [ShortLink(1, 7, "abc123", None, "https://example.com", true, None, None, 1, 0)];
    var log := [ClickLog(1, 1, None, None, None, None, None, None, None, None, Day)];
    assert FindById(links, 1) == Some(0) by {
      assert Seqs.FindFrom(links, (l: ShortLink) => l.id == 1, 0) == Some(0);
    }
    assert UserClicks(log, links, 7) == log;
  }

  /** A month number that repeats every 365 days, as a month of the year does. */
  function YearlyMonth(t: int): int {
    (DayOf(t) % 365) / 31
  }

  lemma YearlyMonthRepeats()
    ensures forall t :: YearlyMonth(t + 365 * Day) == YearlyMonth(t)
  {
    forall t ensures YearlyMonth(t + 365 * Day) == YearlyMonth(t) {
      YearLater(t);
    }
  }

  /** A time 365 days later falls on the day 365 later, with the same remainder. */
  lemma YearLater(t: int)
    ensures DayOf(t + 365 * Day) == DayOf(t) + 365
    ensures (DayOf(t) + 365) % 365 == DayOf(t) % 365
  {
  }

  /**
   * `whereMonth` compares the month number alone: under a month function that
   * repeats every year, a click made a year before `now` counts in the user's
   * month, while the link report's rolling month window excludes it.
   */
  lemma MonthIgnoresYear()
    ensures var clock := Clock(400 * Day, 370 * Day, 400 * Day, 400 * Day + Week - 1);
      var links := [ShortLink(1, 7, "abc123", None, "https://example.com", true, None, None, 1, 0)];
      var log := [ClickLog(1, 1, None, None, None, None, None, None, None, None, 35 * Day)];
      && ValidClock(clock)
      && (forall t :: YearlyMonth(t + 365 * Day) == YearlyMonth(t))
      && UserReport(log, links, 7, clock, YearlyMonth).monthClicks == 1
      && Counts(ClicksOf(log, 1), clock).monthClicks == 0
  {
    YearlyMonthRepeats();
    YearOldClickInUserMonth();
    YearOldClickOutsideLinkMonth();
  }

  lemma YearOldClickInUserMonth()
    ensures UserReport([ClickLog(1, 1, None, None, None, None, None, None, None, None, 35 * Day)],
                       [ShortLink(1, 7, "abc123", None, "https://example.com", true, None, None, 1, 0)], 7,
                       Clock(400 * Day, 370 * Day, 400 * Day, 400 * Day + Week - 1), YearlyMonth).monthClicks == 1
  {
    var links := [ShortLink(1, 7, "abc123", None, "https://example.com", true, None, None, 1, 0)];
    var log := [ClickLog(1, 1, None, None, None, None, None, None, None, None, 35 * Day)];
    assert FindById(links, 1) == Some(0) by {
      assert Seqs.FindFrom(links, (l: ShortLink) => l.id == 1, 0) == Some(0);
    }
    assert UserClicks(log, links, 7) == log;
    assert YearlyMonth(35 * Day) == YearlyMonth(400 * Day);
  }

  lemma YearOldClickOutsideLinkMonth()
    ensures Counts(ClicksOf([ClickLog(1, 1, None, None, None, None, None, None, None, None, 35 * Day)], 1),
                   Clock(400 * Day, 370 * Day, 400 * Day, 400 * Day + Week - 1)).monthClicks == 0
  {
    var log := [ClickLog(1, 1, None, None, None, None, None, None, None, None, 35 * Day)];
    var clock := Clock(400 * Day, 370 * Day, 400 * Day, 400 * Day + Week - 1);
    assert log[..0] == [];
    assert ClicksOf(log, 1) == log;
    assert CountIn(log, Since(clock.monthAgo)) == 0;
    assert Counts(log, clock).monthClicks == CountIn(log, Since(clock.monthAgo));
  }
}
