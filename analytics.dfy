/**
 * The analytics aggregator of the worker (updateAnalytics): how one redirect
 * is turned into a click entry (country, device class, referrer host,
 * truncated user agent) and folded into a link's analytics record, and the
 * invariants the fold keeps: the click counter equals the sum of each
 * breakdown map, and the history holds at most the last 100 clicks in order.
 */
module Analytics {
  import opened Store

  const HistoryLimit: nat := 100
  const UserAgentLimit: nat := 200

  /** The request headers updateAnalytics reads; "" stands for a missing header
      (the worker replaces a missing and an empty header by the same default). */
  datatype ClickRequest = ClickRequest(country: string, userAgent: string, referer: string)

  /** The record written by create and by reset, and assumed when none is stored. */
  function Zero(now: string): (z: AnalyticsData)
    ensures z.created == now && z.clicks == 0 && z.clickHistory == []
    ensures z.countries == map[] && z.devices == map[] && z.referrers == map[]
  {
    AnalyticsData(now, 0, map[], map[], map[], [])
  }

  // ---------------------------------------------------------------------------
  // Breakdown maps

  /** `m[category] = (m[category] || 0) + 1` */
  function Bump(m: map<string, nat>, category: string): (r: map<string, nat>)
    ensures r.Keys == m.Keys + {category}
    ensures r[category] == (if category in m then m[category] else 0) + 1
    ensures forall k :: k in m && k != category ==> r[k] == m[k]
  {
    m[category := (if category in m then m[category] else 0) + 1]
  }

  /** The sum of the counts stored under `keys`. */
  ghost function SumOf(m: map<string, nat>, keys: set<string>): nat
    requires keys <= m.Keys
    decreases keys
  {
    if keys == {} then 0 else var k :| k in keys; m[k] + SumOf(m, keys - {k})
  }

  ghost function Sum(m: map<string, nat>): nat
  {
    SumOf(m, m.Keys)
  }

  /** Any key can be taken out first. */
  lemma {:induction false} SumOfRemove(m: map<string, nat>, keys: set<string>, k: string)
    requires keys <= m.Keys && k in keys
    ensures SumOf(m, keys) == m[k] + SumOf(m, keys - {k})
    decreases keys
  {
    var j :| j in keys && SumOf(m, keys) == m[j] + SumOf(m, keys - {j});
    if j != k {
      SumOfRemove(m, keys - {j}, k);
      SumOfRemove(m, keys - {k}, j);
      assert keys - {j} - {k} == keys - {k} - {j};
    }
  }

  /** The sum over `keys` depends only on the counts under `keys`. */
  lemma {:induction false} SumOfAgree(m1: map<string, nat>, m2: map<string, nat>, keys: set<string>)
    requires keys <= m1.Keys && keys <= m2.Keys
    requires forall k :: k in keys ==> m1[k] == m2[k]
    ensures SumOf(m1, keys) == SumOf(m2, keys)
    decreases keys
  {
    if keys != {} {
      var k :| k in keys;
      SumOfRemove(m1, keys, k);
      SumOfRemove(m2, keys, k);
      SumOfAgree(m1, m2, keys - {k});
    }
  }

  /** Each increment adds exactly one to the breakdown's total. */
  lemma BumpSum(m: map<string, nat>, category: string)
    ensures Sum(Bump(m, category)) == Sum(m) + 1
  {
    var r := Bump(m, category);
    if category in m {
      assert r.Keys == m.Keys;
      SumOfRemove(r, r.Keys, category);
      SumOfRemove(m, m.Keys, category);
      SumOfAgree(r, m, m.Keys - {category});
    } else {
      SumOfRemove(r, r.Keys, category);
      assert r.Keys - {category} == m.Keys;
      SumOfAgree(r, m, m.Keys);
    }
  }

  // ---------------------------------------------------------------------------
  // Device class: case-insensitive substring tests in a fixed order

  /** ASCII lower case. A case-insensitive regular expression without the `u` flag
      never folds a non-ASCII character onto an ASCII letter, and every pattern
      below is ASCII, so folding only 'A'..'Z' is exact. */
  function Lower(c: char): char
  {
    if 'A' <= c <= 'Z' then (c as int + 32) as char else c
  }

  /** `pat` occurs in `s` at position `i`, ignoring case. */
  predicate MatchesAt(s: string, pat: string, i: nat)
  {
    i + |pat| <= |s| && forall j :: 0 <= j < |pat| ==> Lower(s[i + j]) == Lower(pat[j])
  }

  /** `/pat/i.test(s)` for a literal pattern: scan the start positions in order. */
  function ContainsCI(s: string, pat: string): bool
    decreases |s|
  {
    if MatchesAt(s, pat, 0) then true
    else if |s| == 0 then false
    else ContainsCI(s[1..], pat)
  }

  /** The scan finds a match exactly when the pattern occurs somewhere. */
  lemma {:induction false} ContainsCIMeansMatch(s: string, pat: string)
    ensures ContainsCI(s, pat) <==> exists i: nat :: MatchesAt(s, pat, i)
    decreases |s|
  {
    if !MatchesAt(s, pat, 0) && |s| > 0 {
      ContainsCIMeansMatch(s[1..], pat);
      ShiftedMatch(s, pat);
    } else if !MatchesAt(s, pat, 0) {
      forall i: nat ensures !MatchesAt(s, pat, i) {
        if i + |pat| <= |s| { assert MatchesAt(s, pat, 0); }
      }
    }
  }

  /** A match in the tail of `s` is a match in `s` one position later. */
  lemma ShiftedMatch(s: string, pat: string)
    requires |s| > 0
    ensures (exists i: nat :: MatchesAt(s, pat, i)) <==>
      MatchesAt(s, pat, 0) || exists i: nat :: MatchesAt(s[1..], pat, i)
  {
    forall i: nat ensures MatchesAt(s[1..], pat, i) <==> MatchesAt(s, pat, i + 1) {
    }
    if exists i: nat :: MatchesAt(s, pat, i) {
      var i: nat :| MatchesAt(s, pat, i);
      if i > 0 {
        assert MatchesAt(s[1..], pat, i - 1);
      }
    }
  }

  /** An alternation of literals: some marker occurs somewhere. */
  predicate MentionsAny(ua: string, markers: seq<string>)
    decreases |markers|
  {
    |markers| > 0 && (ContainsCI(ua, markers[0]) || MentionsAny(ua, markers[1..]))
  }

  /** MentionsAny holds exactly when one of the markers is found. */
  lemma {:induction false} MentionsAnyMeansSome(ua: string, markers: seq<string>)
    ensures MentionsAny(ua, markers) <==> exists k :: 0 <= k < |markers| && ContainsCI(ua, markers[k])
    decreases |markers|
  {
    if |markers| > 0 {
      MentionsAnyMeansSome(ua, markers[1..]);
      if exists k :: 0 <= k < |markers| && ContainsCI(ua, markers[k]) {
        var k :| 0 <= k < |markers| && ContainsCI(ua, markers[k]);
        if k > 0 { assert markers[1..][k - 1] == markers[k]; }
      }
      if MentionsAny(ua, markers[1..]) && !ContainsCI(ua, markers[0]) {
        var k :| 0 <= k < |markers[1..]| && ContainsCI(ua, markers[1..][k]);
        assert ContainsCI(ua, markers[k + 1]);
      }
    }
  }

  const MobileMarkers: seq<string> := ["Mobile", "Android", "iPhone", "iPod", "BlackBerry", "IEMobile", "Opera Mini"]
  const TabletMarkers: seq<string> := ["iPad"]
  const DesktopMarkers: seq<string> := ["Windows", "Macintosh", "Linux", "X11"]

  /** The device class: the first of Mobile, Tablet, Desktop whose markers the
      user agent mentions, otherwise Unknown (its cases are DeviceLabelCases). */
  function DeviceLabel(ua: string): (d: string)
    ensures d == "Mobile" || d == "Tablet" || d == "Desktop" || d == "Unknown"
  {
    if MentionsAny(ua, MobileMarkers) then "Mobile"
    else if MentionsAny(ua, TabletMarkers) then "Tablet"
    else if MentionsAny(ua, DesktopMarkers) then "Desktop"
    else "Unknown"
  }

  /** Mobile markers win over the tablet marker, which wins over the desktop
      markers; a user agent with none of them is Unknown. */
  lemma DeviceLabelCases(ua: string)
    ensures DeviceLabel(ua) == "Mobile" <==> MentionsAny(ua, MobileMarkers)
    ensures DeviceLabel(ua) == "Tablet" <==> !MentionsAny(ua, MobileMarkers) && MentionsAny(ua, TabletMarkers)
    ensures DeviceLabel(ua) == "Desktop" <==>
      !MentionsAny(ua, MobileMarkers) && !MentionsAny(ua, TabletMarkers) && MentionsAny(ua, DesktopMarkers)
    ensures DeviceLabel(ua) == "Unknown" <==>
      !MentionsAny(ua, MobileMarkers) && !MentionsAny(ua, TabletMarkers) && !MentionsAny(ua, DesktopMarkers)
  {
  }

  /** A missing CF-IPCountry header becomes "Unknown". */
  function CountryLabel(header: string): (c: string)
    ensures c != ""
    ensures header == "" ==> c == "Unknown"
    ensures header != "" ==> c == header
  {
    if header == "" then "Unknown" else header
  }

  /** The referrer category: the Referer header's hostname, or "Direct" when the
      header is missing or is literally "Direct", when it does not parse as a URL
      (`hostOf` answers None, as `new URL` throws) or when the hostname is empty. */
  function ReferrerLabel(referer: string, hostOf: string -> Option<string>): (r: string)
    ensures r != ""
    ensures r != "Direct" ==> referer != "" && hostOf(referer) == Some(r)
    ensures referer == "" || referer == "Direct" || hostOf(referer).None? || hostOf(referer) == Some("") ==>
      r == "Direct"
    ensures referer != "" && referer != "Direct" && hostOf(referer).Some? && hostOf(referer).value != "" ==>
      r == hostOf(referer).value
  {
    var header := if referer == "" then "Direct" else referer;
    if header == "Direct" then "Direct"
    else match hostOf(header)
      case None => "Direct"
      case Some(host) => if host == "" then "Direct" else host
  }

  /** `s.substring(0, n)` */
  function Truncate(s: string, n: nat): (r: string)
    ensures |r| <= n && r <= s
    ensures |s| <= n ==> r == s
    ensures |s| > n ==> |r| == n
  {
    if |s| <= n then s else s[..n]
  }

  // ---------------------------------------------------------------------------
  // One click

  /** The history entry updateAnalytics pushes for a request. */
  function ClickEntry(req: ClickRequest, now: string, hostOf: string -> Option<string>): (e: Click)
    ensures e.timestamp == now
    ensures e.country == CountryLabel(req.country) && e.device == DeviceLabel(req.userAgent)
    ensures e.referrer == ReferrerLabel(req.referer, hostOf)
    ensures e.userAgent == Truncate(req.userAgent, UserAgentLimit)
    ensures |e.userAgent| <= UserAgentLimit && e.userAgent <= req.userAgent
  {
    var ua := req.userAgent;
    Click(now, CountryLabel(req.country), DeviceLabel(ua), ReferrerLabel(req.referer, hostOf), Truncate(ua, UserAgentLimit))
  }

  /** `h.slice(-n)` when `h` is longer than `n`. */
  function KeepLast<T>(h: seq<T>, n: nat): (r: seq<T>)
    ensures |r| == if |h| <= n then |h| else n
  {
    if |h| > n then h[|h| - n..] else h
  }

  /** The trimmed history is a suffix of the input: entry i of the result is
      the entry that stood that far from the input's end. */
  lemma KeepLastSuffix<T>(h: seq<T>, n: nat)
    ensures forall i :: 0 <= i < |KeepLast(h, n)| ==> KeepLast(h, n)[i] == h[|h| - |KeepLast(h, n)| + i]
  {
  }

  /** Trimming before or after appending gives the same history. */
  lemma KeepLastAppend<T>(h: seq<T>, e: T, n: nat)
    requires n > 0
    ensures KeepLast(KeepLast(h, n) + [e], n) == KeepLast(h + [e], n)
  {
    var k := KeepLast(h, n);
    if |h| > n {
      assert |k + [e]| == n + 1;
      assert (k + [e])[1..] == h[|h| - n + 1..] + [e];
      assert (h + [e])[|h| + 1 - n..] == h[|h| - n + 1..] + [e];
    }
  }

  /** The analytics record after one click: the counter and the three breakdowns
      each go up by one, and the entry is appended to the history, which is then
      cut to its last 100 entries. */
  function Recorded(a: AnalyticsData, e: Click): (b: AnalyticsData)
    ensures b.created == a.created && b.clicks == a.clicks + 1
    ensures b.countries == Bump(a.countries, e.country)
    ensures b.devices == Bump(a.devices, e.device)
    ensures b.referrers == Bump(a.referrers, e.referrer)
    ensures |b.clickHistory| <= HistoryLimit
  {
    AnalyticsData(
      a.created,
      a.clicks + 1,
      Bump(a.countries, e.country),
      Bump(a.devices, e.device),
      Bump(a.referrers, e.referrer),
      KeepLast(a.clickHistory + [e], HistoryLimit))
  }

  /** The record invariants: the counter equals the total of every breakdown,
      the history is within its bound, and no stored user agent is longer than 200. */
  ghost predicate Consistent(a: AnalyticsData)
  {
    && a.clicks == Sum(a.countries)
    && a.clicks == Sum(a.devices)
    && a.clicks == Sum(a.referrers)
    && |a.clickHistory| <= HistoryLimit
    && forall i :: 0 <= i < |a.clickHistory| ==> |a.clickHistory[i].userAgent| <= UserAgentLimit
  }

  lemma ZeroConsistent(now: string)
    ensures Consistent(Zero(now))
    ensures Zero(now).clicks == 0 && Zero(now).clickHistory == []
  {
  }

  /** The history keeps the last HistoryLimit clicks and ends with the new one. */
  lemma RecordedHistory(a: AnalyticsData, e: Click)
    ensures Recorded(a, e).clickHistory == KeepLast(a.clickHistory + [e], HistoryLimit)
    ensures |Recorded(a, e).clickHistory| == if |a.clickHistory| < HistoryLimit then |a.clickHistory| + 1 else HistoryLimit
    ensures Recorded(a, e).clickHistory != [] && Recorded(a, e).clickHistory[|Recorded(a, e).clickHistory| - 1] == e
  {
  }

  lemma RecordedConsistent(a: AnalyticsData, e: Click)
    requires Consistent(a) && |e.userAgent| <= UserAgentLimit
    ensures Consistent(Recorded(a, e))
  {
    BumpSum(a.countries, e.country);
    BumpSum(a.devices, e.device);
    BumpSum(a.referrers, e.referrer);
    var h := a.clickHistory + [e];
    var b := Recorded(a, e);
    KeepLastSuffix(h, HistoryLimit);
    forall i | 0 <= i < |b.clickHistory|
      ensures |b.clickHistory[i].userAgent| <= UserAgentLimit
    {
      assert b.clickHistory[i] == h[|h| - |b.clickHistory| + i];
    }
  }

  /** N sequential clicks, in the order they arrived. */
  function RecordAll(a: AnalyticsData, es: seq<Click>): AnalyticsData
    decreases |es|
  {
    if es == [] then a else Recorded(RecordAll(a, es[..|es| - 1]), es[|es| - 1])
  }

  lemma {:induction false} RecordAllInvariant(a: AnalyticsData, es: seq<Click>)
    requires Consistent(a)
    requires forall i :: 0 <= i < |es| ==> |es[i].userAgent| <= UserAgentLimit
    ensures Consistent(RecordAll(a, es))
    ensures RecordAll(a, es).clicks == a.clicks + |es|
    decreases |es|
  {
    if es != [] {
      var init, last := es[..|es| - 1], es[|es| - 1];
      RecordAllInvariant(a, init);
      RecordedConsistent(RecordAll(a, init), last);
    }
  }

  lemma {:induction false} RecordAllHistory(a: AnalyticsData, es: seq<Click>)
    requires |a.clickHistory| <= HistoryLimit
    ensures RecordAll(a, es).clickHistory == KeepLast(a.clickHistory + es, HistoryLimit)
    decreases |es|
  {
    if es == [] {
      assert a.clickHistory + es == a.clickHistory;
    } else {
      var init, last := es[..|es| - 1], es[|es| - 1];
      RecordAllHistory(a, init);
      KeepLastAppend(a.clickHistory + init, last, HistoryLimit);
      assert a.clickHistory + init + [last] == a.clickHistory + es;
    }
  }

  /** From the zero record (after create or reset), N sequential clicks leave
      clicks = N, every breakdown summing to N, and the history holding the last
      min(N, 100) clicks in chronological order. */
  lemma ClicksFromZero(now: string, es: seq<Click>)
    requires forall i :: 0 <= i < |es| ==> |es[i].userAgent| <= UserAgentLimit
    ensures var a := RecordAll(Zero(now), es);
      && a.clicks == |es|
      && Sum(a.countries) == |es| && Sum(a.devices) == |es| && Sum(a.referrers) == |es|
      && |a.clickHistory| <= HistoryLimit
      && (|es| <= HistoryLimit ==> a.clickHistory == es)
      && (|es| > HistoryLimit ==> a.clickHistory == es[|es| - HistoryLimit..])
  {
    var a := RecordAll(Zero(now), es);
    ZeroConsistent(now);
    RecordAllInvariant(Zero(now), es);
    assert Consistent(a);
    RecordAllHistory(Zero(now), es);
    assert Zero(now).clickHistory + es == es;
    assert a.clickHistory == KeepLast(es, HistoryLimit);
  }

  // ---------------------------------------------------------------------------
  // Examples of the classification rules

  /** An iPhone user agent is Mobile. */
  lemma DeviceIPhone()
    ensures DeviceLabel("(iPhone; CPU OS)") == "Mobile"
  {
    var ua := "(iPhone; CPU OS)";
    assert MobileMarkers[2] == "iPhone";
    assert MatchesAt(ua, "iPhone", 1);
    ContainsCIMeansMatch(ua, MobileMarkers[2]);
    assert MentionsAny(ua, MobileMarkers);
  }

  /** Mobile is tested first: an iPad user agent carrying Safari's Mobile token is Mobile, not Tablet. */
  lemma DeviceMobileBeforeTablet()
    ensures DeviceLabel("(iPad) Mobile/15E148") == "Mobile"
  {
    assert MatchesAt("(iPad) Mobile/15E148", "Mobile", 7);
    ContainsCIMeansMatch("(iPad) Mobile/15E148", MobileMarkers[0]);
  }

  /** "iPad" alone mentions no mobile marker, so it is a Tablet. */
  lemma DeviceTablet()
    ensures DeviceLabel("iPad") == "Tablet"
  {
    var ua := "iPad";
    forall k | 0 <= k < |MobileMarkers| ensures !ContainsCI(ua, MobileMarkers[k]) {
      ContainsCIMeansMatch(ua, MobileMarkers[k]);
      if k == 3 {
        forall i: nat ensures !MatchesAt(ua, "iPod", i) {
          if i == 0 { assert Lower(ua[2]) != Lower("iPod"[2]); }
        }
      }
    }
    assert MatchesAt(ua, TabletMarkers[0], 0);
    ContainsCIMeansMatch(ua, TabletMarkers[0]);
  }

  /** "X11" is shorter than every mobile and tablet marker, so it is Desktop. */
  lemma DeviceDesktop()
    ensures DeviceLabel("X11") == "Desktop"
  {
    var ua := "X11";
    forall k | 0 <= k < |MobileMarkers| ensures !ContainsCI(ua, MobileMarkers[k]) {
      ContainsCIMeansMatch(ua, MobileMarkers[k]);
    }
    MentionsAnyMeansSome(ua, MobileMarkers);
    ContainsCIMeansMatch(ua, TabletMarkers[0]);
    MentionsAnyMeansSome(ua, TabletMarkers);
    assert MatchesAt(ua, DesktopMarkers[3], 0);
    ContainsCIMeansMatch(ua, DesktopMarkers[3]);
    MentionsAnyMeansSome(ua, DesktopMarkers);
  }

  lemma ReferrerExamples(hostOf: string -> Option<string>)
    requires hostOf("https://example.com/page") == Some("example.com")
    requires hostOf("not a url") == None
    ensures ReferrerLabel("https://example.com/page", hostOf) == "example.com"
    ensures ReferrerLabel("", hostOf) == "Direct"
    ensures ReferrerLabel("not a url", hostOf) == "Direct"
  {
  }
}
