/**
 * The link registry and the redirect engine as functions from the two
 * namespaces they touch (URL_MAPPINGS and ANALYTICS) to a reply and the two
 * namespaces they leave behind. The handlers of the Worker class perform the
 * same effects as a sequence of puts and deletes and are proved equal to
 * these functions; the properties of the handlers are proved here.
 */
module Links {
  import opened Store
  import opened Analytics

  /** A reply together with the URL_MAPPINGS and ANALYTICS contents after the handler. */
  datatype Step<R> = Step(reply: R, urls: UrlMappings, stats: AnalyticsKv)

  /** The success body of a create: `{ shortUrl, shortId }`. */
  datatype ShortLink = ShortLink(shortUrl: string, shortId: string)

  /** `userId || "anonymous"` */
  function Owner(userId: string): (o: string)
    ensures o != ""
    ensures userId != "" ==> o == userId
    ensures userId == "" ==> o == Anonymous
  {
    if userId != "" then userId else Anonymous
  }

  /** A user's index of codes; a missing index reads as empty. */
  function IndexOrEmpty(m: UrlMappings, userId: string): (codes: seq<string>)
    ensures GetIndex(m, userId).Some? ==> codes == GetIndex(m, userId).value
    ensures GetIndex(m, userId).None? ==> codes == []
  {
    match GetIndex(m, userId)
    case None => []
    case Some(codes) => codes
  }

  // ---------------------------------------------------------------------------
  // Create (handleShortenUrl)

  /** Creating a link. An empty URL, or a custom code whose `url:` entry exists,
      is refused with nothing written. Otherwise the code (the custom one, or a
      generated one that is NOT checked against existing links) gets its URL,
      its metadata, a place at the head of the creator's index when a user id
      is given, and a zero analytics record; nothing else changes. */
  function Shorten(
    m: UrlMappings, an: AnalyticsKv,
    url: string, customCode: string, userId: string,
    codeBytes: seq<nat>, idBytes: seq<nat>, origin: string, now: string): (s: Step<Reply<ShortLink>>)
    requires |codeBytes| == ShortCodeLength && |idBytes| == IdLength
    ensures url == "" ==> s == Step(Err(400, "URL is required"), m, an)
    ensures url != "" && customCode != "" && GetUrl(m, customCode).Some? ==>
      s == Step(Err(400, "Custom code already in use"), m, an)
    ensures s.reply.Ok? <==> url != "" && (customCode == "" || GetUrl(m, customCode).None?)
    ensures s.reply.Ok? ==>
      var code := s.reply.value.shortId;
      var keys := {UrlEntry(code), DataEntry(code), UserIndex(userId)};
      && code == (if customCode != "" then customCode else GenerateShortCode(codeBytes))
      && s.reply.value.shortUrl == origin + "/" + code
      && GetUrl(s.urls, code) == Some(url)
      && GetData(s.urls, code) == Some(UrlData(NanoId(idBytes), code, url, origin + "/" + code, Owner(userId), 0, now))
      && (userId != "" ==> GetIndex(s.urls, userId) == Some([code] + IndexOrEmpty(m, userId)))
      && (userId != "" ==> s.urls - keys == m - keys)
      && (userId == "" ==> s.urls - {UrlEntry(code), DataEntry(code)} == m - {UrlEntry(code), DataEntry(code)})
      && s.stats == an[code := Zero(now)]
    ensures WellTyped(m) ==> WellTyped(s.urls)
    ensures ClicksMirrored(m, an) ==> ClicksMirrored(s.urls, s.stats)
  {
    if url == "" then Step(Err(400, "URL is required"), m, an)
    else
      var code := if customCode != "" then customCode else GenerateShortCode(codeBytes);
      if customCode != "" && GetUrl(m, customCode).Some? then Step(Err(400, "Custom code already in use"), m, an)
      else
        var shortUrl := origin + "/" + code;
        var data := UrlData(NanoId(idBytes), code, url, shortUrl, Owner(userId), 0, now);
        var m1 := m[UrlEntry(code) := RawUrl(url)][DataEntry(code) := LinkData(data)];
        var m2 := if userId != "" then m1[UserIndex(userId) := CodeList([code] + IndexOrEmpty(m1, userId))] else m1;
        Step(Ok(ShortLink(shortUrl, code)), m2, an[code := Zero(now)])
  }

  /** After a successful create the code redirects to the URL (whatever the
      analytics update does), and a second create with the same custom code is refused. */
  lemma ShortenThenResolve(
    m: UrlMappings, an: AnalyticsKv, url: string, customCode: string, userId: string,
    codeBytes: seq<nat>, idBytes: seq<nat>, origin: string, now: string,
    req: ClickRequest, later: string, hostOf: string -> Option<string>, hrefOf: string -> Option<string>, fault: Fault,
    url2: string, userId2: string, codeBytes2: seq<nat>, idBytes2: seq<nat>)
    requires |codeBytes| == ShortCodeLength && |idBytes| == IdLength
    requires |codeBytes2| == ShortCodeLength && |idBytes2| == IdLength
    requires Shorten(m, an, url, customCode, userId, codeBytes, idBytes, origin, now).reply.Ok?
    ensures var s := Shorten(m, an, url, customCode, userId, codeBytes, idBytes, origin, now);
      var code := s.reply.value.shortId;
      && Redirect(s.urls, s.stats, code, req, later, hostOf, hrefOf, fault).reply
           == (if hrefOf(url).Some? then Found(hrefOf(url).value) else RedirectThrows)
      && (url2 != "" && customCode != "" ==>
            Shorten(s.urls, s.stats, url2, customCode, userId2, codeBytes2, idBytes2, origin, later).reply
              == Err(400, "Custom code already in use"))
  {
  }

  /** A generated code is not checked against existing links: when it
      collides, the create succeeds and the old link's URL and metadata are replaced. */
  lemma GeneratedCodeOverwrites(
    m: UrlMappings, an: AnalyticsKv, url: string, userId: string,
    codeBytes: seq<nat>, idBytes: seq<nat>, origin: string, now: string)
    requires |codeBytes| == ShortCodeLength && |idBytes| == IdLength
    requires url != ""
    requires GetUrl(m, GenerateShortCode(codeBytes)).Some?
    ensures var s := Shorten(m, an, url, "", userId, codeBytes, idBytes, origin, now);
      && s.reply.Ok? && s.reply.value.shortId == GenerateShortCode(codeBytes)
      && GetUrl(s.urls, GenerateShortCode(codeBytes)) == Some(url)
      && GetData(s.urls, GenerateShortCode(codeBytes)).value.id == NanoId(idBytes)
  {
  }

  // ---------------------------------------------------------------------------
  // Listing (handleGetUserLinks)

  /** The metadata record as listed: clicks taken from analytics when a record is there. */
  function Overlay(an: AnalyticsKv, code: string, d: UrlData): (r: UrlData)
    ensures r.clicks == (if code in an then an[code].clicks else d.clicks)
    ensures r.(clicks := d.clicks) == d
  {
    if code in an then d.(clicks := an[code].clicks) else d
  }

  /** The links listed for an index, in index order, codes without metadata skipped. */
  function Collect(m: UrlMappings, an: AnalyticsKv, codes: seq<string>): (links: seq<UrlData>)
    ensures |links| <= |codes|
    decreases |codes|
  {
    if codes == [] then []
    else
      var init := Collect(m, an, codes[..|codes| - 1]);
      var c := codes[|codes| - 1];
      match GetData(m, c)
      case None => init
      case Some(d) => init + [Overlay(an, c, d)]
  }

  /** The codes of an index that still have metadata, in index order. */
  function Present(m: UrlMappings, codes: seq<string>): (r: seq<string>)
    ensures forall c :: c in r <==> c in codes && GetData(m, c).Some?
    decreases |codes|
  {
    if codes == [] then []
    else
      var c := codes[|codes| - 1];
      var init := Present(m, codes[..|codes| - 1]);
      assert forall x :: x in codes <==> x in codes[..|codes| - 1] || x == c by {
        assert codes == codes[..|codes| - 1] + [c];
      }
      if GetData(m, c).Some? then init + [c] else init
  }

  function Ids(links: seq<UrlData>): (ids: seq<string>)
    ensures |ids| == |links| && forall k :: 0 <= k < |links| ==> ids[k] == links[k].shortId
  {
    seq(|links|, k requires 0 <= k < |links| => links[k].shortId)
  }

  /** The listing follows the index: its codes are exactly the index's codes
      that have metadata, in index order, and each listed link is the stored
      record with the click count overlaid from analytics. */
  lemma {:induction false} CollectFollowsIndex(m: UrlMappings, an: AnalyticsKv, codes: seq<string>)
    requires WellTyped(m)
    ensures Ids(Collect(m, an, codes)) == Present(m, codes)
    ensures forall k :: 0 <= k < |Collect(m, an, codes)| ==>
      var l := Collect(m, an, codes)[k];
      GetData(m, l.shortId).Some? && l == Overlay(an, l.shortId, GetData(m, l.shortId).value)
    decreases |codes|
  {
    if codes != [] {
      var init := codes[..|codes| - 1];
      CollectFollowsIndex(m, an, init);
      var c := codes[|codes| - 1];
      var links := Collect(m, an, codes);
      var before := Collect(m, an, init);
      match GetData(m, c) {
        case None =>
        case Some(d) =>
          assert links == before + [Overlay(an, c, d)];
          assert Ids(links) == Ids(before) + [c];
      }
    }
  }

  /** `GET /api/links?userId=` */
  function ListLinks(m: UrlMappings, an: AnalyticsKv, userId: string): (r: Reply<seq<UrlData>>)
    ensures userId == "" <==> r == Err(400, "User ID is required")
    ensures userId != "" ==> r.Ok? && r.value == Collect(m, an, IndexOrEmpty(m, userId))
  {
    if userId == "" then Err(400, "User ID is required")
    else match GetIndex(m, userId)
      case None => Ok([])
      case Some(codes) => Ok(Collect(m, an, codes))
  }

  // ---------------------------------------------------------------------------
  // Delete (handleDeleteLink)

  /** `codes.filter(id => id !== code)` */
  function Without(codes: seq<string>, code: string): (r: seq<string>)
    ensures forall c :: c in r <==> c in codes && c != code
    ensures code !in codes ==> r == codes
    decreases |codes|
  {
    if codes == [] then []
    else (if codes[0] == code then [] else [codes[0]]) + Without(codes[1..], code)
  }

  /** The filter drops every occurrence of the code and keeps every other entry
      as often as it occurs. */
  lemma {:induction false} WithoutCounts(codes: seq<string>, code: string)
    ensures multiset(Without(codes, code)) == multiset(codes)[code := 0]
    decreases |codes|
  {
    if codes != [] {
      WithoutCounts(codes[1..], code);
      assert codes == [codes[0]] + codes[1..];
    }
  }

  /** The filter works entry by entry: filtering a concatenation filters each
      part, so the kept codes stay in their original order. */
  lemma {:induction false} WithoutAppend(a: seq<string>, b: seq<string>, code: string)
    ensures Without(a + b, code) == Without(a, code) + Without(b, code)
    decreases |a|
  {
    if a != [] {
      WithoutAppend(a[1..], b, code);
      assert (a + b)[1..] == a[1..] + b;
    } else {
      assert a + b == b;
    }
  }

  /** Deleting a link. No metadata: 404 and no change. A requester id that is
      given and differs from the recorded owner (an "anonymous" link included):
      403 and no change. Otherwise `url:`, `urldata:` and the analytics record go,
      the code is filtered out of the REQUESTER's index when an id is given and
      that index exists, and nothing else changes. */
  function Delete(m: UrlMappings, an: AnalyticsKv, code: string, requester: string): (s: Step<Reply<string>>)
    ensures GetData(m, code).None? ==> s == Step(Err(404, "Link not found"), m, an)
    ensures GetData(m, code).Some? && requester != "" && GetData(m, code).value.userId != requester ==>
      s == Step(Err(403, "Unauthorized"), m, an)
    ensures s.reply.Ok? <==> GetData(m, code).Some? && (requester == "" || GetData(m, code).value.userId == requester)
    ensures s.reply.Ok? ==>
      var gone := {UrlEntry(code), DataEntry(code)};
      && s.reply.value == "Link deleted successfully"
      && UrlEntry(code) !in s.urls && DataEntry(code) !in s.urls
      && s.stats == an - {code}
      && (requester != "" && GetIndex(m, requester).Some? ==>
            && GetIndex(s.urls, requester) == Some(Without(GetIndex(m, requester).value, code))
            && s.urls - {UserIndex(requester)} == m - gone - {UserIndex(requester)})
      && (requester == "" || GetIndex(m, requester).None? ==> s.urls == m - gone)
    ensures WellTyped(m) ==> WellTyped(s.urls)
    ensures ClicksMirrored(m, an) ==> ClicksMirrored(s.urls, s.stats)
  {
    match GetData(m, code)
    case None => Step(Err(404, "Link not found"), m, an)
    case Some(data) =>
      if requester != "" && data.userId != requester then Step(Err(403, "Unauthorized"), m, an)
      else
        var m1 := m - {UrlEntry(code)} - {DataEntry(code)};
        var an1 := an - {code};
        var m2 :=
          if requester != "" && GetIndex(m1, requester).Some?
          then m1[UserIndex(requester) := CodeList(Without(GetIndex(m1, requester).value, code))]
          else m1;
        Step(Ok("Link deleted successfully"), m2, an1)
  }

  /** After a successful delete the code no longer redirects, has no analytics,
      and is listed for nobody, even where a stale index entry remains. */
  lemma DeleteThenGone(
    m: UrlMappings, an: AnalyticsKv, code: string, requester: string,
    anyUser: string, req: ClickRequest, now: string,
    hostOf: string -> Option<string>, hrefOf: string -> Option<string>, fault: Fault)
    requires WellTyped(m)
    requires Delete(m, an, code, requester).reply.Ok?
    ensures var s := Delete(m, an, code, requester);
      && Redirect(s.urls, s.stats, code, req, now, hostOf, hrefOf, fault) == Step(NotFound, s.urls, s.stats)
      && GetAnalytics(s.stats, code) == Err(404, "URL not found")
      && (anyUser != "" ==> code !in Ids(ListLinks(s.urls, s.stats, anyUser).value))
  {
    var s := Delete(m, an, code, requester);
    if anyUser != "" {
      var codes := IndexOrEmpty(s.urls, anyUser);
      CollectFollowsIndex(s.urls, s.stats, codes);
    }
  }

  // ---------------------------------------------------------------------------
  // Analytics (updateAnalytics, handleGetAnalytics, handleResetAnalytics)

  /** Where, if anywhere, a store call inside updateAnalytics fails. The failure
      is caught and logged; what was written before it stays written. */
  datatype Fault = NoFailure | FailsBeforeAnalyticsWrite | FailsBeforeMirrorWrite

  /** The stored record, or the zero record when there is none. */
  function PriorRecord(an: AnalyticsKv, code: string, now: string): (a: AnalyticsData)
    ensures code in an ==> a == an[code]
    ensures code !in an ==> a == Zero(now) && a.clicks == 0 && a.created == now
  {
    if code in an then an[code] else Zero(now)
  }

  /** Copy a click total onto the link's metadata, if the link has any. */
  function Mirror(m: UrlMappings, code: string, clicks: nat): (r: UrlMappings)
    ensures GetData(m, code).None? ==> r == m
    ensures GetData(m, code).Some? ==> r == m[DataEntry(code) := LinkData(GetData(m, code).value.(clicks := clicks))]
  {
    match GetData(m, code)
    case None => m
    case Some(d) => m[DataEntry(code) := LinkData(d.(clicks := clicks))]
  }

  /** Every stored metadata record carries the click total of its analytics record. */
  ghost predicate ClicksMirrored(m: UrlMappings, an: AnalyticsKv)
  {
    forall c :: c in an && GetData(m, c).Some? ==> GetData(m, c).value.clicks == an[c].clicks
  }

  /** updateAnalytics: read-modify-write of the code's analytics record, then
      the new total mirrored onto its metadata, each write lost when a store
      call before it fails. */
  function RecordVisit(
    m: UrlMappings, an: AnalyticsKv, code: string,
    req: ClickRequest, now: string, hostOf: string -> Option<string>, fault: Fault): (s: Step<()>)
    ensures s.stats == if fault == FailsBeforeAnalyticsWrite then an
      else an[code := Recorded(PriorRecord(an, code, now), ClickEntry(req, now, hostOf))]
    ensures s.urls == if fault == NoFailure then Mirror(m, code, s.stats[code].clicks) else m
    ensures WellTyped(m) ==> WellTyped(s.urls)
    ensures fault != FailsBeforeMirrorWrite && ClicksMirrored(m, an) ==> ClicksMirrored(s.urls, s.stats)
  {
    WriteBack(m, an, code, Recorded(PriorRecord(an, code, now), ClickEntry(req, now, hostOf)), fault)
  }

  /** The two writes of updateAnalytics for an already computed record. */
  function WriteBack(m: UrlMappings, an: AnalyticsKv, code: string, a: AnalyticsData, fault: Fault): (s: Step<()>)
    ensures fault == FailsBeforeAnalyticsWrite ==> s.urls == m && s.stats == an
    ensures fault != FailsBeforeAnalyticsWrite ==> s.stats == an[code := a]
    ensures fault == FailsBeforeMirrorWrite ==> s.urls == m
    ensures fault == NoFailure ==> s.urls == Mirror(m, code, a.clicks)
    ensures WellTyped(m) ==> WellTyped(s.urls)
    ensures fault != FailsBeforeMirrorWrite && ClicksMirrored(m, an) ==> ClicksMirrored(s.urls, s.stats)
  {
    match fault
    case FailsBeforeAnalyticsWrite => Step((), m, an)
    case FailsBeforeMirrorWrite => Step((), m, an[code := a])
    case NoFailure =>
      MirrorKeeps(m, an, code, a);
      Step((), Mirror(m, code, a.clicks), an[code := a])
  }

  /** Writing a record and mirroring its total keeps both invariants. */
  lemma MirrorKeeps(m: UrlMappings, an: AnalyticsKv, code: string, a: AnalyticsData)
    ensures WellTyped(m) ==> WellTyped(Mirror(m, code, a.clicks))
    ensures ClicksMirrored(m, an) ==> ClicksMirrored(Mirror(m, code, a.clicks), an[code := a])
  {
    var r := Mirror(m, code, a.clicks);
    if ClicksMirrored(m, an) {
      forall c | c in an[code := a] && GetData(r, c).Some?
        ensures GetData(r, c).value.clicks == an[code := a][c].clicks
      {
        if c != code {
          assert GetData(r, c) == GetData(m, c);
        }
      }
    }
  }

  /** The analytics and metadata writes are independent: a failure between
      them leaves the metadata's click count behind the analytics record. */
  lemma MirrorCanLag(req: ClickRequest, now: string, hostOf: string -> Option<string>)
    ensures var m := map[DataEntry("a") := LinkData(UrlData("i", "a", "u", "s", Anonymous, 0, now))];
      var an := map["a" := Zero(now)];
      && ClicksMirrored(m, an)
      && !ClicksMirrored(RecordVisit(m, an, "a", req, now, hostOf, FailsBeforeMirrorWrite).urls,
                         RecordVisit(m, an, "a", req, now, hostOf, FailsBeforeMirrorWrite).stats)
  {
    var m := map[DataEntry("a") := LinkData(UrlData("i", "a", "u", "s", Anonymous, 0, now))];
    var an := map["a" := Zero(now)];
    var s := RecordVisit(m, an, "a", req, now, hostOf, FailsBeforeMirrorWrite);
    assert GetData(s.urls, "a").Some? && GetData(s.urls, "a").value.clicks == 0;
    assert s.stats["a"].clicks == 1;
  }

  /** The result of a redirect: a 302 to a location, a 404, or the exception
      `Response.redirect` raises for a stored URL that does not parse. */
  datatype RedirectReply = Found(location: string) | NotFound | RedirectThrows

  /** handleRedirect: an unknown code is 404 with nothing changed; a known one
      records the visit first, whether or not the analytics update fails, and
      then answers 302 to the stored URL in its serialised form (`hrefOf`), or
      throws when the stored URL does not parse (`hrefOf` answers None). */
  function Redirect(
    m: UrlMappings, an: AnalyticsKv, code: string,
    req: ClickRequest, now: string, hostOf: string -> Option<string>, hrefOf: string -> Option<string>,
    fault: Fault): (s: Step<RedirectReply>)
    ensures GetUrl(m, code).None? ==> s == Step(NotFound, m, an)
    ensures GetUrl(m, code).Some? && hrefOf(GetUrl(m, code).value).Some? ==>
      s.reply == Found(hrefOf(GetUrl(m, code).value).value)
    ensures GetUrl(m, code).Some? && hrefOf(GetUrl(m, code).value).None? ==> s.reply == RedirectThrows
    ensures GetUrl(m, code).Some? ==>
      var v := RecordVisit(m, an, code, req, now, hostOf, fault);
      s.urls == v.urls && s.stats == v.stats
  {
    match GetUrl(m, code)
    case None => Step(NotFound, m, an)
    case Some(url) =>
      var v := RecordVisit(m, an, code, req, now, hostOf, fault);
      match hrefOf(url)
      case None => Step(RedirectThrows, v.urls, v.stats)
      case Some(location) => Step(Found(location), v.urls, v.stats)
  }

  /** A successful redirect counts exactly one click and keeps the record invariants. */
  lemma RedirectCountsOneClick(
    m: UrlMappings, an: AnalyticsKv, code: string,
    req: ClickRequest, now: string, hostOf: string -> Option<string>, hrefOf: string -> Option<string>)
    requires GetUrl(m, code).Some?
    requires code in an ==> Consistent(an[code])
    ensures var s := Redirect(m, an, code, req, now, hostOf, hrefOf, NoFailure);
      && code in s.stats && Consistent(s.stats[code])
      && s.stats[code].clicks == PriorRecord(an, code, now).clicks + 1
      && (GetData(m, code).Some? ==> GetData(s.urls, code).Some? && GetData(s.urls, code).value.clicks == s.stats[code].clicks)
  {
    ZeroConsistent(now);
    RecordedConsistent(PriorRecord(an, code, now), ClickEntry(req, now, hostOf));
  }

  /** `GET /api/analytics/{code}` */
  function GetAnalytics(an: AnalyticsKv, code: string): (r: Reply<AnalyticsData>)
    ensures r.Ok? <==> code in an
    ensures r.Ok? ==> r.value == an[code]
    ensures !r.Ok? ==> r == Err(404, "URL not found")
  {
    if code in an then Ok(an[code]) else Err(404, "URL not found")
  }

  /** handleResetAnalytics: the analytics record is overwritten with the zero
      record (even for a code that has no link) and a link's metadata count set to 0. */
  function ResetAnalytics(m: UrlMappings, an: AnalyticsKv, code: string, now: string): (s: Step<Reply<string>>)
    ensures s.reply == Ok("Analytics reset successfully")
    ensures s.stats == an[code := Zero(now)]
    ensures s.urls == Mirror(m, code, 0)
    ensures WellTyped(m) ==> WellTyped(s.urls)
    ensures ClicksMirrored(m, an) ==> ClicksMirrored(s.urls, s.stats)
  {
    Step(Ok("Analytics reset successfully"), Mirror(m, code, 0), an[code := Zero(now)])
  }

  /** After a reset the record reads back as zero clicks, empty breakdowns, empty
      history and the new creation time, and the record invariants hold again. */
  lemma ResetThenGet(m: UrlMappings, an: AnalyticsKv, code: string, now: string)
    ensures var s := ResetAnalytics(m, an, code, now);
      var r := GetAnalytics(s.stats, code);
      && r.Ok? && r.value.clicks == 0 && r.value.created == now
      && r.value.countries == map[] && r.value.devices == map[] && r.value.referrers == map[]
      && r.value.clickHistory == []
      && Consistent(r.value)
  {
    ZeroConsistent(now);
  }
}
