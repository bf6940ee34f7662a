/** The job driver (`scrape_facebook_group` in backend/fb_scraper.py): for
    each group link the members page is opened, the members are collected
    (stage 1), the accepted ones are deep-scraped (stage 2) and exported, and
    the per-group results and totals are reported. A failure on one group is
    recorded and the job moves on; only a login wall ends the job early. */
module Scraper {
  import opened Text
  import opened Slug
  import opened Cookies
  import opened Collector
  import opened Profile
  import opened Export

  const MembersSuffix := "/members"
  const UnknownGroup := "unknown_group"
  const NoCookiesError := "No cookies configured"
  const LoginError := "Login required - cookies expired"

  /** The members page of a group: trailing slashes removed, `/members` added. */
  function MembersUrl(url: string): (r: string)
    ensures |r| >= |MembersSuffix| && r[|r| - |MembersSuffix|..] == MembersSuffix
  {
    TrimRight(url, '/') + MembersSuffix
  }

  /** Trailing slashes on a group link make no difference. */
  lemma MembersUrlIgnoresTrailingSlash(url: string)
    ensures MembersUrl(url + "/") == MembersUrl(url)
  {
    assert (url + "/")[..|url|] == url;
  }

  /** A group link without a trailing slash is kept whole. */
  lemma MembersUrlKeepsLink(url: string)
    requires url == [] || url[|url| - 1] != '/'
    ensures MembersUrl(url) == url + MembersSuffix
  {
  }

  /** The group name from the page title: the part before the first `|`,
      stripped, or the stripped title; `unknown_group` when there is no title
      or reading it failed (`None`). */
  function GroupName(title: Option<string>): string
  {
    match title
    case None => UnknownGroup
    case Some(t) =>
      if t == "" then UnknownGroup
      else
        var part := if '|' in t then BeforeFirst(t, '|') else t;
        Strip(part)
  }

  /** Without a readable, non-empty title the name is `unknown_group`.
      Otherwise it is the piece `part[k..k + |r|]` of the title's text before
      its first `|`, with only whitespace cut off at either end. Either way it
      contains no `|` and has no whitespace at either end. */
  lemma GroupNameShape(title: Option<string>) returns (k: nat)
    ensures var r := GroupName(title);
            && '|' !in r
            && (title.None? || title == Some("") ==> r == UnknownGroup)
            && (r == [] || (!IsSpace(r[0]) && !IsSpace(r[|r| - 1])))
            && (title.Some? && title.value != "" ==>
                  var part := BeforeFirst(title.value, '|');
                  && k + |r| <= |part| && r == part[k..k + |r|]
                  && (forall i :: 0 <= i < k ==> IsSpace(part[i]))
                  && (forall i :: k + |r| <= i < |part| ==> IsSpace(part[i])))
  {
    k := 0;
    if title.Some? && title.value != "" {
      var t := title.value;
      var part := BeforeFirst(t, '|');
      if '|' !in t {
        assert |part| == |t|;
        assert part == t;
      }
      k := StripShape(part);
      StripKeepsChars(part, '|');
    } else {
      assert '|' !in UnknownGroup;
    }
  }

  /** A non-empty group name read back as a title gives the same name. */
  lemma GroupNameIdempotent(title: Option<string>)
    requires GroupName(title) != ""
    ensures GroupName(Some(GroupName(title))) == GroupName(title)
  {
    var _ := GroupNameShape(title);
    var n := GroupName(title);
    assert BeforeFirst(n, '|') == n;
    var _ := StripShape(n);
  }

  /** The export file name. `stamp` stands for the random suffix and the
      timestamp, which are not modelled. */
  function FileName(industry: string, groupName: string, stamp: string): string {
    industry + "_" + Slugify(groupName) + "_" + stamp + ".csv"
  }

  /** What opening a group's members page led to. `None` for `title` means
      reading the title failed; `collectError` is an exception from stage 1
      and `saveError` one from writing the export. */
  datatype UrlVisit =
    | NavigationFailed(error: string)
    | LoginWall
    | Loaded(title: Option<string>,
             harvest: nat -> seq<Item>,
             collectError: Option<string>,
             visit: nat -> ProfilePage,
             saveError: Option<string>)

  /** One entry of the job's `results`. */
  datatype UrlResult =
    | GroupDone(url: string, groupName: string, membersScanned: nat, matchesFound: nat, file: Option<string>)
    | UrlFailed(url: string, error: string)

  datatype JobResult =
    | JobFailed(error: string)
    | JobDone(results: seq<UrlResult>, totalMatches: nat, totalScanned: nat)

  /** What one group contributes: its result entry, its scanned count and its
      leads; `Abort` when the login wall ends the job. */
  datatype UrlStep =
    | Abort
    | Proceed(result: UrlResult, scanned: nat, leads: seq<LeadRecord>)

  /** The stage 2 records for the accepted members. */
  function Leads(matches: seq<Candidate>, visit: nat -> ProfilePage, matchers: seq<string -> Option<string>>): (r: seq<LeadRecord>)
    ensures |r| == |matches|
  {
    seq(|matches|, i requires 0 <= i < |matches| => AssembleRecord(matches[i], visit(i), matchers))
  }

  /** The data stage 1 ends with. */
  function Collected(harvest: nat -> seq<Item>, qualifies: string -> bool): Harvest {
    After(harvest, qualifies, StopAt(harvest, qualifies, 0)).harvest
  }

  /** The body of the per-group `try` block and its `except` clause. */
  function ProcessUrl(url: string, v: UrlVisit, industry: string, stamp: string,
                      qualifies: string -> bool, matchers: seq<string -> Option<string>>): UrlStep
  {
    match v
    case NavigationFailed(e) => Proceed(UrlFailed(url, e), 0, [])
    case LoginWall => Abort
    case Loaded(title, harvest, collectError, visit, saveError) =>
      var name := GroupName(title);
      if collectError.Some? then Proceed(UrlFailed(url, collectError.value), 0, [])
      else
        var final := Collected(harvest, qualifies);
        var scanned := |final.scanned|;
        if final.matches == [] then Proceed(GroupDone(url, name, scanned, 0, None), scanned, [])
        else
          var leads := Leads(final.matches, visit, matchers);
          if saveError.Some? then Proceed(UrlFailed(url, saveError.value), scanned, leads)
          else Proceed(GroupDone(url, name, scanned, |leads|, Some(FileName(industry, name, stamp))), scanned, leads)
  }

  /** The formatted cookies handed to the browser. */
  function FormattedCookies(cookies: seq<StoredCookie>): seq<BrowserCookie> {
    seq(|cookies|, i requires 0 <= i < |cookies| => FormatCookie(cookies[i]))
  }

  /** What each group link leads to, in order. */
  function Steps(urls: seq<string>, industry: string, cookies: seq<StoredCookie>,
                 browse: (nat, seq<BrowserCookie>, string) -> UrlVisit, stamps: nat -> string,
                 qualifies: string -> bool, matchers: seq<string -> Option<string>>): (r: seq<UrlStep>)
    ensures |r| == |urls|
  {
    seq(|urls|, i requires 0 <= i < |urls| =>
      ProcessUrl(urls[i], browse(i, FormattedCookies(cookies), MembersUrl(urls[i])), industry, stamps(i), qualifies, matchers))
  }

  function Results(steps: seq<UrlStep>): seq<UrlResult> {
    if steps == [] then []
    else Results(steps[..|steps| - 1]) + (if steps[|steps| - 1].Proceed? then [steps[|steps| - 1].result] else [])
  }

  function TotalScanned(steps: seq<UrlStep>): nat {
    if steps == [] then 0
    else TotalScanned(steps[..|steps| - 1]) + (if steps[|steps| - 1].Proceed? then steps[|steps| - 1].scanned else 0)
  }

  function TotalMatches(steps: seq<UrlStep>): nat {
    if steps == [] then 0
    else TotalMatches(steps[..|steps| - 1]) + (if steps[|steps| - 1].Proceed? then |steps[|steps| - 1].leads| else 0)
  }

  predicate NoAbort(steps: seq<UrlStep>) {
    forall i :: 0 <= i < |steps| ==> steps[i].Proceed?
  }

  /** Every group that did not end the job has exactly one result entry, in
      link order. */
  lemma {:induction false} OneResultPerGroup(steps: seq<UrlStep>)
    requires NoAbort(steps)
    ensures |Results(steps)| == |steps|
    ensures forall i :: 0 <= i < |steps| ==> Results(steps)[i] == steps[i].result
  {
    if steps != [] {
      OneResultPerGroup(steps[..|steps| - 1]);
    }
  }

  /** The total scanned count is the sum of the groups' counts, and each
      group's count is part of it. */
  lemma {:induction false} TotalScannedSplits(a: seq<UrlStep>, b: seq<UrlStep>)
    ensures TotalScanned(a + b) == TotalScanned(a) + TotalScanned(b)
    decreases |b|
  {
    if b != [] {
      assert (a + b)[..|a + b| - 1] == a + b[..|b| - 1];
      TotalScannedSplits(a, b[..|b| - 1]);
    } else {
      assert a + b == a;
    }
  }

  /** Each group's scanned count is part of the total. */
  lemma GroupCountedInTotal(steps: seq<UrlStep>, i: nat)
    requires i < |steps| && steps[i].Proceed?
    ensures steps[i].scanned <= TotalScanned(steps)
  {
    assert steps == steps[..i] + [steps[i]] + steps[i + 1..];
    TotalScannedSplits(steps[..i] + [steps[i]], steps[i + 1..]);
    TotalScannedSplits(steps[..i], [steps[i]]);
    assert [steps[i]][..0] == [];
  }

  /** A finished group reports the members it added to the total and the
      leads it added to the matches; only a login wall ends the job. */
  lemma ProcessUrlCounts(url: string, v: UrlVisit, industry: string, stamp: string,
                         qualifies: string -> bool, matchers: seq<string -> Option<string>>)
    ensures var s := ProcessUrl(url, v, industry, stamp, qualifies, matchers);
            && (s.Abort? <==> v.LoginWall?)
            && (s.Proceed? ==> s.result.url == url)
            && (s.Proceed? && s.result.GroupDone? ==>
                  s.result.membersScanned == s.scanned && s.result.matchesFound == |s.leads|
                  && (s.result.file.Some? <==> s.leads != []))
            && (v.NavigationFailed? ==> s == Proceed(UrlFailed(url, v.error), 0, []))
  {
  }

  /** Extending a prefix of the steps by one step. */
  lemma PrefixStep(steps: seq<UrlStep>, k: nat)
    requires k < |steps|
    ensures var p := steps[..k + 1];
            var s := steps[k];
            && Results(p) == Results(steps[..k]) + (if s.Proceed? then [s.result] else [])
            && TotalScanned(p) == TotalScanned(steps[..k]) + (if s.Proceed? then s.scanned else 0)
            && TotalMatches(p) == TotalMatches(steps[..k]) + (if s.Proceed? then |s.leads| else 0)
            && (NoAbort(p) <==> NoAbort(steps[..k]) && s.Proceed?)
  {
    assert steps[..k + 1][..k] == steps[..k];
  }

  lemma StepAt(urls: seq<string>, industry: string, cookies: seq<StoredCookie>,
               browse: (nat, seq<BrowserCookie>, string) -> UrlVisit, stamps: nat -> string,
               qualifies: string -> bool, matchers: seq<string -> Option<string>>, i: nat)
    requires i < |urls|
    ensures Steps(urls, industry, cookies, browse, stamps, qualifies, matchers)[i] ==
            ProcessUrl(urls[i], browse(i, FormattedCookies(cookies), MembersUrl(urls[i])), industry, stamps(i), qualifies, matchers)
  {
  }

  /** The `try` block for one group link and its `except` clause. */
  method ScrapeGroup(url: string, v: UrlVisit, industry: string, stamp: string,
                     qualifies: string -> bool, matchers: seq<string -> Option<string>>)
    returns (step: UrlStep)
    ensures step == ProcessUrl(url, v, industry, stamp, qualifies, matchers)
  {
    match v {
      case NavigationFailed(e) =>
        return Proceed(UrlFailed(url, e), 0, []);
      case LoginWall =>
        return Abort;
      case Loaded(title, harvest, collectError, visit, saveError) =>
        var groupName := GroupName(title);
        if collectError.Some? {
          return Proceed(UrlFailed(url, collectError.value), 0, []);
        }
        var allScanned, matches, reports := CollectLinks(harvest, qualifies);
        var membersScanned := |allScanned|;
        if matches == [] {
          return Proceed(GroupDone(url, groupName, membersScanned, 0, None), membersScanned, []);
        }
        var scrapedData := DeepScrape(matches, visit, matchers);
        assert scrapedData == Leads(matches, visit, matchers);
        // One record per candidate: `scraped_data` is never empty here.
        var filename := FileName(industry, groupName, stamp);
        // The table is what the export file receives.
        var table := SaveToCsv(scrapedData);
        var result;
        if saveError.Some? {
          result := UrlFailed(url, saveError.value);
        } else {
          result := GroupDone(url, groupName, membersScanned, |scrapedData|, Some(filename));
        }
        return Proceed(result, membersScanned, scrapedData);
    }
  }

  /** The job: without cookies it fails at once; otherwise every group link is
      processed in order, a login wall ends the job with an error, and
      otherwise the job reports one result per link and the totals. */
  method ScrapeFacebookGroup(urls: seq<string>, industry: string, cookies: seq<StoredCookie>,
                             browse: (nat, seq<BrowserCookie>, string) -> UrlVisit, stamps: nat -> string,
                             qualifies: string -> bool, matchers: seq<string -> Option<string>>)
    returns (outcome: JobResult)
    ensures cookies == [] ==> outcome == JobFailed(NoCookiesError)
    ensures cookies != [] ==>
              var steps := Steps(urls, industry, cookies, browse, stamps, qualifies, matchers);
              && (!NoAbort(steps) ==> outcome == JobFailed(LoginError))
              && (NoAbort(steps) ==> outcome == JobDone(Results(steps), TotalMatches(steps), TotalScanned(steps)))
  {
    if cookies == [] {
      return JobFailed(NoCookiesError);
    }
    var formattedCookies := FormatCookiesForPlaywright(cookies);
    assert formattedCookies == FormattedCookies(cookies);
    ghost var steps := Steps(urls, industry, cookies, browse, stamps, qualifies, matchers);
    var results: seq<UrlResult> := [];
    var allMatches: seq<LeadRecord> := [];
    var totalScanned: nat := 0;
    for urlIdx := 0 to |urls|
      invariant NoAbort(steps[..urlIdx])
      invariant results == Results(steps[..urlIdx])
      invariant |allMatches| == TotalMatches(steps[..urlIdx])
      invariant totalScanned == TotalScanned(steps[..urlIdx])
    {
      PrefixStep(steps, urlIdx);
      var url := urls[urlIdx];
      var membersUrl := MembersUrl(url);
      var step := ScrapeGroup(url, browse(urlIdx, formattedCookies, membersUrl), industry, stamps(urlIdx), qualifies, matchers);
      StepAt(urls, industry, cookies, browse, stamps, qualifies, matchers, urlIdx);
      match step {
        case Abort =>
          return JobFailed(LoginError);
        case Proceed(result, scanned, leads) =>
          totalScanned := totalScanned + scanned;
          allMatches := allMatches + leads;
          results := results + [result];
      }
    }
    assert steps[..|urls|] == steps;
    return JobDone(results, |allMatches|, totalScanned);
  }
}
