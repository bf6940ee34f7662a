/** Stage 2 of the scraper (`stage2_deep_scrape` in backend/fb_scraper.py):
    each accepted member's profile is visited and a lead record is assembled
    from what the page shows. The browser is abstracted as `visit(i)`, what the
    visit of the `i`-th candidate produced, and the phone patterns as an
    ordered list of matchers. */
module Profile {
  import opened Text
  import opened Collector

  const MaxNameLength: nat := 100
  const UserMarker := "/user/"
  const ProfilePrefix := "https://www.facebook.com/profile.php?id="
  const SocialDomains: seq<string> :=
    ["facebook.com", "instagram.com", "twitter.com", "youtube.com", "tiktok.com", "linkedin.com"]

  /** Follower count and bio as read from the profile page. */
  datatype AboutData = AboutData(followers: string, bio: string)

  /** The three page evaluations of a profile visit, in order. `None` means
      that evaluation, or the navigation before it, raised; the evaluations
      after a failed one are never reached. */
  datatype ProfilePage = ProfilePage(
    text: Option<string>,
    externalLinks: Option<seq<string>>,
    about: Option<AboutData>)

  /** A lead as exported; `quality` is absent until the export labels it. */
  datatype LeadRecord = LeadRecord(
    name: string,
    url: string,
    phone: string,
    website: string,
    hasWebsite: string,
    about: string,
    work: string,
    quality: Option<string>)

  /** The display name: the first line of the candidate text, stripped, cut
      to 100 characters. */
  function CleanName(text: string): string
  {
    var stripped := Strip(BeforeFirst(text, '\n'));
    stripped[..Min(|stripped|, MaxNameLength)]
  }

  /** The name comes from the first line of the candidate text: it is the
      piece `line[k..k + |r|]` of that line, only whitespace precedes it, it
      is as long as the stripped line or 100 characters, whichever is
      shorter, and it holds no newline and no leading whitespace. */
  lemma CleanNameShape(text: string) returns (k: nat)
    ensures var line := BeforeFirst(text, '\n');
            var r := CleanName(text);
            && |r| == Min(|Strip(line)|, MaxNameLength)
            && k + |r| <= |line| && r == line[k..k + |r|]
            && (forall i :: 0 <= i < k ==> IsSpace(line[i]))
            && '\n' !in r
            && (r == [] || !IsSpace(r[0]))
  {
    var line := BeforeFirst(text, '\n');
    k := StripShape(line);
    StripKeepsChars(line, '\n');
    var stripped := Strip(line);
    var r := stripped[..Min(|stripped|, MaxNameLength)];
    assert r == CleanName(text);
    assert r == line[k..k + |r|] by {
      forall m | 0 <= m < |r|
        ensures r[m] == line[k + m]
      {
        assert r[m] == stripped[m];
      }
    }
  }

  /** A name that is already one clean line of at most 100 characters is kept. */
  lemma CleanNameKeepsPlainName(s: string)
    requires '\n' !in s && |s| <= MaxNameLength
    requires s == [] || (!IsSpace(s[0]) && !IsSpace(s[|s| - 1]))
    ensures CleanName(s) == s
  {
    assert BeforeFirst(s, '\n') == s;
    var _ := StripShape(s);
  }

  /** `/user/` followed by a digit starts at position `i`. */
  predicate UserIdAt(s: string, i: nat) {
    i + |UserMarker| < |s| && s[i..i + |UserMarker|] == UserMarker && IsDigit(s[i + |UserMarker|])
  }

  /** The longest run of digits at the start of `s`. */
  function DigitRun(s: string): (r: string)
    ensures r <= s
    ensures forall i :: 0 <= i < |r| ==> IsDigit(r[i])
    ensures |r| < |s| ==> !IsDigit(s[|r|])
  {
    if s != [] && IsDigit(s[0]) then [s[0]] + DigitRun(s[1..]) else []
  }

  /** The leftmost position at or after `from` where a user id starts. */
  function FindUserId(s: string, from: nat): (r: Option<nat>)
    ensures r.Some? ==> from <= r.value && UserIdAt(s, r.value)
    ensures r.Some? ==> forall j: nat :: from <= j < r.value ==> !UserIdAt(s, j)
    ensures r.None? ==> forall j: nat :: from <= j ==> !UserIdAt(s, j)
    decreases |s| - from
  {
    if from + |UserMarker| >= |s| then None
    else if UserIdAt(s, from) then Some(from)
    else FindUserId(s, from + 1)
  }

  /** The group-member link turned into a direct profile link: the digits
      after the leftmost `/user/` that is followed by a digit become the
      profile id; a link without one is kept. */
  function ProfileUrl(url: string): string
  {
    match FindUserId(url, 0)
    case Some(i) => ProfilePrefix + DigitRun(url[i + |UserMarker|..])
    case None => url
  }

  /** A link without a user id is kept; otherwise the profile id is the
      maximal digit run after the leftmost `/user/` followed by a digit. */
  lemma ProfileUrlSpec(url: string)
    ensures (forall i: nat :: !UserIdAt(url, i)) ==> ProfileUrl(url) == url
    ensures forall i: nat :: UserIdAt(url, i) && (forall j: nat :: j < i ==> !UserIdAt(url, j)) ==>
              ProfileUrl(url) == ProfilePrefix + DigitRun(url[i + |UserMarker|..])
  {
    match FindUserId(url, 0)
    case Some(i) =>
      LeftmostUserId(url, i);
    case None =>
  }

  /** Only one position is the leftmost user id. */
  lemma LeftmostUserId(url: string, i: nat)
    requires UserIdAt(url, i) && forall j: nat :: j < i ==> !UserIdAt(url, j)
    ensures forall k: nat :: UserIdAt(url, k) && (forall j: nat :: j < k ==> !UserIdAt(url, j)) ==> k == i
  {
    forall k: nat | UserIdAt(url, k) && (forall j: nat :: j < k ==> !UserIdAt(url, j))
      ensures k == i
    {
      assert i < k ==> !UserIdAt(url, i);
      assert k < i ==> !UserIdAt(url, k);
    }
  }

  /** A profile link has no user id in it. */
  lemma NoUserIdInProfileUrl(digits: string)
    requires forall i :: 0 <= i < |digits| ==> IsDigit(digits[i])
    ensures forall i: nat :: !UserIdAt(ProfilePrefix + digits, i)
  {
    var s := ProfilePrefix + digits;
    assert 'u' !in ProfilePrefix;
    forall i: nat
      ensures !UserIdAt(s, i)
    {
      if i + |UserMarker| < |s| {
        if i + 1 < |ProfilePrefix| {
          assert s[i + 1] == ProfilePrefix[i + 1];
        } else {
          assert s[i + 1] == digits[i + 1 - |ProfilePrefix|];
        }
        assert s[i..i + |UserMarker|][1] == s[i + 1] != UserMarker[1];
      }
    }
  }

  /** Canonicalising a link twice changes nothing more. */
  lemma ProfileUrlIdempotent(url: string)
    ensures ProfileUrl(ProfileUrl(url)) == ProfileUrl(url)
  {
    match FindUserId(url, 0)
    case Some(i) =>
      var id := DigitRun(url[i + |UserMarker|..]);
      NoUserIdInProfileUrl(id);
      assert FindUserId(ProfilePrefix + id, 0).None?;
    case None =>
  }

  /** The phone: the text the first matcher that matches finds, or ''. */
  function FirstMatch(matchers: seq<string -> Option<string>>, text: string, from: nat): (r: string)
    decreases |matchers| - from
  {
    if from >= |matchers| then ""
    else match matchers[from](text)
      case Some(found) => found
      case None => FirstMatch(matchers, text, from + 1)
  }

  /** First match wins: the phone comes from the earliest matcher that finds
      something, and is '' when none does. */
  lemma {:induction false} FirstMatchWins(matchers: seq<string -> Option<string>>, text: string, from: nat)
    ensures (forall i :: from <= i < |matchers| ==> matchers[i](text).None?) ==> FirstMatch(matchers, text, from) == ""
    ensures forall i :: from <= i < |matchers| && matchers[i](text).Some? &&
                        (forall j :: from <= j < i ==> matchers[j](text).None?) ==>
              FirstMatch(matchers, text, from) == matchers[i](text).value
    decreases |matchers| - from
  {
    if from < |matchers| {
      FirstMatchWins(matchers, text, from + 1);
    }
  }

  /** A link to one of the social networks (case-insensitive). */
  predicate IsSocialLink(link: string) {
    exists d :: d in SocialDomains && Contains(Lower(link), d)
  }

  /** The website: the first link that is not a social network, cut before
      its query string, or '' when every link is a social network. */
  function SelectWebsite(links: seq<string>, from: nat): (r: string)
    decreases |links| - from
  {
    if from >= |links| then ""
    else if !IsSocialLink(links[from]) then BeforeFirst(links[from], '?')
    else SelectWebsite(links, from + 1)
  }

  /** The website never carries a query string. */
  lemma {:induction false} SelectWebsiteNoQuery(links: seq<string>, from: nat)
    ensures '?' !in SelectWebsite(links, from)
    decreases |links| - from
  {
    if from < |links| && IsSocialLink(links[from]) {
      SelectWebsiteNoQuery(links, from + 1);
    }
  }

  /** With only social links there is no website. */
  lemma {:induction false} SelectWebsiteAllSocial(links: seq<string>, from: nat)
    requires forall i :: from <= i < |links| ==> IsSocialLink(links[i])
    ensures SelectWebsite(links, from) == ""
    decreases |links| - from
  {
    if from < |links| {
      SelectWebsiteAllSocial(links, from + 1);
    }
  }

  /** The website is the first non-social link, cut at its query string. */
  lemma {:induction false} SelectWebsiteFirst(links: seq<string>, from: nat, i: nat)
    requires from <= i < |links| && !IsSocialLink(links[i])
    requires forall j :: from <= j < i ==> IsSocialLink(links[j])
    ensures SelectWebsite(links, from) == BeforeFirst(links[i], '?')
    decreases i - from
  {
    if from < i {
      SelectWebsiteFirst(links, from + 1, i);
    }
  }

  /** Follower count and bio joined by ` | `, or whichever of them is present. */
  function CombineAbout(a: AboutData): (r: string)
    ensures r == "" <==> a.followers == "" && a.bio == ""
    ensures a.followers != "" ==> a.followers <= r
    ensures a.bio != "" ==> |a.bio| <= |r| && a.bio == r[|r| - |a.bio|..]
    ensures a.followers != "" && a.bio != "" ==> |r| == |a.followers| + 3 + |a.bio|
    ensures a.followers != "" && a.bio != "" ==> r[|a.followers|..|a.followers| + 3] == " | "
    ensures a.bio == "" ==> r == a.followers
    ensures a.followers == "" ==> r == a.bio
  {
    if a.followers != "" && a.bio != "" then a.followers + " | " + a.bio
    else if a.followers != "" then a.followers
    else if a.bio != "" then a.bio
    else ""
  }

  function YesNo(b: bool): string { if b then "Yes" else "No" }

  /** The record for one candidate. Whatever the visit produced before it
      failed is kept; the rest stays ''. */
  function AssembleRecord(c: Candidate, page: ProfilePage, matchers: seq<string -> Option<string>>): LeadRecord
  {
    var phone := if page.text.Some? then FirstMatch(matchers, page.text.value, 0) else "";
    var website := if page.text.Some? && page.externalLinks.Some?
                   then SelectWebsite(page.externalLinks.value, 0) else "";
    var about := if page.text.Some? && page.externalLinks.Some? && page.about.Some?
                 then CombineAbout(page.about.value) else "";
    LeadRecord(CleanName(c.text), ProfileUrl(c.url), phone, website, YesNo(website != ""), about, "", None)
  }

  /** A record carries the cleaned name and the canonical link; it says it
      has a website exactly when it has one; `work` is always empty; what a
      failed visit did not reach stays empty; the website has no query
      string. */
  lemma AssembleRecordShape(c: Candidate, page: ProfilePage, matchers: seq<string -> Option<string>>)
    ensures var r := AssembleRecord(c, page, matchers);
            && r.name == CleanName(c.text) && r.url == ProfileUrl(c.url)
            && (r.hasWebsite == "Yes" <==> r.website != "")
            && (r.hasWebsite == "No" <==> r.website == "")
            && r.work == "" && r.quality.None?
            && (page.text.None? ==> r.phone == "" && r.website == "" && r.about == "")
            && (page.externalLinks.None? ==> r.website == "" && r.about == "")
            && '?' !in r.website
  {
    if page.text.Some? && page.externalLinks.Some? {
      SelectWebsiteNoQuery(page.externalLinks.value, 0);
    }
  }

  /** The `try` block for one candidate and the record appended after it. */
  method ScrapeProfile(match_: Candidate, page: ProfilePage, matchers: seq<string -> Option<string>>)
    returns (record: LeadRecord)
    ensures record == AssembleRecord(match_, page, matchers)
  {
    var name := CleanName(match_.text);
    var phone, website, about, work := "", "", "", "";
    var profileUrl := ProfileUrl(match_.url);
    if page.text.Some? {
      var pageText := page.text.value;
      var k := 0;
      while k < |matchers|
        invariant k <= |matchers|
        invariant FirstMatch(matchers, pageText, 0) == FirstMatch(matchers, pageText, k)
        decreases |matchers| - k
      {
        var found := matchers[k](pageText);
        if found.Some? {
          phone := found.value;
          break;
        }
        k := k + 1;
      }
      if page.externalLinks.Some? {
        var links := page.externalLinks.value;
        var j := 0;
        while j < |links|
          invariant j <= |links|
          invariant SelectWebsite(links, 0) == SelectWebsite(links, j)
          decreases |links| - j
        {
          if !IsSocialLink(links[j]) {
            website := BeforeFirst(links[j], '?');
            break;
          }
          j := j + 1;
        }
        if page.about.Some? {
          var followerStr := page.about.value.followers;
          var bioStr := page.about.value.bio;
          if followerStr != "" && bioStr != "" {
            about := followerStr + " | " + bioStr;
          } else if followerStr != "" {
            about := followerStr;
          } else if bioStr != "" {
            about := bioStr;
          }
        }
      }
    }
    record := LeadRecord(name, profileUrl, phone, website, if website != "" then "Yes" else "No", about, work, None);
  }

  /** The first `n` values of `f`, in order. */
  function Tabulate<T>(f: nat -> T, n: nat): seq<T> {
    if n == 0 then [] else Tabulate(f, n - 1) + [f(n - 1)]
  }

  lemma {:induction false} TabulateAt<T>(f: nat -> T, n: nat)
    ensures |Tabulate(f, n)| == n
    ensures forall i :: 0 <= i < n ==> Tabulate(f, n)[i] == f(i)
  {
    if n > 0 {
      TabulateAt(f, n - 1);
    }
  }

  /** The record of the `i`-th candidate, from the page its visit reached. */
  function RecordOf(matches: seq<Candidate>, visit: nat -> ProfilePage, matchers: seq<string -> Option<string>>): nat -> LeadRecord {
    (i: nat) => if i < |matches| then AssembleRecord(matches[i], visit(i), matchers) else AssembleRecord(Candidate("", "", ""), visit(i), matchers)
  }

  /** The deep scrape: one record per candidate, in candidate order, whether
      or not its visit succeeded. */
  method DeepScrape(matches: seq<Candidate>, visit: nat -> ProfilePage, matchers: seq<string -> Option<string>>)
    returns (results: seq<LeadRecord>)
    ensures |results| == |matches|
    ensures forall i :: 0 <= i < |matches| ==> results[i] == AssembleRecord(matches[i], visit(i), matchers)
  {
    var f := RecordOf(matches, visit, matchers);
    results := [];
    for idx := 0 to |matches|
      invariant results == Tabulate(f, idx)
    {
      var record := ScrapeProfile(matches[idx], visit(idx), matchers);
      results := results + [record];
    }
    TabulateAt(f, |matches|);
  }
}
