# Facebook group lead scraper — verified model of the scraping core

This project models the decision logic of `backend/fb_scraper.py`, the
scraper that turns Facebook group member lists into CSV lead files. The
browser is treated as a source of plain data: the member cards read on each
scroll, the page title, the text and decoded links of each profile page.
Around that data the model covers:

- `slugify`, the file-name slug of a group name (`slug.dfy`, module `Slug`);
- `format_cookies_for_playwright`, the normalisation of stored cookies
  (`cookies.dfy`, module `Cookies`);
- stage 1, `stage1_collect_links`: the scroll loop that records every new
  member link once, keeps the members the industry filter accepts, counts
  stalled scrolls and reports progress (`collector.dfy`, module `Collector`);
- stage 2, `stage2_deep_scrape`: per candidate, the display name, the
  canonical profile link, the phone, the website, the about text, and the
  rule that every candidate yields one record even when its visit fails
  (`profile.dfy`, module `Profile`);
- `save_to_csv`: the stable ranking by prospect score, the HOT/WARM/COLD/LOW
  labels and the projection onto the CSV columns (`export.dfy`, module
  `Export`);
- `scrape_facebook_group`: the members-page link, the group name from the
  title, the per-group results with error-and-continue, the login-wall abort
  and the totals (`scraper.dfy`, module `Scraper`).

`text.dfy` (module `Text`) holds the parts of Python's `str` the code relies
on: `lower`, `strip`, `rstrip`, `split(c)[0]` and `in`.

The industry filter `is_qualified_prospect` lives in a module that is not
part of this model; it is the parameter `qualifies`. The phone regular
expressions are an ordered list of matchers `matchers`, first match wins.
Browser results are parameters: `harvest(k)` is the batch of member cards
read on scroll `k`, `visit(i)` what the visit of the `i`-th candidate
produced, and `browse(i, cookies, link)` what opening the members page of the `i`-th
group link led to.

Where the natural reading and the code differ, the model follows the code:
`slugify` returns `unknown` both when nothing survives cleaning and when the
cleaned text is literally `unknown` (`Slug.SlugifyUnknown`), and the
50-character cut can leave a trailing hyphen (`Slug.SlugifyCanEndInHyphen`).

## Model

| member | source | states |
|---|---|---|
| Text.LowerIdentity | backend/fb_scraper.py:142 | lower-casing leaves text made of lower-case letters, digits, `-` and spaces unchanged |
| Text.StripShape | backend/fb_scraper.py:142 | `strip()` yields the piece `s[k..k+\|r\|]` of the input; everything before and after it is whitespace and it has no whitespace at either end; input without boundary whitespace is kept whole |
| Text.StripKeepsChars | backend/fb_scraper.py:605 | stripping never introduces a character |
| Text.BeforeFirst | backend/fb_scraper.py:605 | `split(c)[0]` is a prefix of the input without `c`, ending right before the first `c` |
| Text.TrimRightShape | backend/fb_scraper.py:347 | `rstrip(c)` removes exactly the trailing run of `c` |
| Slug.DropDisallowedShape | backend/fb_scraper.py:143 | removing characters outside `[a-z0-9\s-]` leaves only kept characters, keeps each kept character as often as it occurs, keeps their order, and keeps text already made of them |
| Slug.CollapseShape | backend/fb_scraper.py:144 | collapsing runs of whitespace, `_` and `-` leaves no double hyphen and no separator but `-`, keeps every other character in order, is empty only for empty input, and starts with `-` exactly when the input starts with a separator |
| Slug.CollapseRun | backend/fb_scraper.py:144 | a run of separators becomes a single `-` |
| Slug.CollapseConcat | backend/fb_scraper.py:144 | collapsing works piece by piece wherever the cut does not split a run of separators, so with `CollapseRun` every maximal run becomes one `-` and the rest is kept |
| Slug.LeadingShape | backend/fb_scraper.py:145 | trimming leading hyphens removes a prefix made only of hyphens and yields a suffix that does not start with `-` |
| Slug.CleanShape | backend/fb_scraper.py:141-145 | the cleaned text uses only `a-z`, `0-9`, `-`, has no double hyphen and no hyphen at either end |
| Slug.SlugPassesFilters | backend/fb_scraper.py:141-143 | lower-casing, stripping and filtering keep a text of lower-case words |
| Slug.CleanOfSlug | backend/fb_scraper.py:141-145 | cleaning a slug only drops a trailing hyphen |
| Slug.CleanTwoWords | backend/fb_scraper.py:141-145 | two lower-case words separated by a space clean to the words joined by `-` |
| Slug.Slugify | backend/fb_scraper.py:140-146 | the slug is never empty, has at most 50 characters from `a-z`, `0-9`, `-`, no double hyphen, no leading hyphen, and no trailing hyphen when the cleaned text fits in 50 characters |
| Slug.SlugifyUnknown | backend/fb_scraper.py:146 | the slug is `unknown` exactly when nothing survives cleaning or the cleaned text is `unknown` |
| Slug.SlugifyTwice | backend/fb_scraper.py:140-146 | slugifying a slug gives it back, minus a trailing hyphen the cut left |
| Slug.SlugifyCanEndInHyphen | backend/fb_scraper.py:146 | 49 letters, a space and a letter slugify to 50 characters ending in `-` |
| Cookies.SameSiteOf | backend/fb_scraper.py:207-211 | `sameSite` is one of Strict, Lax, None; a recognised value is kept, anything else or a missing value becomes None |
| Cookies.ExpiryOf | backend/fb_scraper.py:220-224 | the expiry comes from `expirationDate` when present, else from `expires`, and is absent when neither is given |
| Cookies.FormatCookie | backend/fb_scraper.py:199-226 | a formatted cookie takes `sameSite` and the expiry by the two rules above; every present name, value, domain, path, `secure` and `httpOnly` is kept, and the defaults are `''`, `''`, `.facebook.com`, `/`, true and false |
| Cookies.FormatCookiesForPlaywright | backend/fb_scraper.py:196-228 | one formatted cookie per stored cookie, in the same order, each with a valid `sameSite` |
| Cookies.FormatKeepsCompleteCookie | backend/fb_scraper.py:199-226 | a complete, well-formed cookie is formatted to itself |
| Cookies.FormatIdempotent | backend/fb_scraper.py:196-228 | formatting a formatted cookie changes nothing |
| Collector.AbsorbBatchEffect | backend/fb_scraper.py:536-561 | a batch adds exactly the links of its validly named items (each once), keeps earlier matches in order, appends only newly scanned accepted members, and keeps every match scanned and every match link distinct |
| Collector.AbsorbBatchScanned | backend/fb_scraper.py:541-549 | a batch adds exactly the links of its validly named items to the scanned set |
| Collector.AbsorbBatchMatches | backend/fb_scraper.py:536-561 | the matches a batch appends are, in batch order, exactly its items that are the first valid occurrence of a link not scanned before and that the filter accepts |
| Collector.AbsorbBatchGrowth | backend/fb_scraper.py:541-549 | the scanned set grows by the number of distinct new valid links in the batch |
| Collector.SameSizeSuperset | backend/fb_scraper.py:563-566 | no growth in the count of scanned links means no new link |
| Collector.ScanBatch | backend/fb_scraper.py:535-561 | the inner loop computes the batch's effect, and `new_found` equals the growth of the scanned set |
| Collector.StopAt | backend/fb_scraper.py:498 | the loop runs until the first iteration count at which 50000 scrolls are done or 20 scrolls in a row found nothing |
| Collector.StopAtFirst | backend/fb_scraper.py:498 | the loop stops at the first count at which its condition fails |
| Collector.SegmentLabel | backend/fb_scraper.py:576 | the progress label is the segment digit below 10 and `100+` at 10 |
| Collector.Report | backend/fb_scraper.py:569-579 | the reported segment lies in 0..10 |
| Collector.ReportsDescribeStates | backend/fb_scraper.py:569-579 | the `i`-th progress report describes the state after the `i`-th scroll |
| Collector.CollectLinks | backend/fb_scraper.py:474-590 | the loop runs exactly the stopping number of scrolls (at most 50000), returns the state after them, reports once per scroll with segment in 0..10, and returns consistent data |
| Collector.StepFacts | backend/fb_scraper.py:563-566 | one scroll absorbs its batch; the stall counter resets on growth and increments otherwise |
| Collector.StallCounterStep | backend/fb_scraper.py:563-566 | the scanned set never shrinks; the stall counter increments exactly when a scroll added no link and resets to 0 otherwise |
| Collector.AfterConsistent | backend/fb_scraper.py:548-561 | after every scroll each match is scanned and no link is matched twice |
| Collector.MatchesGrow | backend/fb_scraper.py:557-561 | matches keep discovery order and the scanned set only grows |
| Collector.StallMeansNothingNew | backend/fb_scraper.py:563-566 | a stall count of `n` means the last `n` scrolls added no link |
| Collector.StoppedByStall | backend/fb_scraper.py:498 | wherever the loop condition fails before 50000 scrolls (in particular where the collector stops), at least 20 scrolls were made and the last 20 added nothing |
| Profile.CleanNameShape | backend/fb_scraper.py:605 | the name is a piece of the candidate's first line preceded only by whitespace, as long as the stripped line or 100 characters, whichever is shorter, with no newline and no leading whitespace |
| Profile.CleanNameKeepsPlainName | backend/fb_scraper.py:605 | a single clean line of at most 100 characters is kept as the name |
| Profile.DigitRun | backend/fb_scraper.py:624 | the maximal run of digits at the start of a text |
| Profile.FindUserId | backend/fb_scraper.py:624 | finds the leftmost `/user/` followed by a digit, or reports there is none |
| Profile.ProfileUrlSpec | backend/fb_scraper.py:619-627 | a link with `/user/` and a digit becomes the profile link with the maximal digit run after the leftmost such `/user/`; any other link is unchanged |
| Profile.NoUserIdInProfileUrl | backend/fb_scraper.py:627 | a canonical profile link contains no `/user/` followed by a digit |
| Profile.ProfileUrlIdempotent | backend/fb_scraper.py:619-627 | canonicalising twice is canonicalising once |
| Profile.FirstMatchWins | backend/fb_scraper.py:643-648 | the phone is what the earliest matching pattern found, or empty when none matches |
| Profile.SelectWebsiteFirst | backend/fb_scraper.py:665-669 | the website is the first link naming no social network, cut before its first `?` |
| Profile.SelectWebsiteAllSocial | backend/fb_scraper.py:665-669 | when every link names a social network there is no website |
| Profile.SelectWebsiteNoQuery | backend/fb_scraper.py:669 | the website never carries a query string |
| Profile.CombineAbout | backend/fb_scraper.py:721-729 | the about text is the followers and the bio joined by ` \| ` when both are present, the one present part otherwise, and empty when both are |
| Profile.AssembleRecordShape | backend/fb_scraper.py:613-746 | the record carries the cleaned name and canonical link, `has_website` is Yes exactly when there is a website, `work` is empty, the website has no query string, and what a failed visit did not reach stays empty |
| Profile.ScrapeProfile | backend/fb_scraper.py:613-746 | the per-candidate loops (first matching phone pattern, first non-social link) and the about text compute exactly the record `AssembleRecord` describes |
| Profile.DeepScrape | backend/fb_scraper.py:593-751 | exactly one record per candidate, in candidate order, whatever its visit produced |
| Export.SortPermutes | backend/fb_scraper.py:765 | the ranking is a permutation of the input |
| Export.SortOrdered | backend/fb_scraper.py:760-765 | the ranking has non-increasing `(phone + no website, phone)` scores |
| Export.InsertStable | backend/fb_scraper.py:765 | inserting a record places it first among the records with its score |
| Export.SortStable | backend/fb_scraper.py:765 | records with equal scores keep their input order |
| Export.QualityLabels | backend/fb_scraper.py:768-778 | HOT is phone without website, WARM phone with website, COLD neither, LOW website without phone |
| Export.QualityFollowsScore | backend/fb_scraper.py:760-778 | a better label means a strictly higher score, and equal labels equal scores |
| Export.Row | backend/fb_scraper.py:780-785 | a row has one value per column, each the field named by that column's header |
| Export.SaveToCsv | backend/fb_scraper.py:754-785 | no output for no leads; otherwise the header and one labelled row per lead in ranked order, with every HOT before every WARM before every COLD before every LOW |
| Scraper.MembersUrl | backend/fb_scraper.py:347 | the members page link ends in `/members` |
| Scraper.MembersUrlIgnoresTrailingSlash | backend/fb_scraper.py:347 | a trailing slash on the group link makes no difference |
| Scraper.MembersUrlKeepsLink | backend/fb_scraper.py:347 | a link without a trailing slash is kept whole |
| Scraper.GroupNameShape | backend/fb_scraper.py:365-371 | the group name is the title's text before its first `\|` with only whitespace cut off at either end, or `unknown_group` when the title is missing, empty or unreadable; it contains no `\|` |
| Scraper.GroupNameIdempotent | backend/fb_scraper.py:365-371 | a non-empty group name read as a title gives the same name |
| Scraper.OneResultPerGroup | backend/fb_scraper.py:421-444 | when no login wall is met, the results hold one entry per group link, in link order |
| Scraper.TotalScannedSplits | backend/fb_scraper.py:389 | the scanned total is additive over the group links |
| Scraper.GroupCountedInTotal | backend/fb_scraper.py:389 | each group's scanned count is part of the total |
| Scraper.ProcessUrlCounts | backend/fb_scraper.py:343-444 | only a login wall ends the job; a finished group reports the members it scanned and the leads it added, and names a file exactly when it had leads; a failed navigation records its error and adds nothing |
| Scraper.ScrapeGroup | backend/fb_scraper.py:343-444 | one group link is processed as the per-group specification says |
| Scraper.ScrapeFacebookGroup | backend/fb_scraper.py:263-471 | no cookies fail the job; a login wall on any group fails it; otherwise the job returns one result per link and the sums of matches and scanned members |

## Left out

- Text.Lower: lower-cases only the ASCII capitals, KELVIN SIGN and LATIN CAPITAL LETTER I WITH DOT ABOVE; every other character is kept. This is exact wherever the result is used (an ASCII filter, an ASCII word list, ASCII domain names) but is not Python's full `str.lower`.
- Profile.DigitRun: `\d` is taken as the ASCII digits; Python also matches other Unicode decimal digits after `/user/`.
- Profile.FirstMatchWins: the three phone regular expressions are not modelled; they are an ordered list of matchers, first match wins, and the matched text is stored raw.
- `is_qualified_prospect` and `detect_industry` live in `industry_config`, which is not part of this model; the filter is the parameter `qualifies`.
- Cookies.FormatCookie: stored cookies are records of optional, well-typed fields; JSON `null`, values of the wrong type and the `int()` conversion of fractional expiry times are not modelled.
- Cookie file reading and writing (`load_cookies`, `save_cookies`, `delete_cookies`, `cookies_exist`) is file I/O and is not modelled.
- The browser session is not modelled: launch and its fallback, `find_chromium_executable`, `check_browser_availability`, `is_login_page`, screenshots, the JavaScript run in the page and the click on "New to the group". Their results are the parameters `harvest`, `visit` and `browse`.
- The outer `except` around the whole browser session ("Browser error") is not modelled: it catches what the browser launch, `add_cookies`, `new_page`, `browser.close` and the per-link status callback before each link's `try` (line 337) raise; the model takes these calls as never failing, so it never produces that job-level error.
- Scraper.ScrapeGroup: an exception during stage 1 is modelled as stage 1 failing as a whole (`collectError`); nothing of a failed stage 1 reaches the results or the totals, so no partial state is lost.
- Export.SaveToCsv: writes the labels into copies of the records; the Python code writes `prospect_quality` into the caller's dictionaries, which the job only counts afterwards. The CSV file itself, the log of HOT/WARM/phone counts and `os.makedirs` are I/O and not modelled; the result is the header and the rows.
- Scraper.FileName: the random hex suffix and the timestamp are the parameter `stamps(i)` for the `i`-th group link.
- Status callbacks are not modelled, except the stage 1 progress reports (members scanned, matches found, segment and its label).
- Delays, timeouts and the unused tuning constants are not modelled.
