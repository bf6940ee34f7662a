/** `format_cookies_for_playwright` (backend/fb_scraper.py): the stored
    cookie records are normalised field by field before the browser context
    receives them. */
module Cookies {
  import opened Text

  /** A cookie as stored in the cookie file: any field may be missing. */
  datatype StoredCookie = StoredCookie(
    name: Option<string>,
    value: Option<string>,
    domain: Option<string>,
    path: Option<string>,
    sameSite: Option<string>,
    secure: Option<bool>,
    httpOnly: Option<bool>,
    expirationDate: Option<int>,
    expires: Option<int>)

  /** A cookie in the form the browser context accepts. */
  datatype BrowserCookie = BrowserCookie(
    name: string,
    value: string,
    domain: string,
    path: string,
    sameSite: string,
    secure: bool,
    httpOnly: bool,
    expires: Option<int>)

  const DefaultDomain := ".facebook.com"
  const DefaultPath := "/"

  predicate IsSameSite(s: string) { s == "Strict" || s == "Lax" || s == "None" }

  /** `sameSite` is kept when it is one of the three values the browser accepts
      and is `None` otherwise, also when it is missing. */
  function SameSiteOf(c: StoredCookie): (r: string)
    ensures IsSameSite(r)
    ensures c.sameSite.Some? && IsSameSite(c.sameSite.value) ==> r == c.sameSite.value
    ensures !(c.sameSite.Some? && IsSameSite(c.sameSite.value)) ==> r == "None"
  {
    var s := GetOr(c.sameSite, "None");
    if IsSameSite(s) then s else "None"
  }

  /** `expirationDate` wins over `expires`; with neither there is no expiry. */
  function ExpiryOf(c: StoredCookie): (r: Option<int>)
    ensures c.expirationDate.Some? ==> r == c.expirationDate
    ensures c.expirationDate.None? ==> r == c.expires
    ensures r.None? <==> c.expirationDate.None? && c.expires.None?
  {
    if c.expirationDate.Some? then Some(c.expirationDate.value)
    else if c.expires.Some? then Some(c.expires.value)
    else None
  }

  /** One iteration of the loop in `format_cookies_for_playwright`. */
  function FormatCookie(c: StoredCookie): (r: BrowserCookie)
    ensures r.sameSite == SameSiteOf(c) && IsSameSite(r.sameSite)
    ensures r.expires == ExpiryOf(c)
    ensures r.expires.None? <==> c.expirationDate.None? && c.expires.None?
    ensures c.name.Some? ==> r.name == c.name.value
    ensures c.name.None? ==> r.name == ""
    ensures c.value.Some? ==> r.value == c.value.value
    ensures c.value.None? ==> r.value == ""
    ensures c.domain.Some? ==> r.domain == c.domain.value
    ensures c.domain.None? ==> r.domain == DefaultDomain
    ensures c.path.Some? ==> r.path == c.path.value
    ensures c.path.None? ==> r.path == DefaultPath
    ensures c.secure.Some? ==> r.secure == c.secure.value
    ensures c.secure.None? ==> r.secure
    ensures c.httpOnly.Some? ==> r.httpOnly == c.httpOnly.value
    ensures c.httpOnly.None? ==> !r.httpOnly
  {
    BrowserCookie(
      GetOr(c.name, ""),
      GetOr(c.value, ""),
      GetOr(c.domain, DefaultDomain),
      GetOr(c.path, DefaultPath),
      SameSiteOf(c),
      GetOr(c.secure, true),
      GetOr(c.httpOnly, false),
      ExpiryOf(c))
  }

  /** The cookie list handed to the browser: one formatted cookie per stored
      cookie, in the same order. */
  method FormatCookiesForPlaywright(cookies: seq<StoredCookie>) returns (formatted: seq<BrowserCookie>)
    ensures |formatted| == |cookies|
    ensures forall i :: 0 <= i < |cookies| ==> formatted[i] == FormatCookie(cookies[i])
    ensures forall i :: 0 <= i < |formatted| ==> IsSameSite(formatted[i].sameSite)
  {
    formatted := [];
    for i := 0 to |cookies|
      invariant |formatted| == i
      invariant forall j :: 0 <= j < i ==> formatted[j] == FormatCookie(cookies[j])
    {
      var cookie := cookies[i];
      var c := BrowserCookie(
        GetOr(cookie.name, ""),
        GetOr(cookie.value, ""),
        GetOr(cookie.domain, DefaultDomain),
        GetOr(cookie.path, DefaultPath),
        "", false, false, None);
      var sameSite := GetOr(cookie.sameSite, "None");
      if sameSite == "Strict" || sameSite == "Lax" || sameSite == "None" {
        c := c.(sameSite := sameSite);
      } else {
        c := c.(sameSite := "None");
      }
      c := c.(secure := GetOr(cookie.secure, true));
      c := c.(httpOnly := GetOr(cookie.httpOnly, false));
      if cookie.expirationDate.Some? {
        c := c.(expires := Some(cookie.expirationDate.value));
      } else if cookie.expires.Some? {
        c := c.(expires := Some(cookie.expires.value));
      }
      formatted := formatted + [c];
    }
  }

  /** A browser cookie written back as a stored record with every field present
      and the expiry under `expires`. */
  function Stored(b: BrowserCookie): StoredCookie {
    StoredCookie(Some(b.name), Some(b.value), Some(b.domain), Some(b.path),
                 Some(b.sameSite), Some(b.secure), Some(b.httpOnly), None, b.expires)
  }

  /** Formatting keeps every field of a complete, well-formed record. */
  lemma FormatKeepsCompleteCookie(b: BrowserCookie)
    requires IsSameSite(b.sameSite)
    ensures FormatCookie(Stored(b)) == b
  {
  }

  /** Formatting is idempotent: a formatted cookie formats to itself. */
  lemma FormatIdempotent(c: StoredCookie)
    ensures FormatCookie(Stored(FormatCookie(c))) == FormatCookie(c)
  {
    FormatKeepsCompleteCookie(FormatCookie(c));
  }
}
