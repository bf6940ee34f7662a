/** `slugify` (backend/fb_scraper.py): the chain of regular-expression
    substitutions that turns a group name into the URL-safe fragment used in
    export file names. Each substitution is one function below; what each one
    guarantees is stated in a lemma beside it. */
module Slug {
  import opened Text

  const MaxSlugLength := 50
  const Fallback := "unknown"

  predicate IsSlugChar(c: char) { 'a' <= c <= 'z' || IsDigit(c) || c == '-' }

  /** The character class `[a-z0-9\s-]`. */
  predicate IsKept(c: char) { 'a' <= c <= 'z' || IsDigit(c) || IsSpace(c) || c == '-' }

  /** The character class `[\s_-]`. */
  predicate IsSeparator(c: char) { IsSpace(c) || c == '_' || c == '-' }

  predicate AllSlugChars(s: string) {
    forall i :: 0 <= i < |s| ==> IsSlugChar(s[i])
  }

  predicate AllKept(s: string) {
    forall i :: 0 <= i < |s| ==> IsKept(s[i])
  }

  predicate NoDoubleHyphen(s: string) {
    forall i :: 0 <= i < |s| - 1 ==> !(s[i] == '-' && s[i + 1] == '-')
  }

  /** What every slug looks like: slug characters only, no `--`, no leading `-`. */
  predicate SlugShaped(s: string) {
    && AllSlugChars(s)
    && NoDoubleHyphen(s)
    && (s != [] ==> s[0] != '-')
  }

  /** `re.sub(r'[^a-z0-9\s-]', '', text)` */
  function DropDisallowed(s: string): string
  {
    if s == [] then []
    else (if IsKept(s[0]) then [s[0]] else []) + DropDisallowed(s[1..])
  }

  /** The filter keeps exactly the characters of `[a-z0-9\s-]`: each of
      them as often as it occurs, none of the others, all in their original
      order. */
  lemma DropDisallowedShape(s: string)
    ensures var r := DropDisallowed(s);
            && AllKept(r)
            && (forall c :: IsKept(c) ==> multiset(r)[c] == multiset(s)[c])
            && Subsequence(r, s)
    ensures AllKept(s) ==> DropDisallowed(s) == s
  {
    DropDisallowedKept(s);
    DropDisallowedCounts(s);
    DropDisallowedOrder(s);
  }

  lemma {:induction false} DropDisallowedKept(s: string)
    ensures AllKept(DropDisallowed(s))
    ensures AllKept(s) ==> DropDisallowed(s) == s
  {
    if s != [] {
      DropDisallowedKept(s[1..]);
      assert AllKept(s) ==> AllKept(s[1..]) by {
        assert forall i :: 0 <= i < |s| - 1 ==> s[1..][i] == s[i + 1];
      }
    }
  }

  lemma {:induction false} DropDisallowedCounts(s: string)
    ensures forall c :: IsKept(c) ==> multiset(DropDisallowed(s))[c] == multiset(s)[c]
  {
    if s != [] {
      DropDisallowedCounts(s[1..]);
      assert s == [s[0]] + s[1..];
    }
  }

  lemma {:induction false} DropDisallowedOrder(s: string)
    ensures Subsequence(DropDisallowed(s), s)
  {
    if s != [] {
      DropDisallowedOrder(s[1..]);
      var rest := DropDisallowed(s[1..]);
      var r := DropDisallowed(s);
      if IsKept(s[0]) {
        assert r == [s[0]] + rest;
        assert r[0] == s[0] && r[1..] == rest;
      } else if rest != [] {
        DropDisallowedKept(s[1..]);
        assert r == rest && IsKept(rest[0]);
        assert r[0] != s[0];
      }
    }
  }

  /** `re.sub(r'[\s_-]+', '-', text)`: every maximal run of separators
      becomes one `-` (written here at the last separator of the run). */
  function CollapseSeparators(s: string): string
  {
    if s == [] then []
    else if IsSeparator(s[0]) then
      (if |s| > 1 && IsSeparator(s[1]) then [] else ['-']) + CollapseSeparators(s[1..])
    else [s[0]] + CollapseSeparators(s[1..])
  }

  /** The characters of a text that are not separators, in order. */
  function NonSeparators(s: string): string
  {
    if s == [] then [] else (if IsSeparator(s[0]) then [] else [s[0]]) + NonSeparators(s[1..])
  }

  /** After collapsing there is no `--`; only slug characters remain when the
      input held nothing outside `[a-z0-9\s-]`; and every character that is
      not a separator survives, in order, with nothing else but `-` around. */
  lemma {:induction false} CollapseShape(s: string)
    ensures var r := CollapseSeparators(s);
            && NoDoubleHyphen(r)
            && (r == [] <==> s == [])
            && (s != [] ==> (r[0] == '-' <==> IsSeparator(s[0])))
            && (AllKept(s) ==> AllSlugChars(r))
            && NonSeparators(r) == NonSeparators(s)
            && (forall i :: 0 <= i < |r| && IsSeparator(r[i]) ==> r[i] == '-')
  {
    if s != [] {
      CollapseShape(s[1..]);
      if AllKept(s) {
        assert forall i :: 0 <= i < |s| - 1 ==> s[1..][i] == s[i + 1];
      }
      var rest := CollapseSeparators(s[1..]);
      var head := if IsSeparator(s[0]) then (if |s| > 1 && IsSeparator(s[1]) then [] else ['-']) else [s[0]];
      assert CollapseSeparators(s) == head + rest;
      NonSeparatorsAppend(head, rest);
    }
  }

  lemma {:induction false} NonSeparatorsAppend(a: string, b: string)
    ensures NonSeparators(a + b) == NonSeparators(a) + NonSeparators(b)
  {
    if a != [] {
      NonSeparatorsAppend(a[1..], b);
      assert (a + b)[1..] == a[1..] + b;
    } else {
      assert a + b == b;
    }
  }

  /** A run of separators collapses to a single `-`. */
  lemma {:induction false} CollapseRun(t: string)
    requires t != [] && forall i :: 0 <= i < |t| ==> IsSeparator(t[i])
    ensures CollapseSeparators(t) == "-"
  {
    if |t| > 1 {
      CollapseRun(t[1..]);
    }
  }

  /** Collapsing works piece by piece when the cut does not split a run of
      separators. With `CollapseRun` and `CollapseNoSeparators` this fixes
      the result on every text: each maximal run of separators becomes one
      `-` and everything else is kept. */
  lemma {:induction false} CollapseConcat(a: string, b: string)
    requires a == [] || b == [] || !IsSeparator(a[|a| - 1]) || !IsSeparator(b[0])
    ensures CollapseSeparators(a + b) == CollapseSeparators(a) + CollapseSeparators(b)
  {
    if a == [] {
      assert a + b == b;
    } else {
      assert (a + b)[0] == a[0] && (a + b)[1..] == a[1..] + b;
      if |a| == 1 {
        assert a[1..] == [] && a[1..] + b == b;
      } else {
        assert (a + b)[1] == a[1];
        CollapseConcat(a[1..], b);
      }
    }
  }

  /** Text without separators collapses to itself. */
  lemma {:induction false} CollapseNoSeparators(s: string)
    requires forall i :: 0 <= i < |s| ==> !IsSeparator(s[i])
    ensures CollapseSeparators(s) == s
  {
    if s != [] {
      CollapseNoSeparators(s[1..]);
    }
  }

  /** A slug-shaped text collapses to itself: its only separators are single hyphens. */
  lemma {:induction false} CollapseSlug(s: string)
    requires AllSlugChars(s) && NoDoubleHyphen(s)
    ensures CollapseSeparators(s) == s
  {
    if s != [] {
      SliceShape(s, 1, |s|);
      CollapseSlug(s[1..]);
      PlainIsNotSpace(s[0]);
      if |s| > 1 {
        PlainIsNotSpace(s[1]);
        assert !(IsSeparator(s[0]) && IsSeparator(s[1]));
      }
      assert CollapseSeparators(s) == [s[0]] + CollapseSeparators(s[1..]);
      assert [s[0]] + s[1..] == s;
    }
  }

  /** The `^-+` alternative of `re.sub(r'^-+|-+$', '', text)`. */
  function DropLeadingHyphens(s: string): string
  {
    if s != [] && s[0] == '-' then DropLeadingHyphens(s[1..]) else s
  }

  lemma {:induction false} LeadingShape(s: string)
    ensures var r := DropLeadingHyphens(s);
            && |r| <= |s| && r == s[|s| - |r|..]
            && (forall i :: 0 <= i < |s| - |r| ==> s[i] == '-')
            && (r == [] || r[0] != '-')
  {
    if s != [] && s[0] == '-' {
      LeadingShape(s[1..]);
      var r := DropLeadingHyphens(s[1..]);
      assert DropLeadingHyphens(s) == r;
      assert s[1..][|s| - 1 - |r|..] == s[|s| - |r|..];
      forall i | 0 <= i < |s| - |r|
        ensures s[i] == '-'
      {
        if i > 0 {
          assert s[i] == s[1..][i - 1];
        }
      }
    }
  }

  /** The `-+$` alternative of `re.sub(r'^-+|-+$', '', text)`. No newline is
      left by this point, so `$` can only match at the very end. */
  function DropTrailingHyphens(s: string): string
  {
    TrimRight(s, '-')
  }

  /** The text after every substitution, before the length cut and the fallback. */
  function Clean(s: string): string
  {
    DropTrailingHyphens(DropLeadingHyphens(CollapseSeparators(DropDisallowed(Strip(Lower(s))))))
  }

  /** The cleaned text uses only slug characters, has no `--` and no hyphen
      at either end. */
  lemma CleanShape(s: string)
    ensures var r := Clean(s);
            SlugShaped(r) && (r == [] || r[|r| - 1] != '-')
  {
    DropDisallowedKept(Strip(Lower(s)));
    TrimmedShape(DropDisallowed(Strip(Lower(s))));
  }

  /** Collapsing and trimming text of kept characters gives a slug-shaped
      text with no hyphen at either end. */
  lemma TrimmedShape(kept: string)
    requires AllKept(kept)
    ensures var r := DropTrailingHyphens(DropLeadingHyphens(CollapseSeparators(kept)));
            SlugShaped(r) && (r == [] || r[|r| - 1] != '-')
  {
    var collapsed := CollapseSeparators(kept);
    CollapseShape(kept);
    LeadTrimmedShape(collapsed);
    TrailTrimmedShape(DropLeadingHyphens(collapsed));
  }

  lemma LeadTrimmedShape(s: string)
    requires AllSlugChars(s) && NoDoubleHyphen(s)
    ensures SlugShaped(DropLeadingHyphens(s))
  {
    var lead := DropLeadingHyphens(s);
    LeadingShape(s);
    SliceShape(s, |s| - |lead|, |s|);
  }

  lemma TrailTrimmedShape(s: string)
    requires SlugShaped(s)
    ensures var r := DropTrailingHyphens(s);
            SlugShaped(r) && (r == [] || r[|r| - 1] != '-')
  {
    var r := DropTrailingHyphens(s);
    TrimRightShape(s, '-');
    SliceShape(s, 0, |r|);
    if r != [] {
      assert r[0] == s[0];
    }
  }

  /** Text of lower-case letters, digits, hyphens and spaces that neither starts nor
      ends with a space passes lower-casing, stripping and filtering unchanged. */
  lemma SlugPassesFilters(s: string)
    requires forall i :: 0 <= i < |s| ==> 'a' <= s[i] <= 'z' || IsDigit(s[i]) || s[i] == '-' || s[i] == ' '
    requires s != [] && s[0] != ' ' && s[|s| - 1] != ' '
    ensures DropDisallowed(Strip(Lower(s))) == s
  {
    LowerIdentity(s);
    PlainIsNotSpace(s[0]);
    PlainIsNotSpace(s[|s| - 1]);
    StripUnchanged(s);
    assert Strip(Lower(s)) == s;
    assert AllKept(s) by {
      forall i | 0 <= i < |s|
        ensures IsKept(s[i])
      {
      }
    }
    DropDisallowedKept(s);
  }

  lemma PlainIsNotSpace(c: char)
    requires 'a' <= c <= 'z' || IsDigit(c) || c == '-'
    ensures !IsSpace(c)
  {
  }

  lemma LettersAreNotSeparators(w: string)
    requires forall i :: 0 <= i < |w| ==> 'a' <= w[i] <= 'z'
    ensures forall i :: 0 <= i < |w| ==> !IsSeparator(w[i])
  {
    forall i | 0 <= i < |w|
      ensures !IsSeparator(w[i])
    {
      PlainIsNotSpace(w[i]);
    }
  }

  lemma SliceShape(s: string, i: nat, j: nat)
    requires i <= j <= |s|
    requires AllSlugChars(s) && NoDoubleHyphen(s)
    ensures AllSlugChars(s[i..j]) && NoDoubleHyphen(s[i..j])
  {
    var t := s[i..j];
    assert forall k :: 0 <= k < |t| ==> t[k] == s[i + k];
  }

  /** `slugify(text)`: never empty, at most 50 characters of `[a-z0-9-]`,
      no `--`, no leading `-`, and no trailing `-` unless the cut made one. */
  function Slugify(s: string): (r: string)
    ensures 1 <= |r| <= MaxSlugLength
    ensures SlugShaped(r)
    ensures |Clean(s)| <= MaxSlugLength ==> r[|r| - 1] != '-'
  {
    var t := Clean(s);
    CleanShape(s);
    if t == [] then
      FallbackShaped();
      Fallback
    else
      var n := Min(|t|, MaxSlugLength);
      SliceShape(t, 0, n);
      assert t[..n][0] == t[0];
      t[..n]
  }

  lemma FallbackShaped()
    ensures SlugShaped(Fallback)
  {
    assert forall i :: 0 <= i < |Fallback| ==> 'a' <= Fallback[i] <= 'z';
  }

  /** The fallback appears exactly when nothing survives cleaning or the
      cleaned text is itself `unknown`. */
  lemma SlugifyUnknown(s: string)
    ensures Slugify(s) == Fallback <==> Clean(s) == [] || Clean(s) == Fallback
  {
    var t := Clean(s);
    if t != [] {
      var n := Min(|t|, MaxSlugLength);
      assert Slugify(s) == t[..n];
      if Slugify(s) == Fallback {
        assert n == 7 && |t| == 7;
        assert t == t[..n];
      }
      if t == Fallback {
        assert n == 7;
        assert t[..n] == t;
      }
    }
  }

  /** A slug survives every substitution, except that a trailing hyphen is trimmed. */
  lemma CleanOfSlug(r: string)
    requires SlugShaped(r) && r != []
    ensures Clean(r) == if r[|r| - 1] == '-' then r[..|r| - 1] else r
  {
    SlugPassesFilters(r);
    CollapseSlug(r);
    assert DropLeadingHyphens(r) == r;
    TrimRightShape(r, '-');
    if r[|r| - 1] == '-' {
      assert |r| > 1;
      assert r[|r| - 2] != '-';
    }
  }

  /** Slugifying a slug changes nothing, except that a hyphen the cut left at
      the end is now trimmed. */
  lemma SlugifyTwice(s: string)
    ensures var r := Slugify(s);
            Slugify(r) == if r[|r| - 1] == '-' then r[..|r| - 1] else r
  {
    var r := Slugify(s);
    CleanOfSlug(r);
    if r[|r| - 1] == '-' {
      assert |r| > 1;
      assert r[..|r| - 1][0] == r[0];
    }
  }

  /** The 50-character cut can leave a trailing hyphen: 49 letters, a space and
      one more letter clean to 51 characters whose 50th is the hyphen. */
  lemma SlugifyCanEndInHyphen(w: string)
    requires |w| == 49 && forall i :: 0 <= i < |w| ==> 'a' <= w[i] <= 'z'
    ensures var r := Slugify(w + " b"); |r| == MaxSlugLength && r[MaxSlugLength - 1] == '-'
  {
    var s := w + " b";
    var c := w + "-b";
    CleanTwoWords(w, "b");
    assert w + " " + "b" == s && w + "-" + "b" == c;
    assert Slugify(s) == c[..50];
  }

  lemma CleanTwoWords(w: string, x: string)
    requires w != [] && forall i :: 0 <= i < |w| ==> 'a' <= w[i] <= 'z'
    requires x != [] && forall i :: 0 <= i < |x| ==> 'a' <= x[i] <= 'z'
    ensures Clean(w + " " + x) == w + "-" + x
  {
    var s := w + " " + x;
    var c := w + "-" + x;
    assert DropDisallowed(Strip(Lower(s))) == s by {
      TwoWordsArePlain(w, x);
      SlugPassesFilters(s);
    }
    assert CollapseSeparators(s) == c by {
      LettersAreNotSeparators(w);
      LettersAreNotSeparators(x);
      CollapseWord(w, x);
    }
    assert c[0] == w[0] && c[|c| - 1] == x[|x| - 1];
    CleanWhenCollapsed(s, s, c);
  }

  /** Text whose collapsed form has no hyphen at either end cleans to that form. */
  lemma CleanWhenCollapsed(s: string, kept: string, c: string)
    requires DropDisallowed(Strip(Lower(s))) == kept && CollapseSeparators(kept) == c
    requires c != [] && c[0] != '-' && c[|c| - 1] != '-'
    ensures Clean(s) == c
  {
    assert DropLeadingHyphens(c) == c;
    TrimRightShape(c, '-');
  }

  lemma TwoWordsArePlain(w: string, x: string)
    requires w != [] && forall i :: 0 <= i < |w| ==> 'a' <= w[i] <= 'z'
    requires x != [] && forall i :: 0 <= i < |x| ==> 'a' <= x[i] <= 'z'
    ensures var s := w + " " + x;
            && (forall i :: 0 <= i < |s| ==> 'a' <= s[i] <= 'z' || s[i] == ' ')
            && 'a' <= s[0] <= 'z' && 'a' <= s[|s| - 1] <= 'z'
  {
    var s := w + " " + x;
    forall i | 0 <= i < |s| ensures 'a' <= s[i] <= 'z' || s[i] == ' ' {
      if i < |w| { assert s[i] == w[i]; }
      else if i > |w| { assert s[i] == x[i - |w| - 1]; }
    }
    assert s[0] == w[0] && s[|s| - 1] == x[|x| - 1];
  }

  /** A word, one space and another word collapse to the words joined by `-`. */
  lemma {:induction false} CollapseWord(w: string, rest: string)
    requires forall i :: 0 <= i < |w| ==> !IsSeparator(w[i])
    requires rest != [] && forall i :: 0 <= i < |rest| ==> !IsSeparator(rest[i])
    ensures CollapseSeparators(w + " " + rest) == w + "-" + rest
  {
    if w == [] {
      assert (" " + rest)[1..] == rest;
      CollapseNoSeparators(rest);
    } else {
      assert (w + " " + rest)[1..] == w[1..] + " " + rest;
      CollapseWord(w[1..], rest);
    }
  }
}
