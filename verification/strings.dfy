/** The handful of Python 3 `str` operations the pipeline relies on, on
    strings of Unicode scalar values: the whitespace class shared by the
    regular-expression escape `\s` and `str.strip`, decimal digits,
    `str.strip()`, `str.replace(old, "")`, `str.split(sep)[0]` and the
    position of the first occurrence of a character. */
module Strings {

  /** Python's `str.isspace`: the characters `\s` matches in a `str` pattern
      and the characters `str.strip()` removes. */
  predicate IsSpace(c: char) {
    || ('\t' <= c <= '\r')              // tab, line feed, vertical tab, form feed, carriage return
    || ('\U{1C}' <= c <= '\U{1F}')      // file, group, record and unit separators
    || c == ' '
    || c == '\U{85}'                    // next line
    || c == '\U{A0}'                    // no-break space
    || c == '\U{1680}'                  // ogham space mark
    || ('\U{2000}' <= c <= '\U{200A}')  // en quad .. hair space
    || c == '\U{2028}' || c == '\U{2029}'
    || c == '\U{202F}' || c == '\U{205F}' || c == '\U{3000}'
  }

  /** The same class as the explicit list of the 29 code points for which
      Python 3's `str.isspace` holds; the zero-width space U+200B and the
      zero-width no-break space U+FEFF are not among them. */
  lemma IsSpaceExactly(c: char)
    ensures IsSpace(c) <==> c in {
      '\t', '\n', '\U{0B}', '\U{0C}', '\r', '\U{1C}', '\U{1D}', '\U{1E}', '\U{1F}', ' ',
      '\U{85}', '\U{A0}', '\U{1680}',
      '\U{2000}', '\U{2001}', '\U{2002}', '\U{2003}', '\U{2004}', '\U{2005}',
      '\U{2006}', '\U{2007}', '\U{2008}', '\U{2009}', '\U{200A}',
      '\U{2028}', '\U{2029}', '\U{202F}', '\U{205F}', '\U{3000}'}
    ensures !IsSpace('\U{200B}') && !IsSpace('\U{FEFF}')
  {
  }

  predicate AllSpace(s: string) {
    forall i :: 0 <= i < |s| ==> IsSpace(s[i])
  }

  /** No whitespace at either end: what `str.strip()` leaves behind. */
  predicate Trimmed(s: string) {
    s == [] || (!IsSpace(s[0]) && !IsSpace(s[|s| - 1]))
  }

  /** An ASCII decimal digit. */
  predicate IsDigit(c: char) {
    '0' <= c <= '9'
  }

  function Min(a: int, b: int): int {
    if a <= b then a else b
  }

  /** `str.lstrip()`: the suffix left after dropping the leading whitespace. */
  function TrimStart(s: string): (r: string)
    ensures |r| <= |s| && r == s[|s| - |r|..]
    ensures AllSpace(s[..|s| - |r|])
    ensures r == [] || !IsSpace(r[0])
  {
    if |s| > 0 && IsSpace(s[0]) then
      var r := TrimStart(s[1..]);
      assert AllSpace(s[..|s| - |r|]) by {
        assert forall i :: 1 <= i < |s| - |r| ==> s[i] == s[1..][..|s| - 1 - |r|][i - 1];
      }
      r
    else s
  }

  /** `str.rstrip()`: the prefix left after dropping the trailing whitespace. */
  function TrimEnd(s: string): (r: string)
    ensures |r| <= |s| && r == s[..|r|]
    ensures AllSpace(s[|r|..])
    ensures r == [] || !IsSpace(r[|r| - 1])
  {
    if |s| > 0 && IsSpace(s[|s| - 1]) then
      var r := TrimEnd(s[..|s| - 1]);
      assert s[..|r|] == s[..|s| - 1][..|r|];
      assert s[|r|..] == s[..|s| - 1][|r|..] + [s[|s| - 1]];
      r
    else s
  }

  /** `str.strip()`: `s` with the whitespace at both ends removed. */
  function Strip(s: string): (r: string)
    ensures |r| <= |s| && Trimmed(r)
  {
    var t := TrimStart(s);
    var r := TrimEnd(t);
    assert r != [] ==> r[0] == t[0];
    r
  }

  /** `r` is the piece of `s` at offset `i`, with only whitespace before
      and after it. */
  predicate PaddedAt(s: string, r: string, i: int) {
    0 <= i && i + |r| <= |s| && r == s[i..i + |r|] && AllSpace(s[..i]) && AllSpace(s[i + |r|..])
  }

  /** What `Strip` removes is whitespace only, and what remains is a
      contiguous piece of `s`. */
  lemma StripShape(s: string)
    ensures exists i :: PaddedAt(s, Strip(s), i)
  {
    var t := TrimStart(s);
    var r := TrimEnd(t);
    var i := |s| - |t|;
    assert t == s[i..];
    assert r == t[..|r|];
    assert r == s[i..i + |r|];
    assert AllSpace(s[..i]);
    assert AllSpace(s[i + |r|..]) by {
      assert s[i + |r|..] == t[|r|..];
    }
    assert Strip(s) == r;
    assert PaddedAt(s, r, i);
  }

  lemma {:induction false} TrimStartAfterSpace(a: string, x: string)
    requires AllSpace(a)
    ensures TrimStart(a + x) == TrimStart(x)
    decreases |a|
  {
    if a == [] {
      assert a + x == x;
    } else {
      var s := a + x;
      assert s[0] == a[0] && IsSpace(s[0]);
      assert TrimStart(s) == TrimStart(s[1..]);
      assert s[1..] == a[1..] + x;
      TrimStartAfterSpace(a[1..], x);
    }
  }

  lemma {:induction false} TrimEndBeforeSpace(y: string, b: string)
    requires AllSpace(b)
    ensures TrimEnd(y + b) == TrimEnd(y)
    decreases |b|
  {
    if b == [] {
      assert y + b == y;
    } else {
      var s := y + b;
      var b' := b[..|b| - 1];
      assert s[|s| - 1] == b[|b| - 1] && IsSpace(s[|s| - 1]);
      assert TrimEnd(s) == TrimEnd(s[..|s| - 1]);
      assert s[..|s| - 1] == y + b';
      TrimEndBeforeSpace(y, b');
    }
  }

  /** Whatever whitespace surrounds a trimmed string, `Strip` recovers
      exactly that string: the decomposition promised by `Strip` is unique. */
  lemma StripRecovers(a: string, m: string, b: string)
    requires AllSpace(a) && AllSpace(b) && Trimmed(m)
    ensures Strip(a + m + b) == m
  {
    assert a + m + b == a + (m + b);
    TrimStartAfterSpace(a, m + b);
    if m == [] {
      assert m + b == b + [];
      TrimStartAfterSpace(b, []);
      assert TrimStart(a + m + b) == [];
    } else {
      assert TrimStart(m + b) == m + b;
      TrimEndBeforeSpace(m, b);
      assert TrimEnd(m) == m;
    }
  }

  /** A string with no whitespace at either end is left as it is. */
  lemma StripKeepsTrimmed(r: string)
    requires Trimmed(r)
    ensures Strip(r) == r
  {
    assert TrimStart(r) == r;
    assert TrimEnd(r) == r;
  }

  /** `str.strip()` is idempotent. */
  lemma StripIdempotent(s: string)
    ensures Strip(Strip(s)) == Strip(s)
  {
    StripKeepsTrimmed(Strip(s));
  }

  /** `pat` starts at offset `k` of `s`. */
  predicate OccursAt(s: string, pat: string, k: int) {
    0 <= k && k + |pat| <= |s| && s[k..k + |pat|] == pat
  }

  predicate Occurs(s: string, pat: string) {
    exists k :: 0 <= k <= |s| - |pat| && OccursAt(s, pat, k)
  }

  /** No proper suffix of `pat` is also a prefix of it, so two occurrences
      of `pat` can never overlap. */
  predicate Unbordered(pat: string) {
    forall j :: 0 < j < |pat| ==> pat[j..] != pat[..|pat| - j]
  }

  /** `s.replace(pat, "")` for a non-empty `pat`: scanning from the left,
      every occurrence of `pat` that does not overlap an earlier removed
      one is removed; the result is not scanned again. Something is removed
      exactly when `pat` occurs in `s`. */
  function RemoveAll(s: string, pat: string): (r: string)
    requires |pat| > 0
    ensures |r| <= |s|
    ensures Occurs(s, pat) <==> |r| < |s|
    ensures !Occurs(s, pat) ==> r == s
    decreases |s|
  {
    if |s| < |pat| then s
    else if s[..|pat|] == pat then
      assert OccursAt(s, pat, 0);
      RemoveAll(s[|pat|..], pat)
    else
      ShiftOccurrence(s, pat);
      [s[0]] + RemoveAll(s[1..], pat)
  }

  /** Occurrences in `s` past its first character are the occurrences in `s[1..]`. */
  lemma ShiftOccurrence(s: string, pat: string)
    requires |s| > 0
    ensures forall k :: 0 <= k ==> (OccursAt(s[1..], pat, k) <==> OccursAt(s, pat, k + 1))
    ensures !OccursAt(s, pat, 0) ==> (Occurs(s, pat) <==> Occurs(s[1..], pat))
  {
    forall k | 0 <= k ensures OccursAt(s[1..], pat, k) <==> OccursAt(s, pat, k + 1) {
      if 0 <= k && k + 1 + |pat| <= |s| {
        assert s[1..][k..k + |pat|] == s[k + 1..k + 1 + |pat|];
      }
    }
    if !OccursAt(s, pat, 0) && Occurs(s, pat) {
      var k :| 0 <= k <= |s| - |pat| && OccursAt(s, pat, k);
      assert OccursAt(s[1..], pat, k - 1);
    }
  }

  /** The occurrence of `pat` right after a `pat`-free stretch `d` cannot
      start inside `d` when `pat` is unbordered. */
  lemma NoEarlierStart(d: string, pat: string, rest: string)
    requires |pat| > 0 && Unbordered(pat) && !Occurs(d, pat) && d != []
    ensures !OccursAt(d + pat + rest, pat, 0)
  {
    var s := d + pat + rest;
    if |d| >= |pat| {
      assert s[..|pat|] == d[..|pat|];
      assert !OccursAt(d, pat, 0);
    } else {
      var j := |d|;
      assert s[j..|pat|] == pat[..|pat| - j];
      assert pat[j..] != pat[..|pat| - j];
      assert s[..|pat|][j..] == pat[..|pat| - j];
    }
  }

  lemma RemoveAllAtStart(pat: string, rest: string)
    requires |pat| > 0
    ensures RemoveAll(pat + rest, pat) == RemoveAll(rest, pat)
  {
    var s := pat + rest;
    assert s[..|pat|] == pat;
    assert s[|pat|..] == rest;
  }

  /** Where `pat` does not start, the first character is kept. */
  lemma RemoveAllSkip(s: string, pat: string)
    requires |pat| > 0 && |s| >= |pat| && !OccursAt(s, pat, 0)
    ensures RemoveAll(s, pat) == [s[0]] + RemoveAll(s[1..], pat)
  {
    assert s[..|pat|] != pat;
  }

  /** An occurrence of an unbordered `pat` right after a stretch `d` free of
      it is removed, and `d` is kept as it is. */
  lemma {:induction false} RemoveAllAfter(d: string, pat: string, rest: string)
    requires |pat| > 0 && Unbordered(pat) && !Occurs(d, pat)
    ensures RemoveAll(d + pat + rest, pat) == d + RemoveAll(rest, pat)
    decreases |d|
  {
    var s := d + pat + rest;
    if d == [] {
      assert s == pat + rest;
      RemoveAllAtStart(pat, rest);
    } else {
      assert !Occurs(d[1..], pat) by {
        ShiftOccurrence(d, pat);
      }
      calc {
        RemoveAll(s, pat);
        { NoEarlierStart(d, pat, rest); RemoveAllSkip(s, pat); }
        [s[0]] + RemoveAll(s[1..], pat);
        { assert s[1..] == d[1..] + pat + rest; }
        [d[0]] + RemoveAll(d[1..] + pat + rest, pat);
        { RemoveAllAfter(d[1..], pat, rest); }
        [d[0]] + (d[1..] + RemoveAll(rest, pat));
        { assert [d[0]] + d[1..] == d; }
        d + RemoveAll(rest, pat);
      }
    }
  }

  /** `s.split(sep)[0]`: the longest prefix of `s` not containing `sep`. */
  function BeforeFirst(s: string, sep: char): (r: string)
    ensures |r| <= |s| && r == s[..|r|]
    ensures sep !in r
    ensures |r| < |s| ==> s[|r|] == sep
  {
    if s == [] || s[0] == sep then [] else [s[0]] + BeforeFirst(s[1..], sep)
  }

  /** The offset of the first `c` in `s`, or `|s|` when there is none. */
  function IndexOf(s: string, c: char): (i: nat)
    ensures i <= |s| && c !in s[..i]
    ensures i < |s| ==> s[i] == c
  {
    if s == [] then 0
    else if s[0] == c then 0
    else 1 + IndexOf(s[1..], c)
  }
}
