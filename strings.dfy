/**
 * The Python `str` operations the extractor relies on, on `seq<char>`:
 * `strip()` with no argument, `sep.join(xs)`, `s.split(d)` for a one-character
 * separator, and `s.replace(pat, rep)`.
 */
module Strings {

  /** Python's `str.isspace` for one character: the Unicode whitespace code points. */
  predicate IsSpace(c: char) {
    var n := c as int;
    n == 0x20 || 0x09 <= n <= 0x0D || 0x1C <= n <= 0x1F || n == 0x85 || n == 0xA0
    || n == 0x1680 || 0x2000 <= n <= 0x200A || n == 0x2028 || n == 0x2029
    || n == 0x202F || n == 0x205F || n == 0x3000
  }

  /** Every character of `s` is whitespace (the empty string included). */
  predicate Blank(s: string) {
    forall i :: 0 <= i < |s| ==> IsSpace(s[i])
  }

  /** Every character of `s` from index `lo` up to `hi` is whitespace. */
  predicate BlankBetween(s: string, lo: int, hi: int)
    requires 0 <= lo <= hi <= |s|
  {
    forall i :: lo <= i < hi ==> IsSpace(s[i])
  }

  /** The index of the first non-space character at or after `i`, or `|s|`. */
  function SkipSpace(s: string, i: nat): (k: nat)
    requires i <= |s|
    ensures i <= k <= |s| && BlankBetween(s, i, k)
    ensures k == |s| || !IsSpace(s[k])
    decreases |s| - i
  {
    if i == |s| || !IsSpace(s[i]) then i else SkipSpace(s, i + 1)
  }

  /** Going down from `j`, the end of the last non-space character above `lo`, or `lo`. */
  function SkipSpaceBack(s: string, lo: nat, j: nat): (k: nat)
    requires lo <= j <= |s|
    ensures lo <= k <= j && BlankBetween(s, k, j)
    ensures k == lo || !IsSpace(s[k - 1])
    decreases j
  {
    if j == lo || !IsSpace(s[j - 1]) then j else SkipSpaceBack(s, lo, j - 1)
  }

  /** `s.strip()`: the slice of `s` left once its leading and trailing whitespace are dropped. */
  function Strip(s: string): string
  {
    var lo := SkipSpace(s, 0);
    s[lo..SkipSpaceBack(s, lo, |s|)]
  }

  /**
   * `strip()` gives the empty string exactly when `s` is blank, and otherwise
   * a string that starts and ends with a non-space.
   */
  lemma StripSpec(s: string)
    ensures Strip(s) == [] <==> Blank(s)
    ensures Strip(s) == [] || (!IsSpace(Strip(s)[0]) && !IsSpace(Strip(s)[|Strip(s)| - 1]))
  {
    var lo := SkipSpace(s, 0);
    var hi := SkipSpaceBack(s, lo, |s|);
    if hi == lo {
      assert BlankBetween(s, 0, lo) && BlankBetween(s, lo, |s|);
    } else {
      assert !IsSpace(s[lo]);
    }
  }

  /** Stripping twice gives what stripping once gives. */
  lemma StripIdempotent(s: string)
    ensures Strip(Strip(s)) == Strip(s)
  {
    var r := Strip(s);
    if r != [] {
      assert SkipSpace(r, 0) == 0;
      assert SkipSpaceBack(r, 0, |r|) == |r|;
      assert r[0..|r|] == r;
    }
  }

  lemma {:induction false} SkipSpaceShift(c: char, s: string, i: nat)
    requires i <= |s|
    ensures SkipSpace([c] + s, i + 1) == SkipSpace(s, i) + 1
    decreases |s| - i
  {
    if i < |s| && IsSpace(s[i]) {
      SkipSpaceShift(c, s, i + 1);
    }
  }

  lemma {:induction false} SkipSpaceBackShift(c: char, s: string, lo: nat, j: nat)
    requires lo <= j <= |s|
    ensures SkipSpaceBack([c] + s, lo + 1, j + 1) == SkipSpaceBack(s, lo, j) + 1
    decreases j
  {
    if j > lo && IsSpace(s[j - 1]) {
      SkipSpaceBackShift(c, s, lo, j - 1);
    }
  }

  lemma ConsSlice(c: char, s: string, lo: nat, hi: nat)
    requires lo <= hi <= |s|
    ensures ([c] + s)[lo + 1..hi + 1] == s[lo..hi]
  {
  }

  /** Leading whitespace is invisible to `strip()`. */
  lemma StripLeadingSpace(c: char, s: string)
    requires IsSpace(c)
    ensures Strip([c] + s) == Strip(s)
  {
    var t := [c] + s;
    var lo := SkipSpace(s, 0);
    var hi := SkipSpaceBack(s, lo, |s|);
    assert SkipSpace(t, 0) == lo + 1 by {
      assert SkipSpace(t, 0) == SkipSpace(t, 1);
      SkipSpaceShift(c, s, 0);
    }
    assert SkipSpaceBack(t, lo + 1, |t|) == hi + 1 by {
      SkipSpaceBackShift(c, s, lo, |s|);
    }
    ConsSlice(c, s, lo, hi);
  }

  /** No string occurs twice. */
  predicate NoDuplicates(xs: seq<string>) {
    forall i, j :: 0 <= i < j < |xs| ==> xs[i] != xs[j]
  }

  /** `sep.join(xs)`. */
  function Join(sep: string, xs: seq<string>): string
  {
    if xs == [] then "" else if |xs| == 1 then xs[0] else xs[0] + sep + Join(sep, xs[1..])
  }

  /** Joining two or more parts always writes at least one separator. */
  lemma {:induction false} JoinLength(sep: string, xs: seq<string>)
    requires |xs| >= 2
    ensures |Join(sep, xs)| >= |sep|
  {
  }

  /** `s.split(d)` for a one-character separator `d`: never empty, no part holds `d`. */
  function Split(s: string, d: char): (r: seq<string>)
    ensures |r| >= 1
    ensures forall i :: 0 <= i < |r| ==> d !in r[i]
    ensures Join([d], r) == s
  {
    if s == [] then [""]
    else if s[0] == d then
      var t := Split(s[1..], d);
      assert s == [d] + s[1..];
      [""] + t
    else
      var t := Split(s[1..], d);
      var r := [[s[0]] + t[0]] + t[1..];
      assert r[1..] == t[1..];
      assert s == [s[0]] + s[1..];
      r
  }

  /** A part without the separator followed by the separator splits off as one part. */
  lemma {:induction false} SplitAfterPart(a: string, d: char, b: string)
    requires d !in a
    ensures Split(a + [d] + b, d) == [a] + Split(b, d)
  {
    if a == [] {
      assert a + [d] + b == [d] + b;
      assert ([d] + b)[1..] == b;
    } else {
      assert (a + [d] + b)[1..] == a[1..] + [d] + b;
      SplitAfterPart(a[1..], d, b);
      assert [a[0]] + a[1..] == a;
    }
  }

  /** A string without the separator is one part. */
  lemma {:induction false} SplitNoSeparator(a: string, d: char)
    requires d !in a
    ensures Split(a, d) == [a]
  {
    if a != [] {
      assert d !in a[1..];
      SplitNoSeparator(a[1..], d);
      assert [a[0]] + a[1..] == a;
    }
  }

  /** `pat` occurs somewhere in `s`. */
  predicate Occurs(s: string, pat: string) {
    exists i :: 0 <= i <= |s| && pat <= s[i..]
  }

  /**
   * `s.replace(pat, rep)` for a non-empty `pat`: scanning left to right, every
   * non-overlapping occurrence of `pat` is replaced by `rep`.
   */
  function Replace(s: string, pat: string, rep: string): string
    requires pat != []
    decreases |s|
  {
    if s == [] then []
    else if pat <= s then rep + Replace(s[|pat|..], pat, rep)
    else [s[0]] + Replace(s[1..], pat, rep)
  }

  /** Nothing to replace leaves the string as it was. */
  lemma {:induction false} ReplaceAbsent(s: string, pat: string, rep: string)
    requires pat != [] && !Occurs(s, pat)
    ensures Replace(s, pat, rep) == s
  {
    if s != [] {
      assert s[0..] == s;
      assert !Occurs(s[1..], pat) by {
        forall i | 0 <= i <= |s| - 1 ensures !(pat <= s[1..][i..]) {
          assert s[1..][i..] == s[i + 1..];
        }
      }
      ReplaceAbsent(s[1..], pat, rep);
    }
  }

  /** A replacement at least as long as the pattern never shortens the string. */
  lemma {:induction false} ReplaceNotShorter(s: string, pat: string, rep: string)
    requires pat != [] && |rep| >= |pat|
    ensures |Replace(s, pat, rep)| >= |s|
    decreases |s|
  {
    if s != [] {
      if pat <= s {
        ReplaceNotShorter(s[|pat|..], pat, rep);
      } else {
        ReplaceNotShorter(s[1..], pat, rep);
      }
    }
  }

  /** With a longer replacement, any occurrence makes the result strictly longer. */
  lemma {:induction false} ReplaceLonger(s: string, pat: string, rep: string)
    requires pat != [] && |rep| > |pat| && Occurs(s, pat)
    ensures |Replace(s, pat, rep)| > |s|
    decreases |s|
  {
    var i :| 0 <= i <= |s| && pat <= s[i..];
    if pat <= s {
      ReplaceNotShorter(s[|pat|..], pat, rep);
    } else {
      assert i != 0 && s != [];
      assert s[1..][i - 1..] == s[i..];
      ReplaceLonger(s[1..], pat, rep);
    }
  }

  /**
   * With a longer replacement, `replace` leaves the string unchanged exactly
   * when the pattern does not occur in it.
   */
  lemma ReplaceUnchangedIff(s: string, pat: string, rep: string)
    requires pat != [] && |rep| > |pat|
    ensures Replace(s, pat, rep) == s <==> !Occurs(s, pat)
  {
    if Occurs(s, pat) {
      ReplaceLonger(s, pat, rep);
    } else {
      ReplaceAbsent(s, pat, rep);
    }
  }
}
