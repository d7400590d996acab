/** The handful of Python `str` operations the modelled code relies on:
    `strip`, `find`, `in`, `split`, `join`, `replace`, `startswith`,
    `capitalize`, `str(int)` / `int(str)` and the ordering `sorted` uses.
    Strings are sequences of Unicode scalar values, as in Python 3. */
module Text {

  /** Python's `str.isspace()` on one character: the Unicode characters of
      bidirectional class WS, B or S, or of category Zs. */
  predicate IsSpace(c: char) {
    var n := c as int;
    || n == 0x20
    || (0x09 <= n <= 0x0d)
    || (0x1c <= n <= 0x1f)
    || n == 0x85
    || n == 0xa0
    || n == 0x1680
    || (0x2000 <= n <= 0x200a)
    || n == 0x2028
    || n == 0x2029
    || n == 0x202f
    || n == 0x205f
    || n == 0x3000
  }

  predicate AllSpace(s: string) {
    forall i :: 0 <= i < |s| ==> IsSpace(s[i])
  }

  /** True when `s` has no whitespace at either end, i.e. `s.strip() == s`. */
  predicate Trimmed(s: string) {
    |s| == 0 || (!IsSpace(s[0]) && !IsSpace(s[|s| - 1]))
  }

  /** The first index at or after `i` that does not hold whitespace, or
      `|s|`. */
  function SpaceRunEnd(s: string, i: nat): (r: nat)
    requires i <= |s|
    ensures i <= r <= |s|
    ensures r < |s| ==> !IsSpace(s[r])
    decreases |s| - i
  {
    if i < |s| && IsSpace(s[i]) then SpaceRunEnd(s, i + 1) else i
  }

  /** Everything `SpaceRunEnd` skips is whitespace. */
  lemma {:induction false} SpaceRunEndSkipsSpace(s: string, i: nat)
    requires i <= |s|
    ensures forall k :: i <= k < SpaceRunEnd(s, i) ==> IsSpace(s[k])
    decreases |s| - i
  {
    if i < |s| && IsSpace(s[i]) {
      SpaceRunEndSkipsSpace(s, i + 1);
    }
  }

  /** The smallest index `r` down to `lo` such that `s[r..j]` is all
      whitespace. */
  function SpaceRunStart(s: string, lo: nat, j: nat): (r: nat)
    requires lo <= j <= |s|
    ensures lo <= r <= j
    ensures r > lo ==> !IsSpace(s[r - 1])
    decreases j
  {
    if j > lo && IsSpace(s[j - 1]) then SpaceRunStart(s, lo, j - 1) else j
  }

  /** Everything `SpaceRunStart` backs over is whitespace. */
  lemma {:induction false} SpaceRunStartSkipsSpace(s: string, lo: nat, j: nat)
    requires lo <= j <= |s|
    ensures forall k :: SpaceRunStart(s, lo, j) <= k < j ==> IsSpace(s[k])
    decreases j
  {
    if j > lo && IsSpace(s[j - 1]) {
      SpaceRunStartSkipsSpace(s, lo, j - 1);
    }
  }

  /** `s.strip()`: `s` without its leading and trailing whitespace. */
  function Strip(s: string): (r: string)
    ensures |r| <= |s|
    ensures Trimmed(r)
  {
    var a := SpaceRunEnd(s, 0);
    s[a..SpaceRunStart(s, a, |s|)]
  }

  /** What `strip` removes is whitespace, from the two ends only. */
  lemma StripRemovesSpaceEnds(s: string)
    ensures exists a, b :: (0 <= a <= b <= |s| && Strip(s) == s[a..b]
      && AllSpace(s[..a]) && AllSpace(s[b..]))
  {
    var a := SpaceRunEnd(s, 0);
    var b := SpaceRunStart(s, a, |s|);
    SpaceRunEndSkipsSpace(s, 0);
    SpaceRunStartSkipsSpace(s, a, |s|);
    assert Strip(s) == s[a..b];
    assert AllSpace(s[..a]) by {
      assert forall k :: 0 <= k < a ==> s[..a][k] == s[k];
    }
    assert AllSpace(s[b..]) by {
      assert forall k :: 0 <= k < |s| - b ==> s[b..][k] == s[b + k];
    }
  }

  /** A character absent from a string is absent from its strip. */
  lemma StripKeepsAbsent(s: string, c: char)
    ensures c !in s ==> c !in Strip(s)
  {
    var a := SpaceRunEnd(s, 0);
    var b := SpaceRunStart(s, a, |s|);
    assert forall k :: 0 <= k < b - a ==> s[a..b][k] == s[a + k];
  }

  /** A string with no whitespace at its ends is its own strip. */
  lemma StripTrimmed(s: string)
    requires Trimmed(s)
    ensures Strip(s) == s
  {
  }

  /** Skipping whitespace past a prefix is skipping it in the rest. */
  lemma {:induction false} SpaceRunEndShift(x: string, s: string, i: nat)
    requires i <= |s|
    ensures SpaceRunEnd(x + s, |x| + i) == |x| + SpaceRunEnd(s, i)
    decreases |s| - i
  {
    if i < |s| {
      assert (x + s)[|x| + i] == s[i];
      if IsSpace(s[i]) {
        SpaceRunEndShift(x, s, i + 1);
      }
    }
  }

  /** Backing over trailing whitespace past a prefix is backing over it in
      the rest. */
  lemma {:induction false} SpaceRunStartShift(x: string, s: string, lo: nat, j: nat)
    requires lo <= j <= |s|
    ensures SpaceRunStart(x + s, |x| + lo, |x| + j) == |x| + SpaceRunStart(s, lo, j)
    decreases j
  {
    if j > lo {
      assert (x + s)[|x| + j - 1] == s[j - 1];
      if IsSpace(s[j - 1]) {
        SpaceRunStartShift(x, s, lo, j - 1);
      }
    }
  }

  /** A run of whitespace is skipped whole. */
  lemma {:induction false} SpaceRunEndOverSpace(ws: string, s: string, i: nat)
    requires AllSpace(ws) && i <= |ws|
    ensures SpaceRunEnd(ws + s, i) == SpaceRunEnd(ws + s, |ws|)
    decreases |ws| - i
  {
    if i < |ws| {
      assert (ws + s)[i] == ws[i];
      SpaceRunEndOverSpace(ws, s, i + 1);
    }
  }

  /** Leading whitespace makes no difference to `strip`. */
  lemma StripSpacePrefix(ws: string, s: string)
    requires AllSpace(ws)
    ensures Strip(ws + s) == Strip(s)
  {
    var a := SpaceRunEnd(s, 0);
    var b := SpaceRunStart(s, a, |s|);
    assert SpaceRunEnd(ws + s, 0) == |ws| + a by {
      SpaceRunEndOverSpace(ws, s, 0);
      SpaceRunEndShift(ws, s, 0);
    }
    assert SpaceRunStart(ws + s, |ws| + a, |ws + s|) == |ws| + b by {
      SpaceRunStartShift(ws, s, a, |s|);
    }
    SliceAfterPrefix(ws, s, a, b);
    assert Strip(ws + s) == (ws + s)[|ws| + a..|ws| + b];
  }

  /** A slice of `x + s` past `x` is a slice of `s`. */
  lemma SliceAfterPrefix(x: string, s: string, i: nat, j: nat)
    requires i <= j <= |s|
    ensures (x + s)[|x| + i..|x| + j] == s[i..j]
  {
    var t := (x + s)[|x| + i..|x| + j];
    assert forall k :: 0 <= k < |t| ==> t[k] == s[i..j][k];
  }

  /** `s.startswith(p)`. */
  predicate StartsWith(s: string, p: string) {
    |p| <= |s| && s[..|p|] == p
  }

  /** `pat` occurs in `s` starting at index `i`. */
  predicate OccursAt(s: string, pat: string, i: int) {
    0 <= i && i + |pat| <= |s| && s[i..i + |pat|] == pat
  }

  /** `s.find(pat, from)`: the first index at or after `from` where `pat`
      occurs, or -1. */
  function FindFrom(s: string, pat: string, from: nat): (r: int)
    requires |pat| > 0
    ensures r == -1 || (from <= r && OccursAt(s, pat, r))
    ensures forall k :: from <= k && (r == -1 || k < r) ==> !OccursAt(s, pat, k)
    decreases |s| - from
  {
    if from + |pat| > |s| then -1
    else if s[from..from + |pat|] == pat then from
    else FindFrom(s, pat, from + 1)
  }

  /** Python's `pat in s`. */
  predicate Contains(s: string, pat: string)
    requires |pat| > 0
  {
    FindFrom(s, pat, 0) != -1
  }

  /** An occurrence anywhere makes `pat in s` true. */
  lemma OccursContains(s: string, pat: string, i: int)
    requires |pat| > 0 && OccursAt(s, pat, i)
    ensures Contains(s, pat)
  {
  }

  /** The first index of character `c` in `s`, or -1. */
  function IndexOf(s: string, c: char): (r: int)
    ensures r == -1 <==> c !in s
    ensures r != -1 ==> 0 <= r < |s| && s[r] == c && c !in s[..r]
  {
    if |s| == 0 then -1
    else if s[0] == c then 0
    else
      var k := IndexOf(s[1..], c);
      if k == -1 then -1
      else
        assert s[..k + 1] == [s[0]] + s[1..][..k];
        k + 1
  }

  /** The last index of character `c` in `s`, or -1 (`s.rfind(c)`). */
  function LastIndexOf(s: string, c: char): (r: int)
    ensures r == -1 <==> c !in s
    ensures r != -1 ==> 0 <= r < |s| && s[r] == c && c !in s[r + 1..]
    decreases |s|
  {
    if |s| == 0 then -1
    else if s[|s| - 1] == c then
      assert s[|s|..] == [];
      |s| - 1
    else
      var init := s[..|s| - 1];
      assert s == init + [s[|s| - 1]];
      var k := LastIndexOf(init, c);
      if k != -1 then
        assert s[k + 1..] == init[k + 1..] + [s[|s| - 1]];
        k
      else
        -1
  }

  /** The last occurrence of `c` in `a + [c] + rest` is the one before `rest`. */
  lemma LastIndexOfBefore(a: string, c: char, rest: string)
    requires c !in rest
    ensures LastIndexOf(a + [c] + rest, c) == |a|
  {
    var s := a + [c] + rest;
    assert s[|a|] == c;
    assert s[|a| + 1..] == rest;
  }

  /** The first occurrence of `c` in `a + [c] + rest` is the one after `a`. */
  lemma IndexOfAfter(a: string, c: char, rest: string)
    requires c !in a
    ensures IndexOf(a + [c] + rest, c) == |a|
  {
    var s := a + [c] + rest;
    assert s[|a|] == c;
    assert s[..|a|] == a;
  }

  /** `s.split(sep)` for a one-character separator: the pieces between
      separators, always at least one. */
  function Split(s: string, sep: char): (r: seq<string>)
    ensures |r| >= 1
    decreases |s|
  {
    var i := IndexOf(s, sep);
    if i == -1 then [s]
    else [s[..i]] + Split(s[i + 1..], sep)
  }

  /** No piece of a split holds the separator. */
  lemma {:induction false} SplitPiecesSepFree(s: string, sep: char)
    ensures forall i :: 0 <= i < |Split(s, sep)| ==> sep !in Split(s, sep)[i]
    decreases |s|
  {
    var i := IndexOf(s, sep);
    if i != -1 {
      SplitPiecesSepFree(s[i + 1..], sep);
    }
  }

  /** `sep.join(xs)`. */
  function Join(xs: seq<string>, sep: string): string
    decreases |xs|
  {
    if |xs| == 0 then ""
    else if |xs| == 1 then xs[0]
    else xs[0] + sep + Join(xs[1..], sep)
  }

  /** Every element of a joined list occurs in the joined text. */
  lemma {:induction false} JoinContains(xs: seq<string>, sep: string, j: nat)
    requires j < |xs| && |xs[j]| > 0
    ensures Contains(Join(xs, sep), xs[j])
    decreases |xs|
  {
    var x := xs[j];
    var joined := Join(xs, sep);
    if |xs| == 1 {
      assert joined[0..|x|] == x;
      OccursContains(joined, x, 0);
    } else {
      var head := xs[0] + sep;
      var rest := Join(xs[1..], sep);
      assert joined == head + rest;
      if j == 0 {
        assert joined[0..|x|] == x;
        OccursContains(joined, x, 0);
      } else {
        assert xs[1..][j - 1] == x;
        JoinContains(xs[1..], sep, j - 1);
        var p := FindFrom(rest, x, 0);
        assert joined[|head| + p..|head| + p + |x|] == rest[p..p + |x|];
        OccursContains(joined, x, |head| + p);
      }
    }
  }

  /** Splitting a piece free of the separator yields just that piece. */
  lemma SplitNoSep(s: string, sep: char)
    requires sep !in s
    ensures Split(s, sep) == [s]
  {
  }

  /** Splitting peels off the text before the first separator. */
  lemma SplitCons(a: string, sep: char, rest: string)
    requires sep !in a
    ensures Split(a + [sep] + rest, sep) == [a] + Split(rest, sep)
  {
    var s := a + [sep] + rest;
    IndexOfAfter(a, sep, rest);
    assert s[..|a|] == a;
    assert s[|a| + 1..] == rest;
  }

  /** `sep.join(s.split(sep)) == s`. */
  lemma {:induction false} JoinSplit(s: string, sep: char)
    ensures Join(Split(s, sep), [sep]) == s
    decreases |s|
  {
    var i := IndexOf(s, sep);
    if i != -1 {
      var tail := Split(s[i + 1..], sep);
      JoinSplit(s[i + 1..], sep);
      var xs := [s[..i]] + tail;
      assert Split(s, sep) == xs;
      assert xs[0] == s[..i] && xs[1..] == tail;
      assert Join(xs, [sep]) == s[..i] + [sep] + Join(tail, [sep]);
      assert s == s[..i] + [sep] + s[i + 1..];
    }
  }

  /** `s.split(sep)` undoes `sep.join(xs)` when no piece holds `sep`. */
  lemma {:induction false} SplitJoin(xs: seq<string>, sep: char)
    requires |xs| >= 1
    requires forall i :: 0 <= i < |xs| ==> sep !in xs[i]
    ensures Split(Join(xs, [sep]), sep) == xs
    decreases |xs|
  {
    if |xs| == 1 {
      SplitNoSep(xs[0], sep);
    } else {
      SplitJoin(xs[1..], sep);
      SplitCons(xs[0], sep, Join(xs[1..], [sep]));
      assert xs == [xs[0]] + xs[1..];
    }
  }

  /** `s[:n]`. */
  function Prefix(s: string, n: nat): (r: string)
    ensures |r| <= n && |r| <= |s|
    ensures |s| <= n ==> r == s
    ensures |s| > n ==> |r| == n
    ensures r <= s
  {
    if |s| <= n then s else s[..n]
  }

  /** `s.replace(a, b)` for single characters. */
  function ReplaceChar(s: string, a: char, b: char): (r: string)
    ensures |r| == |s|
    ensures forall i :: 0 <= i < |s| ==> r[i] == if s[i] == a then b else s[i]
    ensures a != b ==> a !in r
  {
    seq(|s|, i requires 0 <= i < |s| => if s[i] == a then b else s[i])
  }

  predicate IsDigit(c: char) {
    '0' <= c <= '9'
  }

  predicate AllDigits(s: string) {
    forall i :: 0 <= i < |s| ==> IsDigit(s[i])
  }

  function DigitChar(d: nat): (c: char)
    requires d < 10
    ensures IsDigit(c) && c as int - '0' as int == d
  {
    ('0' as int + d) as char
  }

  /** `str(n)` for a non-negative integer: its decimal digits, no leading
      zeros. */
  function NatToString(n: nat): (r: string)
    ensures |r| >= 1 && AllDigits(r)
    ensures n >= 10 ==> r[0] != '0'
  {
    if n < 10 then [DigitChar(n)]
    else NatToString(n / 10) + [DigitChar(n % 10)]
  }

  /** `int(s)` for a non-empty run of ASCII digits. */
  function DigitsValue(s: string): nat
    requires AllDigits(s)
  {
    if |s| == 0 then 0
    else DigitsValue(s[..|s| - 1]) * 10 + (s[|s| - 1] as int - '0' as int)
  }

  /** `int(str(n)) == n`. */
  lemma {:induction false} DigitsValueOfNatToString(n: nat)
    ensures DigitsValue(NatToString(n)) == n
  {
    if n >= 10 {
      var s := NatToString(n);
      assert s[..|s| - 1] == NatToString(n / 10);
      DigitsValueOfNatToString(n / 10);
    }
  }

  function ToUpperAscii(c: char): char {
    if 'a' <= c <= 'z' then (c as int - 32) as char else c
  }

  function ToLowerAscii(c: char): char {
    if 'A' <= c <= 'Z' then (c as int + 32) as char else c
  }

  /** `s.capitalize()`: first character upper-cased, the rest lower-cased
      (ASCII letters only). */
  function Capitalize(s: string): (r: string)
    ensures |r| == |s|
    ensures |s| > 0 ==> r[0] == ToUpperAscii(s[0])
    ensures forall i :: 1 <= i < |s| ==> r[i] == ToLowerAscii(s[i])
  {
    if |s| == 0 then ""
    else [ToUpperAscii(s[0])] + seq(|s| - 1, i requires 0 <= i < |s| - 1 => ToLowerAscii(s[i + 1]))
  }

  /** Capitalising a capitalised string changes nothing. */
  lemma CapitalizeIdempotent(s: string)
    ensures Capitalize(Capitalize(s)) == Capitalize(s)
  {
    var once := Capitalize(s);
    var twice := Capitalize(once);
    forall i | 0 <= i < |s|
      ensures twice[i] == once[i]
    {
      if i == 0 {
        assert ToUpperAscii(ToUpperAscii(s[0])) == ToUpperAscii(s[0]);
      } else {
        assert ToLowerAscii(ToLowerAscii(s[i])) == ToLowerAscii(s[i]);
      }
    }
  }

  /** Python's `<` on strings: lexicographic by code point, a proper prefix
      coming first. */
  predicate StrLess(a: string, b: string)
    decreases |a|
  {
    if |a| == 0 then |b| > 0
    else if |b| == 0 then false
    else if a[0] == b[0] then StrLess(a[1..], b[1..])
    else a[0] < b[0]
  }

  lemma {:induction false} StrLessIrreflexive(a: string)
    ensures !StrLess(a, a)
    decreases |a|
  {
    if |a| > 0 {
      StrLessIrreflexive(a[1..]);
    }
  }

  lemma {:induction false} StrLessTransitive(a: string, b: string, c: string)
    requires StrLess(a, b) && StrLess(b, c)
    ensures StrLess(a, c)
    decreases |a|
  {
    if |a| > 0 && |b| > 0 && |c| > 0 && a[0] == b[0] && b[0] == c[0] {
      StrLessTransitive(a[1..], b[1..], c[1..]);
    }
  }

  lemma {:induction false} StrLessTotal(a: string, b: string)
    requires a != b
    ensures StrLess(a, b) || StrLess(b, a)
    decreases |a|
  {
    if |a| > 0 && |b| > 0 && a[0] == b[0] {
      assert a == [a[0]] + a[1..];
      assert b == [b[0]] + b[1..];
      StrLessTotal(a[1..], b[1..]);
    }
  }

  lemma {:induction false} StrLessAsymmetric(a: string, b: string)
    requires StrLess(a, b)
    ensures !StrLess(b, a)
    decreases |a|
  {
    if |a| > 0 && |b| > 0 && a[0] == b[0] {
      StrLessAsymmetric(a[1..], b[1..]);
    }
  }
}
