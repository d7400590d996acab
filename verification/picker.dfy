/** The title of a clipboard entry in clippy's picker menu
    (`clippy/picker.py`, `_truncate`). */
module Picker {
  import opened Text

  /** The longest title shown before it is cut. */
  const MaxDisplayLen: nat := 60

  /** The text on one line: newlines become spaces, then the ends are
      stripped. */
  function Normalise(text: string): (r: string)
    ensures '\n' !in r
    ensures Trimmed(r)
    ensures var flat := ReplaceChar(text, '\n', ' ');
      exists a, b :: (0 <= a <= b <= |flat| && r == flat[a..b] && AllSpace(flat[..a]) && AllSpace(flat[b..]))
  {
    var flat := ReplaceChar(text, '\n', ' ');
    StripKeepsAbsent(flat, '\n');
    StripRemovesSpaceEnds(flat);
    Strip(flat)
  }

  /** A normalised text is its own normal form. */
  lemma NormaliseIdempotent(text: string)
    ensures Normalise(Normalise(text)) == Normalise(text)
  {
    var n := Normalise(text);
    assert ReplaceChar(n, '\n', ' ') == n;
    StripTrimmed(n);
  }

  /** `_truncate`: the normalised text, or its first sixty characters and
      "..." when it is longer. */
  function Truncate(text: string): (r: string)
    ensures '\n' !in r
    ensures |r| <= MaxDisplayLen + 3
    ensures |Normalise(text)| <= MaxDisplayLen ==> r == Normalise(text)
    ensures |Normalise(text)| > MaxDisplayLen ==>
      |r| == MaxDisplayLen + 3 && r[..MaxDisplayLen] == Normalise(text)[..MaxDisplayLen] && r[MaxDisplayLen..] == "..."
  {
    var n := Normalise(text);
    if |n| > MaxDisplayLen then
      assert '\n' !in "...";
      n[..MaxDisplayLen] + "..."
    else n
  }

  /** Replacing a character that does not occur changes nothing. */
  lemma ReplaceAbsent(s: string, a: char, b: char)
    requires a !in s
    ensures ReplaceChar(s, a, b) == s
  {
  }

  /** A one-line text with no whitespace at its ends is its own
      normalisation. */
  lemma NormaliseFixed(s: string)
    requires '\n' !in s && Trimmed(s)
    ensures Normalise(s) == s
  {
    ReplaceAbsent(s, '\n', ' ');
    StripTrimmed(s);
  }

  /** Truncating a title again changes nothing. */
  lemma TruncateIdempotent(text: string)
    ensures Truncate(Truncate(text)) == Truncate(text)
  {
    var n := Normalise(text);
    var t := Truncate(text);
    if |n| > MaxDisplayLen {
      assert !IsSpace(n[0]);
      assert t[0] == n[0];
      assert t[|t| - 1] == '.';
      assert Trimmed(t);
    }
    NormaliseFixed(t);
  }
}
