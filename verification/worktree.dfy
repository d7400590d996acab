/** The worktree numbering of `workspaces/kpler/create-fullstack-wt.py`:
    worktrees and branches are named "FST-<n>" with an optional "-<suffix>";
    the next number is one more than any in use, and extra files are
    copied from the closest earlier worktree. Directory listings and git
    output are given as lists. */
module Worktree {
  import opened Wrappers
  import opened Text

  /** The prefix of every worktree and branch name. */
  const WtPrefix: string := "FST-"

  /** The index just past the digits starting at `i`. */
  function DigitRunEnd(s: string, i: nat): (r: nat)
    requires i <= |s|
    ensures i <= r <= |s|
    ensures r < |s| ==> !IsDigit(s[r])
    ensures forall k :: i <= k < r ==> IsDigit(s[k])
    decreases |s| - i
  {
    if i < |s| && IsDigit(s[i]) then DigitRunEnd(s, i + 1) else i
  }

  /** A digit run ending before a non-digit, or at the end, is the run. */
  lemma {:induction false} DigitRunEndAt(s: string, i: nat, j: nat)
    requires i <= j <= |s|
    requires forall k :: i <= k < j ==> IsDigit(s[k])
    requires j == |s| || !IsDigit(s[j])
    ensures DigitRunEnd(s, i) == j
    decreases j - i
  {
    if i < j {
      DigitRunEndAt(s, i + 1, j);
    }
  }

  /** Where the pattern's `(?:-|$)` can match: a dash, the end, or a final
      newline (Python's `$` also matches just before one). */
  predicate NumberEnds(s: string, e: nat) {
    e == |s| || (e < |s| && s[e] == '-') || (e + 1 == |s| && s[e] == '\n')
  }

  /** `FST-(\d+)(?:-|$)` matches at `p`. The digit group is greedy and only a
      non-digit can follow it, so backtracking never finds another match:
      the pattern matches at `p` exactly when the whole digit run after the
      prefix is non-empty and ends where the pattern may end. */
  predicate MatchesAt(s: string, p: nat) {
    && OccursAt(s, WtPrefix, p)
    && var e := DigitRunEnd(s, p + 4);
       e > p + 4 && NumberEnds(s, e)
  }

  /** `int(match.group(1))` for a match at `p`. */
  function NumberAt(s: string, p: nat): nat
    requires MatchesAt(s, p)
  {
    var e := DigitRunEnd(s, p + 4);
    var digits := s[p + 4..e];
    assert AllDigits(digits) by {
      forall k | 0 <= k < |digits|
        ensures IsDigit(digits[k])
      {
        assert digits[k] == s[p + 4 + k];
      }
    }
    DigitsValue(digits)
  }

  /** `re.search` from position `p` on: the number of the leftmost match. */
  function SearchFrom(s: string, p: nat): (r: Option<nat>)
    requires p <= |s|
    ensures r.None? <==> forall k :: p <= k <= |s| ==> !MatchesAt(s, k)
    ensures r.Some? ==> exists q :: (p <= q <= |s| && MatchesAt(s, q) && r.value == NumberAt(s, q)
                                     && forall k :: p <= k < q ==> !MatchesAt(s, k))
    decreases |s| - p
  {
    if MatchesAt(s, p) then Some(NumberAt(s, p))
    else if p == |s| then None
    else SearchFrom(s, p + 1)
  }

  /** The number in a worktree or branch name, if any. */
  function ExtractNumber(name: string): (r: Option<nat>)
    ensures r.None? <==> forall k :: 0 <= k <= |name| ==> !MatchesAt(name, k)
  {
    SearchFrom(name, 0)
  }

  /** `f"FST-{n}"` plus `-suffix` when the suffix is not empty. */
  function WorktreeName(n: nat, suffix: string): (r: string)
    ensures StartsWith(r, WtPrefix + NatToString(n))
    ensures suffix == "" ==> r == WtPrefix + NatToString(n)
    ensures suffix != "" ==> r == WtPrefix + NatToString(n) + "-" + suffix
  {
    var name := WtPrefix + NatToString(n) + (if suffix != "" then "-" + suffix else "");
    assert name[..|WtPrefix + NatToString(n)|] == WtPrefix + NatToString(n);
    name
  }

  /** `re.match(rf"FST-{n}(?:-|$)", name)`: the name starts with the
      prefix and the decimal number, and the pattern may end there. */
  predicate AnchoredMatch(name: string, n: nat) {
    StartsWith(name, WtPrefix + NatToString(n)) && NumberEnds(name, 4 + |NatToString(n)|)
  }

  /** An anchored match is also the leftmost search match, with the same
      number. */
  lemma AnchoredMatchExtracts(name: string, n: nat)
    requires AnchoredMatch(name, n)
    ensures ExtractNumber(name) == Some(n)
  {
    var d := NatToString(n);
    var e := 4 + |d|;
    assert name[..e] == WtPrefix + d;
    assert name[..4] == WtPrefix;
    assert name[4..e] == d;
    forall k | 4 <= k < e
      ensures IsDigit(name[k])
    {
      assert name[k] == d[k - 4];
    }
    DigitRunEndAt(name, 4, e);
    assert MatchesAt(name, 0);
    DigitsValueOfNatToString(n);
  }

  /** A name built for `n` anchors `n`, so the number parses back. */
  lemma WorktreeNameRoundTrip(n: nat, suffix: string)
    ensures AnchoredMatch(WorktreeName(n, suffix), n)
    ensures ExtractNumber(WorktreeName(n, suffix)) == Some(n)
  {
    var name := WorktreeName(n, suffix);
    var e := 4 + |NatToString(n)|;
    if suffix != "" {
      assert name[e] == '-';
    }
    AnchoredMatchExtracts(name, n);
  }

  /** At most one number anchors a name: "FST-1" does not match "FST-12". */
  lemma AnchoredMatchUnique(name: string, n: nat, m: nat)
    requires AnchoredMatch(name, n) && AnchoredMatch(name, m)
    ensures n == m
  {
    AnchoredMatchExtracts(name, n);
    AnchoredMatchExtracts(name, m);
  }

  /** The anchored match of 1 does not take "FST-12": the pattern must end
      right after the number. */
  lemma ShorterNumberNotAnchored()
    ensures !AnchoredMatch("FST-12", 1)
    ensures AnchoredMatch("FST-1-api", 1)
  {
    assert NatToString(1) == "1";
    assert ("FST-12")[..5] == "FST-1";
    assert ("FST-1-api")[..5] == "FST-1";
  }

  /** A number written with a leading zero counts towards the next number
      but is never found as a previous worktree: "FST-01" holds 1, yet the
      anchored match of 1 needs "FST-1". */
  lemma LeadingZeroNotAnchored()
    ensures ExtractNumber("FST-01") == Some(1)
    ensures forall n: nat :: !AnchoredMatch("FST-01", n)
  {
    var s := "FST-01";
    assert DigitRunEnd(s, 6) == 6;
    assert DigitRunEnd(s, 4) == 6;
    assert s[4..6] == "01";
    assert DigitsValue("0") == 0;
    assert DigitsValue("01") == 1;
    assert MatchesAt(s, 0);
    forall n: nat
      ensures !AnchoredMatch(s, n)
    {
      if AnchoredMatch(s, n) {
        AnchoredMatchExtracts(s, n);
      }
    }
  }

  /** `line.strip().lstrip("* ")`: a line of `git branch` without its
      surrounding whitespace and the current-branch marker. */
  function BranchName(line: string): (r: string)
    ensures r == "" || (r[0] != '*' && r[0] != ' ')
    ensures |r| <= |Strip(line)| && r == Strip(line)[|Strip(line)| - |r|..]
    ensures forall k :: 0 <= k < |Strip(line)| - |r| ==> Strip(line)[k] == '*' || Strip(line)[k] == ' '
  {
    DropMarker(Strip(line))
  }

  /** `s.lstrip("* ")`. */
  function DropMarker(s: string): (r: string)
    ensures r == "" || (r[0] != '*' && r[0] != ' ')
    ensures |r| <= |s| && r == s[|s| - |r|..]
    ensures forall k :: 0 <= k < |s| - |r| ==> s[k] == '*' || s[k] == ' '
  {
    if |s| > 0 && (s[0] == '*' || s[0] == ' ') then
      var r := DropMarker(s[1..]);
      assert s[1..][|s[1..]| - |r|..] == s[|s| - |r|..];
      assert forall k :: 1 <= k < |s| - |r| ==> s[k] == s[1..][k - 1];
      r
    else s
  }

  /** The marker and indentation of a `git branch` line are dropped up
      to the branch name. */
  lemma DropMarkerOfListing(b: string)
    requires b != "" && b[0] != '*' && b[0] != ' '
    ensures DropMarker("* " + b) == b
    ensures DropMarker(" " + b) == b
  {
    assert ("* " + b)[1..] == " " + b;
    assert (" " + b)[1..] == b;
    assert DropMarker(b) == b;
    assert DropMarker(" " + b) == DropMarker(b);
    assert DropMarker("* " + b) == DropMarker(" " + b);
  }

  /** Both kinds of `git branch` line give back the branch: the current one
      marked "* " and the others indented by two spaces. */
  lemma BranchNameOfListing(b: string)
    requires b != "" && Trimmed(b) && b[0] != '*'
    ensures BranchName("* " + b) == b
    ensures BranchName("  " + b) == b
  {
    assert b[0] != ' ' by {
      assert !IsSpace(b[0]);
    }
    DropMarkerOfListing(b);
    CurrentBranchStripped(b);
    OtherBranchStripped(b);
  }

  /** The current-branch line has no whitespace to strip. */
  lemma CurrentBranchStripped(b: string)
    requires b != "" && Trimmed(b)
    ensures Strip("* " + b) == "* " + b
  {
    assert Trimmed("* " + b) by {
      assert ("* " + b)[|"* " + b| - 1] == b[|b| - 1];
    }
    StripTrimmed("* " + b);
  }

  /** Stripping an indented branch line leaves the branch. */
  lemma OtherBranchStripped(b: string)
    requires Trimmed(b)
    ensures Strip("  " + b) == b
  {
    assert AllSpace("  ");
    StripSpacePrefix("  ", b);
    StripTrimmed(b);
  }


  /** An entry of a directory listing. */
  datatype Entry = Entry(name: string, isDir: bool)

  /** The number of a worktree directory entry: a directory whose name
      starts with the prefix and holds a number. */
  function DirNumber(e: Entry): Option<nat> {
    if e.isDir && StartsWith(e.name, WtPrefix) then ExtractNumber(e.name) else None
  }

  /** The numbers of the worktree directories, in listing order. */
  function DirNumbers(entries: seq<Entry>): (r: seq<nat>)
    ensures forall n :: n in r <==> exists e :: e in entries && DirNumber(e) == Some(n)
    decreases |entries|
  {
    if |entries| == 0 then []
    else
      var rest := DirNumbers(entries[1..]);
      assert forall e :: e in entries <==> e == entries[0] || e in entries[1..] by {
        assert entries == [entries[0]] + entries[1..];
      }
      match DirNumber(entries[0])
      case Some(n) => [n] + rest
      case None => rest
  }

  /** The number a line of `git branch --list 'FST-*'` carries. */
  function BranchNumber(line: string): Option<nat> {
    ExtractNumber(BranchName(line))
  }

  /** Some listed branch carries the number. */
  predicate CarriesBranch(lines: seq<string>, n: nat) {
    exists l :: l in lines && BranchNumber(l) == Some(n)
  }

  /** A listing carries a number in its first line or in the others. */
  lemma CarriesBranchCons(lines: seq<string>, n: nat)
    requires |lines| > 0
    ensures CarriesBranch(lines, n) <==> BranchNumber(lines[0]) == Some(n) || CarriesBranch(lines[1..], n)
  {
    assert lines == [lines[0]] + lines[1..];
  }

  /** `get_branch_numbers`: the numbers of the listed branches, in order. */
  function BranchNumbers(lines: seq<string>): (r: seq<nat>)
    ensures forall n: nat :: n in r <==> CarriesBranch(lines, n)
    decreases |lines|
  {
    if |lines| == 0 then []
    else
      var rest := BranchNumbers(lines[1..]);
      NumbersCons(lines, rest);
      OptionList(BranchNumber(lines[0])) + rest
  }

  /** The number of one line, as a list of zero or one elements. */
  function OptionList(o: Option<nat>): (r: seq<nat>)
    ensures forall n :: n in r <==> o == Some(n)
  {
    match o
    case Some(n) => [n]
    case None => []
  }

  /** The numbers of a listing are those of its first line and the rest. */
  lemma NumbersCons(lines: seq<string>, rest: seq<nat>)
    requires |lines| > 0
    requires forall n: nat :: n in rest <==> CarriesBranch(lines[1..], n)
    ensures forall n: nat :: n in OptionList(BranchNumber(lines[0])) + rest <==> CarriesBranch(lines, n)
  {
    forall n: nat
      ensures n in OptionList(BranchNumber(lines[0])) + rest <==> CarriesBranch(lines, n)
    {
      CarriesBranchCons(lines, n);
    }
  }

  /** Every number in use: worktree directories and the branches of both
      repositories. */
  function UsedNumbers(entries: seq<Entry>, webAppBranches: seq<string>, charteringBranches: seq<string>): seq<nat> {
    DirNumbers(entries) + BranchNumbers(webAppBranches) + BranchNumbers(charteringBranches)
  }

  /** `max(numbers, default=0)`. */
  function MaxOrZero(xs: seq<nat>): (r: nat)
    ensures forall x :: x in xs ==> x <= r
    ensures xs != [] ==> r in xs
    ensures xs == [] ==> r == 0
    decreases |xs|
  {
    if |xs| == 0 then 0
    else
      var m := MaxOrZero(xs[1..]);
      assert forall x :: x in xs ==> x == xs[0] || x in xs[1..] by {
        assert xs == [xs[0]] + xs[1..];
      }
      if xs[0] >= m then xs[0] else m
  }

  /** `get_next_wt_number`: one more than the largest number among the
      worktree directories and the branches of both repositories, or 1. */
  function NextWtNumber(entries: seq<Entry>, webAppBranches: seq<string>, charteringBranches: seq<string>): (r: nat)
    ensures r >= 1
    ensures forall n: nat :: n in UsedNumbers(entries, webAppBranches, charteringBranches) ==> n < r
    ensures r == 1 || r - 1 in UsedNumbers(entries, webAppBranches, charteringBranches)
  {
    var used := UsedNumbers(entries, webAppBranches, charteringBranches);
    MaxOrZero(used) + 1
  }

  /** Some listed directory anchors the number. */
  predicate HasAnchored(entries: seq<Entry>, n: nat) {
    exists i :: 0 <= i < |entries| && entries[i].isDir && AnchoredMatch(entries[i].name, n)
  }

  /** The first listed directory anchoring the number. */
  function FirstAnchored(entries: seq<Entry>, n: nat): (r: Option<Entry>)
    ensures r.None? <==> !HasAnchored(entries, n)
    ensures r.Some? ==> r.value in entries && r.value.isDir && AnchoredMatch(r.value.name, n)
    decreases |entries|
  {
    if |entries| == 0 then None
    else if entries[0].isDir && AnchoredMatch(entries[0].name, n) then Some(entries[0])
    else
      var r := FirstAnchored(entries[1..], n);
      assert HasAnchored(entries, n) ==> HasAnchored(entries[1..], n) by {
        if HasAnchored(entries, n) {
          var i :| 0 <= i < |entries| && entries[i].isDir && AnchoredMatch(entries[i].name, n);
          assert i > 0 && entries[1..][i - 1] == entries[i];
        }
      }
      assert HasAnchored(entries[1..], n) ==> HasAnchored(entries, n) by {
        if HasAnchored(entries[1..], n) {
          var i :| 0 <= i < |entries[1..]| && entries[1..][i].isDir && AnchoredMatch(entries[1..][i].name, n);
          assert entries[i + 1] == entries[1..][i];
        }
      }
      r
  }

  /** The search of `get_previous_wt_dir` from `n` down to 1. */
  function PreviousFrom(entries: seq<Entry>, n: int): (r: Option<Entry>)
    ensures r.None? <==> forall m :: 1 <= m <= n ==> !HasAnchored(entries, m)
    ensures r.Some? ==> r.value in entries && r.value.isDir
    ensures r.Some? ==> exists m :: (1 <= m <= n && AnchoredMatch(r.value.name, m)
                                     && forall k :: m < k <= n ==> !HasAnchored(entries, k))
    decreases n
  {
    if n < 1 then None
    else match FirstAnchored(entries, n)
      case Some(d) => Some(d)
      case None => PreviousFrom(entries, n - 1)
  }

  /** `get_previous_wt_dir`: a directory of the largest number below the
      current one that some directory anchors, or none. */
  function PreviousWtDir(current: int, entries: seq<Entry>): (r: Option<Entry>)
    ensures r.None? <==> forall m :: 1 <= m < current ==> !HasAnchored(entries, m)
    ensures r.Some? ==> r.value in entries && r.value.isDir
    ensures r.Some? ==> exists m :: (1 <= m < current && AnchoredMatch(r.value.name, m)
                                     && forall k :: m < k < current ==> !HasAnchored(entries, k))
  {
    PreviousFrom(entries, current - 1)
  }

  /** The number of the previous worktree is determined: it is the largest
      anchored one below the current. */
  lemma PreviousWtNumber(current: int, entries: seq<Entry>, m: nat)
    requires PreviousWtDir(current, entries).Some?
    requires AnchoredMatch(PreviousWtDir(current, entries).value.name, m)
    ensures 1 <= m < current
    ensures forall k :: m < k < current ==> !HasAnchored(entries, k)
  {
    var d := PreviousWtDir(current, entries).value;
    var m' :| 1 <= m' < current && AnchoredMatch(d.name, m') && forall k :: m' < k < current ==> !HasAnchored(entries, k);
    AnchoredMatchUnique(d.name, m, m');
  }

  /** The names `copy_extra_files` never copies: the two repositories and
      the two convention files. */
  const Excluded: set<string> := {"web-app", "chartering-fast-api", "CLAUDE.md", "CHARTERING_AGENT_GUIDE.md"}

  /** `copy_extra_files`: the names of the previous worktree that are
      copied, in listing order. */
  function CopiedNames(names: seq<string>): (r: seq<string>)
    ensures |r| <= |names|
    ensures forall x :: x in r <==> x in names && x !in Excluded
    decreases |names|
  {
    if |names| == 0 then []
    else
      var rest := CopiedNames(names[1..]);
      assert forall x :: x in names <==> x == names[0] || x in names[1..] by {
        assert names == [names[0]] + names[1..];
      }
      if names[0] in Excluded then rest else [names[0]] + rest
  }

  /** Copying keeps listing order: the copy of a split listing is the copy
      of each part in turn. */
  lemma {:induction false} CopiedNamesAppend(a: seq<string>, b: seq<string>)
    ensures CopiedNames(a + b) == CopiedNames(a) + CopiedNames(b)
    decreases |a|
  {
    if |a| == 0 {
      assert a + b == b;
    } else {
      assert (a + b)[1..] == a[1..] + b;
      CopiedNamesAppend(a[1..], b);
    }
  }
}
