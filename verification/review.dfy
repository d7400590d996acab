/** The review screen of the collector (devconfig-cli
    `agent_guide/tui/screens/review.py`): the form it opens with, the block
    it builds from the edited form and the result each button dismisses
    the screen with. Widgets are reduced to the values they hold. */
module Review {
  import opened Wrappers
  import opened Text
  import opened Models

  /** The values of the form's widgets: the id input, the content area, the
      language and architecture selections and the comma-separated scope
      input. */
  datatype Form = Form(blockId: string, content: string, language: string, architecture: string, scope: string)

  /** The separator the scope input is filled with. */
  const ScopeSeparator: string := ", "

  /** The form as the screen first shows it for a candidate block: a missing
      (or empty) language selects "generic", a missing architecture selects
      "any", and the scope list is joined with ", ". */
  function InitialForm(b: ExtractedBlock): (f: Form)
    ensures f.blockId == b.suggestedId && f.content == b.content
    ensures f.language == "generic" <==> b.suggestedTags.language in {None, Some(""), Some("generic")}
    ensures b.suggestedTags.language.Some? && b.suggestedTags.language.value != "" ==>
      f.language == b.suggestedTags.language.value
    ensures f.architecture == "any" <==> |b.suggestedTags.architecture| == 0 || b.suggestedTags.architecture[0] == "any"
    ensures |b.suggestedTags.architecture| > 0 ==> f.architecture == b.suggestedTags.architecture[0]
    ensures f.scope == Join(b.suggestedTags.scope, ScopeSeparator)
  {
    var language := match b.suggestedTags.language
      case Some(l) => if l != "" then l else "generic"
      case None => "generic";
    var architecture := if |b.suggestedTags.architecture| > 0 then b.suggestedTags.architecture[0] else "any";
    Form(b.suggestedId, b.content, language, architecture, Join(b.suggestedTags.scope, ScopeSeparator))
  }

  /** The stripped, non-empty pieces, in order. */
  function Clean(pieces: seq<string>): (r: seq<string>)
    ensures |r| <= |pieces|
    ensures forall i :: 0 <= i < |r| ==> r[i] != "" && Trimmed(r[i])
    decreases |pieces|
  {
    if |pieces| == 0 then []
    else
      var head := Strip(pieces[0]);
      var rest := Clean(pieces[1..]);
      if head == "" then rest else [head] + rest
  }

  /** Cleaning comma-free pieces leaves comma-free tags. */
  lemma {:induction false} CleanKeepsCommaFree(pieces: seq<string>)
    requires forall i :: 0 <= i < |pieces| ==> ',' !in pieces[i]
    ensures forall i :: 0 <= i < |Clean(pieces)| ==> ',' !in Clean(pieces)[i]
    decreases |pieces|
  {
    if |pieces| > 0 {
      StripKeepsAbsent(pieces[0], ',');
      CleanKeepsCommaFree(pieces[1..]);
    }
  }

  /** The tags cleaning keeps are the non-empty stripped pieces. */
  lemma {:induction false} CleanMembers(pieces: seq<string>)
    ensures forall t :: t in Clean(pieces) <==> exists i :: 0 <= i < |pieces| && t == Strip(pieces[i]) && t != ""
    decreases |pieces|
  {
    if |pieces| > 0 {
      CleanMembers(pieces[1..]);
      forall t | t in Clean(pieces)
        ensures exists i :: 0 <= i < |pieces| && t == Strip(pieces[i]) && t != ""
      {
        if t != Strip(pieces[0]) {
          assert t in Clean(pieces[1..]);
          var i :| 0 <= i < |pieces[1..]| && t == Strip(pieces[1..][i]) && t != "";
          assert pieces[i + 1] == pieces[1..][i];
        }
      }
      forall t, i | 0 <= i < |pieces| && t == Strip(pieces[i]) && t != ""
        ensures t in Clean(pieces)
      {
        if i > 0 {
          assert pieces[1..][i - 1] == pieces[i];
        }
      }
    }
  }

  /** Cleaning keeps the order of the pieces. */
  lemma {:induction false} CleanAppend(a: seq<string>, b: seq<string>)
    ensures Clean(a + b) == Clean(a) + Clean(b)
    decreases |a|
  {
    if |a| == 0 {
      assert a + b == b;
    } else {
      assert (a + b)[0] == a[0];
      assert (a + b)[1..] == a[1..] + b;
      CleanAppend(a[1..], b);
    }
  }

  /** A scope tag the input can carry unchanged. */
  predicate CleanTag(t: string) {
    t != "" && Trimmed(t) && ',' !in t
  }

  /** Parsing of the scope input: split on commas, strip each piece, drop
      the empty ones. Every resulting tag is non-empty, comma-free and has
      no surrounding whitespace. */
  function ParseScope(s: string): (r: seq<string>)
    ensures forall i :: 0 <= i < |r| ==> CleanTag(r[i])
    ensures |r| <= |Split(s, ',')|
    ensures forall t :: t in r <==>
      exists i :: 0 <= i < |Split(s, ',')| && t == Strip(Split(s, ',')[i]) && t != ""
  {
    CleanMembers(Split(s, ','));
    SplitPiecesSepFree(s, ',');
    CleanKeepsCommaFree(Split(s, ','));
    Clean(Split(s, ','))
  }

  /** The block the screen hands back: "generic" becomes no language, "any"
      becomes no architecture, any other architecture a one-element list.
      The source agent is not carried over, so it is the default. */
  function EditedBlock(f: Form): (e: ExtractedBlock)
    ensures e.suggestedId == f.blockId && e.content == f.content
    ensures e.suggestedTags.language.None? <==> f.language == "generic"
    ensures e.suggestedTags.language.Some? ==> e.suggestedTags.language.value == f.language
    ensures |e.suggestedTags.architecture| <= 1
    ensures e.suggestedTags.architecture == [] <==> f.architecture == "any"
    ensures f.architecture != "any" ==> e.suggestedTags.architecture == [f.architecture]
    ensures e.suggestedTags.scope == ParseScope(f.scope)
    ensures forall t :: t in e.suggestedTags.scope ==> CleanTag(t)
    ensures e.sourceAgent == Unknown
  {
    var language := if f.language == "generic" then None else Some(f.language);
    var architecture := if f.architecture == "any" then [] else [f.architecture];
    NewExtractedBlock(f.blockId, f.content, BlockTags(language, architecture, ParseScope(f.scope)))
  }

  /** `Clean` of a list headed by one piece. */
  lemma CleanCons(x: string, rest: seq<string>)
    ensures Clean([x] + rest) == (if Strip(x) == "" then [] else [Strip(x)]) + Clean(rest)
  {
    assert ([x] + rest)[1..] == rest;
  }

  /** A clean tag, after an optional space, strips back to itself. */
  lemma ParseOneTag(p: string, x: string)
    requires p == "" || p == " "
    requires CleanTag(x)
    ensures ',' !in p + x
    ensures Strip(p + x) == x
  {
    assert AllSpace(p);
    StripSpacePrefix(p, x);
    StripTrimmed(x);
  }

  /** The empty list joined is the empty input, or a single space, and
      parses to no tags. */
  lemma ParseNoTags(p: string)
    requires p == "" || p == " "
    ensures Clean(Split(p, ',')) == []
  {
    SplitNoSep(p, ',');
    CleanCons(p, []);
    assert AllSpace(p);
    assert p + "" == p;
    StripSpacePrefix(p, "");
  }

  /** A list of two or more tags joined with ", " is the first tag, a
      comma, and the rest joined after a space. */
  lemma JoinScopeCons(p: string, xs: seq<string>)
    requires |xs| >= 2
    ensures p + Join(xs, ScopeSeparator) == (p + xs[0]) + [','] + (" " + Join(xs[1..], ScopeSeparator))
  {
    var rest := Join(xs[1..], ScopeSeparator);
    assert Join(xs, ScopeSeparator) == xs[0] + ScopeSeparator + rest;
    Regroup(p, xs[0], rest);
  }

  /** Moving the comma of the separator next to the first tag. */
  lemma Regroup(p: string, x: string, rest: string)
    ensures p + (x + ScopeSeparator + rest) == (p + x) + [','] + (" " + rest)
  {
    var lhs := p + (x + ScopeSeparator + rest);
    var rhs := (p + x) + [','] + (" " + rest);
    assert |lhs| == |rhs|;
    forall k | 0 <= k < |lhs|
      ensures lhs[k] == rhs[k]
    {
      if k < |p + x| {
      } else if k < |p + x| + 2 {
      } else {
      }
    }
  }

  /** Splitting a joined list peels off the first (comma-free) piece. */
  lemma SplitScopeCons(p: string, xs: seq<string>)
    requires |xs| >= 2 && ',' !in p + xs[0]
    ensures Split(p + Join(xs, ScopeSeparator), ',')
      == [p + xs[0]] + Split(" " + Join(xs[1..], ScopeSeparator), ',')
  {
    JoinScopeCons(p, xs);
    SplitCons(p + xs[0], ',', " " + Join(xs[1..], ScopeSeparator));
  }

  /** One step of the round trip: the first tag is peeled off and the rest
      starts with the space of the separator. */
  lemma ParseTagThenRest(p: string, xs: seq<string>)
    requires p == "" || p == " "
    requires |xs| >= 2 && CleanTag(xs[0])
    requires Clean(Split(" " + Join(xs[1..], ScopeSeparator), ',')) == xs[1..]
    ensures Clean(Split(p + Join(xs, ScopeSeparator), ',')) == xs
  {
    ParseOneTag(p, xs[0]);
    SplitScopeCons(p, xs);
    CleanFirst(Split(p + Join(xs, ScopeSeparator), ','), p + xs[0], Split(" " + Join(xs[1..], ScopeSeparator), ','), xs);
  }

  /** Cleaning a list whose first piece strips to the first tag and whose
      other pieces clean to the other tags. */
  lemma CleanFirst(pieces: seq<string>, head: string, tail: seq<string>, xs: seq<string>)
    requires |xs| >= 1 && xs[0] != ""
    requires pieces == [head] + tail && Strip(head) == xs[0] && Clean(tail) == xs[1..]
    ensures Clean(pieces) == xs
  {
    CleanCons(head, tail);
    assert xs == [xs[0]] + xs[1..];
  }

  /** Parsing a scope list joined with ", ", with an optional leading space
      left over from the separator. */
  lemma {:induction false} ParseScopeJoinAfter(p: string, xs: seq<string>)
    requires p == "" || p == " "
    requires forall i :: 0 <= i < |xs| ==> CleanTag(xs[i])
    ensures Clean(Split(p + Join(xs, ScopeSeparator), ',')) == xs
    decreases |xs|
  {
    if |xs| == 0 {
      assert p + Join(xs, ScopeSeparator) == p;
      ParseNoTags(p);
    } else if |xs| == 1 {
      assert p + Join(xs, ScopeSeparator) == p + xs[0];
      ParseOneTag(p, xs[0]);
      SplitNoSep(p + xs[0], ',');
      CleanCons(p + xs[0], []);
    } else {
      ParseScopeJoinAfter(" ", xs[1..]);
      ParseTagThenRest(p, xs);
    }
  }

  /** The scope input round-trips: a list of clean tags joined with ", "
      parses back to itself. */
  lemma ParseScopeJoin(xs: seq<string>)
    requires forall i :: 0 <= i < |xs| ==> CleanTag(xs[i])
    ensures ParseScope(Join(xs, ScopeSeparator)) == xs
  {
    ParseScopeJoinAfter("", xs);
    assert "" + Join(xs, ScopeSeparator) == Join(xs, ScopeSeparator);
  }

  /** A candidate already in the shape the screen produces: no empty or
      "generic" language, at most one architecture and not "any", clean
      scope tags, and the default source agent. */
  predicate Normalised(b: ExtractedBlock) {
    && b.suggestedTags.language !in {Some(""), Some("generic")}
    && |b.suggestedTags.architecture| <= 1
    && (|b.suggestedTags.architecture| == 1 ==> b.suggestedTags.architecture[0] != "any")
    && (forall i :: 0 <= i < |b.suggestedTags.scope| ==> CleanTag(b.suggestedTags.scope[i]))
    && b.sourceAgent == Unknown
  }

  /** Accepting the form untouched gives back the candidate exactly when the
      candidate is already normalised. */
  lemma UnchangedFormRoundTrip(b: ExtractedBlock)
    ensures EditedBlock(InitialForm(b)) == b <==> Normalised(b)
  {
    var e := EditedBlock(InitialForm(b));
    if Normalised(b) {
      ParseScopeJoin(b.suggestedTags.scope);
      var tags := b.suggestedTags;
      if |tags.architecture| == 1 {
        assert tags.architecture == [tags.architecture[0]];
      }
      assert e.suggestedTags == tags;
    }
  }

  /** The buttons of the screen. */
  datatype Button = AcceptButton | SkipButton | EditButton

  /** What the screen is dismissed with. */
  datatype ReviewResult = Accept(block: ExtractedBlock) | Skip

  /** `on_button_pressed`: accept dismisses with the edited block, skip
      dismisses without one, edit keeps the screen open (None). */
  function OnButton(button: Button, f: Form): (r: Option<ReviewResult>)
    ensures r.None? <==> button == EditButton
    ensures r == Some(Skip) <==> button == SkipButton
    ensures r.Some? && r.value.Accept? ==> r.value.block == EditedBlock(f)
  {
    match button
    case AcceptButton => Some(Accept(EditedBlock(f)))
    case SkipButton => Some(Skip)
    case EditButton => None
  }
}
