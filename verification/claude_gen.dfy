/** The fallback CLAUDE.md renderer (devconfig-cli
    `agent_guide/generators/claude_gen.py`): blocks without a language go
    under "General", the others under one section per language in
    ascending order, each block as a "### id" entry. */
module ClaudeGen {
  import opened Wrappers
  import opened Text
  import opened Models
  import opened Store

  /** Strictly ascending in Python's string order, hence duplicate-free. */
  predicate StrictlySorted(xs: seq<string>) {
    forall i, j :: 0 <= i < j < |xs| ==> StrLess(xs[i], xs[j])
  }

  /** A string before the head of a sorted list is before all of it. */
  lemma BeforeHeadBeforeAll(x: string, xs: seq<string>)
    requires |xs| > 0 && StrictlySorted(xs) && StrLess(x, xs[0])
    ensures forall j :: 0 <= j < |xs| ==> StrLess(x, xs[j])
  {
    forall j | 0 < j < |xs|
      ensures StrLess(x, xs[j])
    {
      StrLessTransitive(x, xs[0], xs[j]);
    }
  }

  /** A string neither equal to nor before the head comes after it. */
  lemma AfterHead(x: string, h: string)
    requires x != h && !StrLess(x, h)
    ensures StrLess(h, x)
  {
    StrLessTotal(x, h);
  }

  /** Insertion into a strictly sorted list; an element already present
      leaves it as it is. */
  function InsertSorted(xs: seq<string>, x: string): (r: seq<string>)
    requires StrictlySorted(xs)
    ensures StrictlySorted(r)
    ensures forall y :: y in r <==> y in xs || y == x
    decreases |xs|
  {
    if |xs| == 0 then [x]
    else if xs[0] == x then xs
    else if StrLess(x, xs[0]) then
      BeforeHeadBeforeAll(x, xs);
      [x] + xs
    else
      AfterHead(x, xs[0]);
      var rest := InsertSorted(xs[1..], x);
      assert forall y :: y in rest ==> StrLess(xs[0], y) by {
        forall y | y in rest
          ensures StrLess(xs[0], y)
        {
          if y != x {
            var j :| 0 <= j < |xs[1..]| && xs[1..][j] == y;
            assert xs[j + 1] == y;
          }
        }
      }
      assert forall y :: y in [xs[0]] + rest <==> y in xs || y == x by {
        assert xs == [xs[0]] + xs[1..];
      }
      [xs[0]] + rest
  }

  /** Some block is tagged with the language. */
  predicate HasLanguage(blocks: seq<Block>, l: string) {
    exists i :: 0 <= i < |blocks| && blocks[i].tags.language == Some(l)
  }

  /** The keys of `lang_blocks`, sorted: every non-empty language some block
      carries, once each, in ascending order. */
  function Languages(blocks: seq<Block>): (r: seq<string>)
    ensures StrictlySorted(r)
    ensures forall l :: l in r <==> l != "" && HasLanguage(blocks, l)
    decreases |blocks|
  {
    if |blocks| == 0 then []
    else
      var rest := Languages(blocks[1..]);
      assert forall l :: HasLanguage(blocks, l) <==> blocks[0].tags.language == Some(l) || HasLanguage(blocks[1..], l) by {
        forall l
          ensures HasLanguage(blocks, l) <==> blocks[0].tags.language == Some(l) || HasLanguage(blocks[1..], l)
        {
          if HasLanguage(blocks, l) && blocks[0].tags.language != Some(l) {
            var i :| 0 <= i < |blocks| && blocks[i].tags.language == Some(l);
            assert blocks[1..][i - 1] == blocks[i];
          }
          if HasLanguage(blocks[1..], l) {
            var i :| 0 <= i < |blocks[1..]| && blocks[1..][i].tags.language == Some(l);
            assert blocks[i + 1] == blocks[1..][i];
          }
        }
      }
      match blocks[0].tags.language
      case Some(l) => if l != "" then InsertSorted(rest, l) else rest
      case None => rest
  }

  /** One section of the document: the generic section (`None`) or a
      language's, with its blocks. */
  datatype Section = Section(language: Option<string>, blocks: seq<Block>)

  /** The section title: "General", or the capitalised language. */
  function Heading(s: Section): (r: string)
    ensures s.language.None? ==> r == "General"
    ensures s.language.Some? ==> |r| == |s.language.value|
    ensures s.language.Some? && |s.language.value| > 0 ==> r[0] == ToUpperAscii(s.language.value[0])
    ensures s.language.Some? ==> forall i :: 1 <= i < |r| ==> r[i] == ToLowerAscii(s.language.value[i])
  {
    match s.language
    case None => "General"
    case Some(l) => Capitalize(l)
  }

  /** The language sections, in the order of the languages given. */
  function LanguageSections(blocks: seq<Block>, languages: seq<string>): (r: seq<Section>)
    ensures |r| == |languages|
    ensures forall k :: 0 <= k < |r| ==> r[k].language == Some(languages[k])
    ensures forall k :: 0 <= k < |r| ==> r[k].blocks == FilterLanguage(blocks, Some(languages[k]))
  {
    seq(|languages|, k requires 0 <= k < |languages| => Section(Some(languages[k]), FilterLanguage(blocks, Some(languages[k]))))
  }

  /** The generic section, present exactly when some block has no language. */
  function GenericSection(blocks: seq<Block>): (r: seq<Section>)
    ensures |r| <= 1
    ensures r != [] <==> exists b :: b in blocks && b.tags.language.None?
    ensures r != [] ==> r[0] == Section(None, FilterLanguage(blocks, None))
  {
    var generic := FilterLanguage(blocks, None);
    if generic != [] then
      assert generic[0] in generic;
      [Section(None, generic)]
    else []
  }

  /** The sections `generate_claude_md` writes, in order: the generic one,
      then the language sections. */
  function Sections(blocks: seq<Block>): (r: seq<Section>)
    ensures |Languages(blocks)| <= |r| <= |Languages(blocks)| + 1
    ensures |r| > |Languages(blocks)| <==> exists b :: b in blocks && b.tags.language.None?
    ensures |r| > |Languages(blocks)| ==> r[0] == Section(None, FilterLanguage(blocks, None))
  {
    GenericSection(blocks) + LanguageSections(blocks, Languages(blocks))
  }

  /** After the generic section come the language sections, one per
      language in the order `Languages` gives, each holding that language's
      blocks. */
  lemma SectionOfLanguage(blocks: seq<Block>, k: nat)
    requires k < |Languages(blocks)|
    ensures var r := Sections(blocks);
      var langs := Languages(blocks);
      r[|r| - |langs| + k] == Section(Some(langs[k]), FilterLanguage(blocks, Some(langs[k])))
  {
    var g := GenericSection(blocks);
    var tail := LanguageSections(blocks, Languages(blocks));
    assert Sections(blocks)[|g| + k] == tail[k];
  }

  /** The generic section exists exactly when a block has no language, and
      it comes before every language section. */
  lemma GeneralFirst(blocks: seq<Block>)
    ensures var r := Sections(blocks);
      && ((exists k :: 0 <= k < |r| && r[k].language.None?) <==> exists b :: b in blocks && b.tags.language.None?)
      && (forall k :: 0 <= k < |r| && r[k].language.None? ==> k == 0)
  {
    var g := GenericSection(blocks);
    var r := Sections(blocks);
    if g != [] {
      assert r[0] == g[0];
    }
  }

  /** The language sections follow in strictly ascending order of language. */
  lemma LanguagesAscending(blocks: seq<Block>)
    ensures var r := Sections(blocks);
      forall k1, k2 :: 0 <= k1 < k2 < |r| && r[k1].language.Some? ==>
        r[k2].language.Some? && StrLess(r[k1].language.value, r[k2].language.value)
  {
    var g := GenericSection(blocks);
    var tail := LanguageSections(blocks, Languages(blocks));
    var r := Sections(blocks);
    forall k1, k2 | 0 <= k1 < k2 < |r| && r[k1].language.Some?
      ensures r[k2].language.Some? && StrLess(r[k1].language.value, r[k2].language.value)
    {
      assert k1 >= |g|;
      assert r[k1] == tail[k1 - |g|] && r[k2] == tail[k2 - |g|];
    }
  }

  /** Every section holds exactly the blocks of its language, in input
      order, and is not empty; no section is for the empty language. */
  lemma SectionBlocks(blocks: seq<Block>)
    ensures var r := Sections(blocks);
      forall k :: 0 <= k < |r| ==>
        && r[k].blocks == FilterLanguage(blocks, r[k].language)
        && r[k].blocks != []
        && r[k].language != Some("")
  {
    var g := GenericSection(blocks);
    var langs := Languages(blocks);
    var tail := LanguageSections(blocks, langs);
    var r := Sections(blocks);
    forall k | 0 <= k < |r|
      ensures r[k].blocks == FilterLanguage(blocks, r[k].language)
      ensures r[k].blocks != [] && r[k].language != Some("")
    {
      if k >= |g| {
        assert r[k] == tail[k - |g|];
        var l := langs[k - |g|];
        assert l in langs;
        var i :| 0 <= i < |blocks| && blocks[i].tags.language == Some(l);
        assert blocks[i] in FilterLanguage(blocks, Some(l));
      } else {
        assert r[k] == g[0];
      }
    }
  }

  /** Each block with no language or a non-empty one is in exactly one
      section; a block tagged with the empty language is in none. */
  lemma SectionsPartition(blocks: seq<Block>, b: Block)
    requires b in blocks
    ensures var r := Sections(blocks);
      && (b.tags.language == Some("") ==> forall k :: 0 <= k < |r| ==> b !in r[k].blocks)
      && (b.tags.language != Some("") ==>
            exists k :: 0 <= k < |r| && b in r[k].blocks
                     && forall k' :: 0 <= k' < |r| && b in r[k'].blocks ==> k' == k)
  {
    SectionBlocks(blocks);
    LanguagesAscending(blocks);
    GeneralFirst(blocks);
    var g := GenericSection(blocks);
    var langs := Languages(blocks);
    var tail := LanguageSections(blocks, langs);
    var r := Sections(blocks);
    if b.tags.language != Some("") {
      var k: int;
      if b.tags.language.None? {
        k := 0;
        assert r[0] == g[0];
      } else {
        var l := b.tags.language.value;
        var i :| 0 <= i < |blocks| && blocks[i] == b;
        assert HasLanguage(blocks, l);
        var j :| 0 <= j < |langs| && langs[j] == l;
        k := |g| + j;
        assert r[k] == tail[j];
      }
      assert b in r[k].blocks;
      forall k' | 0 <= k' < |r| && b in r[k'].blocks
        ensures k' == k
      {
        if k' != k {
          assert r[k'].language == b.tags.language == r[k].language;
          if k' < k {
            StrLessIrreflexive(r[k].language.value);
          } else {
            StrLessIrreflexive(r[k'].language.value);
          }
        }
      }
    }
  }

  /** Grouping keeps input order: the blocks of one language from a
      concatenation are those of each part in turn. */
  lemma {:induction false} FilterLanguageAppend(a: seq<Block>, b: seq<Block>, language: Option<string>)
    ensures FilterLanguage(a + b, language) == FilterLanguage(a, language) + FilterLanguage(b, language)
    decreases |a|
  {
    if |a| == 0 {
      assert a + b == b;
    } else {
      assert (a + b)[1..] == a[1..] + b;
      FilterLanguageAppend(a[1..], b, language);
    }
  }

  /** The first line of the document. */
  const Title: string := "# Project Guidelines"

  /** The lines of a section's entries: the "### id" heading, a blank line,
      the content and a blank line for each block. */
  function EntryLines(blocks: seq<Block>): (r: seq<string>)
    ensures |r| == 4 * |blocks|
    decreases |blocks|
  {
    if |blocks| == 0 then []
    else ["### " + blocks[0].id, "", blocks[0].content, ""] + EntryLines(blocks[1..])
  }

  /** The entry of the k-th block of a section starts at line 4k. */
  lemma {:induction false} EntryLinesAt(blocks: seq<Block>, k: nat)
    requires k < |blocks|
    ensures var r := EntryLines(blocks);
      r[4 * k] == "### " + blocks[k].id && r[4 * k + 1] == "" && r[4 * k + 2] == blocks[k].content && r[4 * k + 3] == ""
    decreases k
  {
    if k > 0 {
      EntryLinesAt(blocks[1..], k - 1);
      var head: seq<string> := ["### " + blocks[0].id, "", blocks[0].content, ""];
      assert EntryLines(blocks) == head + EntryLines(blocks[1..]);
      assert 4 * k == 4 + 4 * (k - 1);
    }
  }

  /** The lines of one section: its "## " heading, a blank line, then the entries. */
  function SectionLines(s: Section): (r: seq<string>)
    ensures |r| == 2 + 4 * |s.blocks|
    ensures r[0] == "## " + Heading(s) && r[1] == ""
    ensures r[2..] == EntryLines(s.blocks)
  {
    ["## " + Heading(s), ""] + EntryLines(s.blocks)
  }

  /** The lines of the sections, one after another. */
  function AllSectionLines(sections: seq<Section>): seq<string>
    decreases |sections|
  {
    if |sections| == 0 then [] else SectionLines(sections[0]) + AllSectionLines(sections[1..])
  }

  /** The lines of the k-th section are among the lines of all sections. */
  lemma {:induction false} AllSectionLinesHas(sections: seq<Section>, k: nat, j: nat)
    requires k < |sections| && j < |SectionLines(sections[k])|
    ensures SectionLines(sections[k])[j] in AllSectionLines(sections)
    decreases k
  {
    var first := SectionLines(sections[0]);
    assert AllSectionLines(sections) == first + AllSectionLines(sections[1..]);
    if k == 0 {
      assert first[j] in first;
    } else {
      assert sections[1..][k - 1] == sections[k];
      AllSectionLinesHas(sections[1..], k - 1, j);
    }
  }

  /** The document's lines: the title, a blank line, then the sections. */
  function Lines(blocks: seq<Block>): (r: seq<string>)
    ensures |r| >= 2 && r[0] == Title && r[1] == ""
    ensures r[2..] == AllSectionLines(Sections(blocks))
    ensures blocks == [] ==> r == [Title, ""]
  {
    [Title, ""] + AllSectionLines(Sections(blocks))
  }

  /** `generate_claude_md`: the lines joined with newlines. The document
      starts with the title line, and no blocks give the title line alone. */
  function GenerateClaudeMd(blocks: seq<Block>): (r: string)
    ensures StartsWith(r, Title + "\n")
    ensures blocks == [] ==> r == Title + "\n"
  {
    var lines := Lines(blocks);
    assert lines == [Title] + lines[1..];
    JoinCons(Title, lines[1..], "\n");
    Join(lines, "\n")
  }

  /** Every block with no language or a non-empty one has its "### id"
      heading and its content among the document's lines. */
  lemma LinesHaveEveryEntry(blocks: seq<Block>, b: Block)
    requires b in blocks && b.tags.language != Some("")
    ensures "### " + b.id in Lines(blocks) && b.content in Lines(blocks)
  {
    var r := Sections(blocks);
    SectionsPartition(blocks, b);
    var k :| 0 <= k < |r| && b in r[k].blocks;
    var i :| 0 <= i < |r[k].blocks| && r[k].blocks[i] == b;
    SectionEntryInAll(r, k, i);
    var all := Lines(blocks);
    assert all == [Title, ""] + AllSectionLines(r);
  }

  /** The heading and content of the i-th entry of the k-th section are
      among the lines of all sections. */
  lemma SectionEntryInAll(r: seq<Section>, k: nat, i: nat)
    requires k < |r| && i < |r[k].blocks|
    ensures "### " + r[k].blocks[i].id in AllSectionLines(r)
    ensures r[k].blocks[i].content in AllSectionLines(r)
  {
    var b := r[k].blocks[i];
    var lines := SectionLines(r[k]);
    EntryLinesAt(r[k].blocks, i);
    assert lines[2 + 4 * i] == "### " + b.id && lines[2 + 4 * i + 2] == b.content;
    AllSectionLinesHas(r, k, 2 + 4 * i);
    AllSectionLinesHas(r, k, 2 + 4 * i + 2);
  }

  /** The generated document names every block with no language or a
      non-empty one in a "### id" heading, and holds its content; a block
      tagged with the empty language belongs to no section. */
  lemma DocumentHasEveryEntry(blocks: seq<Block>, b: Block)
    requires b in blocks && b.tags.language != Some("")
    ensures Contains(GenerateClaudeMd(blocks), "### " + b.id)
    ensures |b.content| > 0 ==> Contains(GenerateClaudeMd(blocks), b.content)
  {
    var lines := Lines(blocks);
    LinesHaveEveryEntry(blocks, b);
    var j :| 0 <= j < |lines| && lines[j] == "### " + b.id;
    JoinContains(lines, "\n", j);
    if |b.content| > 0 {
      var j2 :| 0 <= j2 < |lines| && lines[j2] == b.content;
      JoinContains(lines, "\n", j2);
    }
  }

  /** Joining a list with a first element. */
  lemma JoinCons(x: string, xs: seq<string>, sep: string)
    requires |xs| > 0
    ensures Join([x] + xs, sep) == x + sep + Join(xs, sep)
  {
    assert ([x] + xs)[1..] == xs;
  }
}
