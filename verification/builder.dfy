/** The builder application (devconfig-cli `agent_guide/tui/app.py`,
    `AgentGuideApp`): the blocks offered for the chosen preferences, the
    blocks picked by id, one generation per output format and the file
    each format is written to. */
module Builder {
  import opened Wrappers
  import opened Models
  import opened Store
  import opened Runner
  import opened Text

  /** The preferences the first screen hands back; a missing key is `None`. */
  datatype Preferences = Preferences(architecture: Option<string>, languages: Option<seq<string>>)

  /** The architecture assumed when the preferences name none. */
  const DefaultArchitecture: string := "clean-architecture"

  /** The category always offered, ahead of the chosen languages. */
  const GenericCategory: string := "generic"

  /** The categories looked at: "generic", then the chosen languages. */
  function OfferedCategories(prefs: Preferences): (r: seq<string>)
    ensures |r| >= 1 && r[0] == GenericCategory
    ensures r[1..] == prefs.languages.GetOr([])
  {
    [GenericCategory] + prefs.languages.GetOr([])
  }

  /** The blocks of one category that apply to the architecture. */
  function Offered(db: Db, order: seq<string>, category: string, architecture: string): (r: seq<Block>)
    requires IsListing(db, order)
    ensures category != "" ==>
      forall b :: b in r <==> b in Load(db, category) && ArchitectureMatches(b, architecture)
  {
    FilterArchitecture(GetAllBlocks(db, order, Some(category)), architecture)
  }

  /** `blocks_by_category` over a list of categories: a category is a key
      exactly when it is listed and offers some block. */
  function BlocksByCategory(db: Db, order: seq<string>, categories: seq<string>, architecture: string): (r: map<string, seq<Block>>)
    requires IsListing(db, order)
    ensures forall c :: c in r <==> c in categories && Offered(db, order, c, architecture) != []
    ensures forall c :: c in r ==> r[c] == Offered(db, order, c, architecture)
    decreases |categories|
  {
    if |categories| == 0 then map[]
    else
      var earlier := BlocksByCategory(db, order, categories[..|categories| - 1], architecture);
      var c := categories[|categories| - 1];
      var blocks := Offered(db, order, c, architecture);
      assert categories == categories[..|categories| - 1] + [c];
      if blocks != [] then earlier[c := blocks] else earlier
  }

  /** `_show_block_selection`: the selection screen's blocks, or `None` when
      no offered category has a block (the application then exits). */
  function ShowBlockSelection(db: Db, order: seq<string>, prefs: Preferences): (r: Option<map<string, seq<Block>>>)
    requires IsListing(db, order)
    ensures r.None? <==>
      forall c :: c in OfferedCategories(prefs) ==> Offered(db, order, c, prefs.architecture.GetOr(DefaultArchitecture)) == []
    ensures r.Some? ==> GenericCategory in r.value ==> r.value[GenericCategory] != []
  {
    var m := BlocksByCategory(db, order, OfferedCategories(prefs), prefs.architecture.GetOr(DefaultArchitecture));
    if |m| == 0 then None else Some(m)
  }

  /** A non-empty category of the selection screen offers exactly the
      blocks of that category applying to the architecture: each block
      whose architecture list is empty or names it. */
  lemma SelectionMembership(db: Db, order: seq<string>, prefs: Preferences, c: string, b: Block)
    requires IsListing(db, order) && c != ""
    requires ShowBlockSelection(db, order, prefs).Some?
    requires c in ShowBlockSelection(db, order, prefs).value
    ensures b in ShowBlockSelection(db, order, prefs).value[c] <==>
      b in Load(db, c) && (|b.tags.architecture| == 0 || prefs.architecture.GetOr(DefaultArchitecture) in b.tags.architecture)
  {
  }

  /** A generic block applying to the architecture always reaches the
      selection screen. */
  lemma GenericBlockOffered(db: Db, order: seq<string>, prefs: Preferences, b: Block)
    requires IsListing(db, order)
    requires b in Load(db, GenericCategory)
    requires ArchitectureMatches(b, prefs.architecture.GetOr(DefaultArchitecture))
    ensures ShowBlockSelection(db, order, prefs).Some?
    ensures GenericCategory in ShowBlockSelection(db, order, prefs).value
    ensures b in ShowBlockSelection(db, order, prefs).value[GenericCategory]
  {
    var arch := prefs.architecture.GetOr(DefaultArchitecture);
    assert b in Offered(db, order, GenericCategory, arch);
    assert GenericCategory in OfferedCategories(prefs);
  }

  /** `_on_block_selection_done`: the stored blocks whose id was ticked,
      in store order. */
  function SelectBlocks(all: seq<Block>, ids: seq<string>): (r: seq<Block>)
    ensures |r| <= |all|
    ensures forall b :: b in r <==> b in all && b.id in ids
    decreases |all|
  {
    if |all| == 0 then []
    else
      var rest := SelectBlocks(all[1..], ids);
      if all[0].id in ids then [all[0]] + rest else rest
  }

  /** Ticking every stored id selects every block, in order. */
  lemma {:induction false} SelectEveryId(all: seq<Block>, ids: seq<string>)
    requires forall b :: b in all ==> b.id in ids
    ensures SelectBlocks(all, ids) == all
    decreases |all|
  {
    if |all| > 0 {
      assert all[0] in all;
      forall b | b in all[1..]
        ensures b.id in ids
      {
        assert b in all;
      }
      SelectEveryId(all[1..], ids);
      assert all == [all[0]] + all[1..];
    }
  }

  /** Selection keeps store order: it is the same as selecting from each
      part of the list in turn. */
  lemma {:induction false} SelectAppend(a: seq<Block>, b: seq<Block>, ids: seq<string>)
    ensures SelectBlocks(a + b, ids) == SelectBlocks(a, ids) + SelectBlocks(b, ids)
    decreases |a|
  {
    if |a| == 0 {
      assert a + b == b;
    } else {
      assert (a + b)[1..] == a[1..] + b;
      SelectAppend(a[1..], b, ids);
    }
  }

  /** The directory layout of each output format. */
  const ClaudeFile: string := "CLAUDE.md"
  const CursorFile: string := ".cursor/rules/devconfig-rules.mdc"
  const WindsurfFile: string := ".windsurf/rules/devconfig-rules.md"

  /** The file of a format inside the output directory; a format other
      than the three known ones writes `agent-guide-<format>.md`. */
  function OutputName(format: string): (r: string)
    ensures format == "claude" ==> r == ClaudeFile
    ensures format == "cursor" ==> r == CursorFile
    ensures format == "windsurf" ==> r == WindsurfFile
    ensures format !in {"claude", "cursor", "windsurf"} ==> r == "agent-guide-" + format + ".md"
  {
    if format == "claude" then ClaudeFile
    else if format == "cursor" then CursorFile
    else if format == "windsurf" then WindsurfFile
    else "agent-guide-" + format + ".md"
  }

  /** `_get_output_path`. */
  function OutputPath(outputDir: string, format: string): (r: string)
    ensures StartsWith(r, outputDir + "/")
    ensures format == "claude" ==> r == outputDir + "/" + ClaudeFile
    ensures format == "cursor" ==> r == outputDir + "/" + CursorFile
    ensures format == "windsurf" ==> r == outputDir + "/" + WindsurfFile
    ensures format !in {"claude", "cursor", "windsurf"} ==> r == outputDir + "/agent-guide-" + format + ".md"
  {
    var dir := outputDir + "/";
    var name := OutputName(format);
    assert (dir + name)[..|dir|] == dir;
    assert dir + ("agent-guide-" + format + ".md") == outputDir + "/agent-guide-" + format + ".md";
    dir + name
  }

  /** A generic name differs from each fixed one at its first character. */
  lemma GenericNameNotFixed(format: string)
    ensures ("agent-guide-" + format + ".md")[0] == 'a'
    ensures ("agent-guide-" + format + ".md") !in {ClaudeFile, CursorFile, WindsurfFile}
  {
    var g := "agent-guide-" + format + ".md";
    assert g[0] == 'a';
    assert ClaudeFile[0] == 'C' && CursorFile[0] == '.' && WindsurfFile[0] == '.';
  }

  /** The generic name determines its format. */
  lemma GenericNameInjective(f1: string, f2: string)
    requires "agent-guide-" + f1 + ".md" == "agent-guide-" + f2 + ".md"
    ensures f1 == f2
  {
    var g1 := "agent-guide-" + f1 + ".md";
    var g2 := "agent-guide-" + f2 + ".md";
    assert |f1| == |f2|;
    assert f1 == g1[12..12 + |f1|];
    assert f2 == g2[12..12 + |f2|];
  }

  /** Distinct formats never share an output file. */
  lemma OutputPathInjective(outputDir: string, f1: string, f2: string)
    requires OutputPath(outputDir, f1) == OutputPath(outputDir, f2)
    ensures f1 == f2
  {
    var n1 := OutputName(f1);
    var n2 := OutputName(f2);
    var p := outputDir + "/";
    assert OutputPath(outputDir, f1) == p + n1;
    assert OutputPath(outputDir, f2) == p + n2;
    assert n1 == (p + n1)[|p|..];
    assert n2 == (p + n2)[|p|..];
    GenericNameNotFixed(f1);
    GenericNameNotFixed(f2);
    if f1 !in {"claude", "cursor", "windsurf"} && f2 !in {"claude", "cursor", "windsurf"} {
      GenericNameInjective(f1, f2);
    }
  }

  /** The outcome of one format: the file it is meant for and either the
      generated content or the agent's error. */
  datatype Generated = Generated(format: string, path: string, content: Result<string, AgentError>)

  /** `_generate_output`: one generation per format, in order; a failing
      format is reported and the remaining ones still run. */
  function GenerateAll(outputDir: string, blocks: seq<Block>, formats: seq<string>, agent: Prompt -> AgentReply): (r: seq<Generated>)
    ensures |r| == |formats|
    ensures forall i :: 0 <= i < |formats| ==>
      && r[i].format == formats[i]
      && r[i].path == OutputPath(outputDir, formats[i])
      && (r[i].content.Success? <==> agent(Generation(formats[i], blocks, InstructionsFor(formats[i]))).returnCode == 0)
      && (r[i].content.Success? ==>
            r[i].content.value == Strip(agent(Generation(formats[i], blocks, InstructionsFor(formats[i]))).stdout))
      && (r[i].content.Failure? ==>
            r[i].content.error == AgentUnavailable(agent(Generation(formats[i], blocks, InstructionsFor(formats[i]))).stderr))
    decreases |formats|
  {
    if |formats| == 0 then []
    else
      [Generated(formats[0], OutputPath(outputDir, formats[0]), GenerateOutput(blocks, formats[0], agent).result)]
      + GenerateAll(outputDir, blocks, formats[1..], agent)
  }

  /** The outcome of a format does not depend on the formats around it. */
  lemma {:induction false} GenerateAllAppend(outputDir: string, blocks: seq<Block>, a: seq<string>, b: seq<string>, agent: Prompt -> AgentReply)
    ensures GenerateAll(outputDir, blocks, a + b, agent) == GenerateAll(outputDir, blocks, a, agent) + GenerateAll(outputDir, blocks, b, agent)
    decreases |a|
  {
    if |a| == 0 {
      assert a + b == b;
    } else {
      assert (a + b)[1..] == a[1..] + b;
      GenerateAllAppend(outputDir, blocks, a[1..], b, agent);
    }
  }

  /** Where the builder goes next. */
  datatype BuilderStep =
    | ExitBuilder
    | ShowPreferences
    | ShowSelection(blocksByCategory: map<string, seq<Block>>)
    | Done(outcomes: seq<Generated>)

  /** `_on_preferences_done`: a cancelled screen exits, otherwise the
      selection is shown, or the application exits when it would be empty. */
  function OnPreferencesDone(db: Db, order: seq<string>, prefs: Option<Preferences>): (r: BuilderStep)
    requires IsListing(db, order)
    ensures prefs.None? ==> r == ExitBuilder
    ensures r.ShowSelection? || r == ExitBuilder
    ensures prefs.Some? ==> (r.ShowSelection? <==> ShowBlockSelection(db, order, prefs.value).Some?)
  {
    match prefs
    case None => ExitBuilder
    case Some(p) =>
      match ShowBlockSelection(db, order, p)
      case None => ExitBuilder
      case Some(m) => ShowSelection(m)
  }

  /** `_on_block_selection_done`: going back reopens the preferences;
      otherwise every format is generated from the ticked blocks of the
      whole store. */
  function OnSelectionDone(
    db: Db, order: seq<string>, selectedIds: Option<seq<string>>,
    outputDir: string, formats: seq<string>, agent: Prompt -> AgentReply): (r: BuilderStep)
    requires IsListing(db, order)
    ensures selectedIds.None? <==> r == ShowPreferences
    ensures selectedIds.Some? ==> r.Done? && |r.outcomes| == |formats|
    ensures selectedIds.Some? ==> forall i :: 0 <= i < |formats| ==>
      r.outcomes[i].path == OutputPath(outputDir, formats[i])
    ensures selectedIds.Some? ==>
      r.outcomes == GenerateAll(outputDir, SelectBlocks(GetAllBlocks(db, order, None), selectedIds.value), formats, agent)
  {
    match selectedIds
    case None => ShowPreferences
    case Some(ids) =>
      var chosen := SelectBlocks(GetAllBlocks(db, order, None), ids);
      Done(GenerateAll(outputDir, chosen, formats, agent))
  }
}
