/** The agent guide commands (devconfig-cli `agent_guide/cli.py`): path
    resolution and the existence check of `collect`, the format default of
    `build`, and the filtering and rendering of `list`. */
module GuideCli {
  import opened Wrappers
  import opened Text
  import opened Models
  import opened Config
  import opened Store

  /** A path is absolute when it starts at the root. */
  predicate IsAbsolute(path: string) {
    |path| > 0 && path[0] == '/'
  }

  /** `_resolve_path`: a relative path is taken from the directory named by
      `DEVCONFIG_ORIG_CWD` when that variable is set and not empty;
      otherwise the path is resolved as given. `resolve` stands for
      `Path.resolve`, which consults the filesystem and the working
      directory. */
  function ResolvePath(path: string, origCwd: Option<string>, resolve: string -> string): (r: string)
    ensures origCwd.Some? && origCwd.value != "" && !IsAbsolute(path) ==> r == resolve(origCwd.value + "/" + path)
    ensures origCwd.None? || origCwd.value == "" || IsAbsolute(path) ==> r == resolve(path)
  {
    if origCwd.Some? && origCwd.value != "" && !IsAbsolute(path) then resolve(origCwd.value + "/" + path)
    else resolve(path)
  }

  /** An absolute path does not depend on the variable, and an empty
      variable is the same as an unset one. */
  lemma ResolvePathEnvironment(path: string, e1: Option<string>, e2: Option<string>, resolve: string -> string)
    ensures IsAbsolute(path) ==> ResolvePath(path, e1, resolve) == ResolvePath(path, e2, resolve)
    ensures ResolvePath(path, Some(""), resolve) == ResolvePath(path, None, resolve)
  {
  }

  /** What `collect` does: exit with a status, or run the collector on the
      resolved directory. */
  datatype CollectOutcome = ExitStatus(code: int) | RunCollector(repoPath: string, repoName: string, dryRun: bool)

  /** `collect_guide`: a resolved path that does not exist exits with
      status 1 before any collector is built; otherwise the collector runs
      on it, named after its last component. */
  function Collect(path: string, dryRun: bool, origCwd: Option<string>, resolve: string -> string, pathExists: string -> bool): (r: CollectOutcome)
    ensures r == ExitStatus(1) <==> !pathExists(ResolvePath(path, origCwd, resolve))
    ensures r.RunCollector? ==> r.repoPath == ResolvePath(path, origCwd, resolve) && r.dryRun == dryRun
    ensures r.RunCollector? ==> '/' !in r.repoName
  {
    var resolved := ResolvePath(path, origCwd, resolve);
    if !pathExists(resolved) then ExitStatus(1)
    else RunCollector(resolved, FileName(resolved), dryRun)
  }

  /** The format used when `build` is given none. */
  const DefaultFormats: seq<string> := ["claude"]

  /** `formats or ["claude"]`: a missing or empty list of formats means
      claude alone; a given list is kept as it is. */
  function BuildFormats(formats: Option<seq<string>>): (r: seq<string>)
    ensures |r| > 0
    ensures formats.Some? && formats.value != [] ==> r == formats.value
    ensures formats.None? || formats.value == [] ==> r == ["claude"]
  {
    if formats.Some? && formats.value != [] then formats.value else DefaultFormats
  }

  /** The language filter of `list`: "generic" selects the blocks without a
      language, any other name the blocks tagged with it. */
  function LanguageFilter(language: string): (r: Option<string>)
    ensures r.None? <==> language == "generic"
    ensures r.Some? ==> r.value == language
  {
    if language == "generic" then None else Some(language)
  }

  /** The blocks `list` shows: those of the category (all of them when none
      or the empty one is given), narrowed by a non-empty language option. */
  function ListedBlocks(db: Db, order: seq<string>, category: Option<string>, language: Option<string>): (r: seq<Block>)
    requires IsListing(db, order)
    ensures language.Some? && language.value != "" ==>
      forall b :: b in r <==> b in GetAllBlocks(db, order, category) && b.tags.language == LanguageFilter(language.value)
    ensures language.None? || language.value == "" ==> r == GetAllBlocks(db, order, category)
  {
    var blocks := GetAllBlocks(db, order, category);
    if language.Some? && language.value != "" then FilterLanguage(blocks, LanguageFilter(language.value))
    else blocks
  }

  /** Every listed block has the requested language; "generic" never lists
      a block that has one. */
  lemma ListedLanguage(db: Db, order: seq<string>, category: Option<string>, language: string, b: Block)
    requires IsListing(db, order) && language != ""
    requires b in ListedBlocks(db, order, category, Some(language))
    ensures language == "generic" ==> b.tags.language.None?
    ensures language != "generic" ==> b.tags.language == Some(language)
  {
  }

  /** How many characters of the content the preview shows. */
  const PreviewLimit: nat := 80

  /** The preview line: the first 80 characters with newlines turned into
      spaces, and "..." when the content is longer. */
  function Preview(content: string): (r: string)
    ensures '\n' !in r
    ensures |r| <= PreviewLimit + 3
    ensures |r| == PreviewLimit + 3 <==> |content| > PreviewLimit
    ensures |content| <= PreviewLimit ==> |r| == |content|
    ensures |content| > PreviewLimit ==> r[PreviewLimit..] == "..."
    ensures forall i :: 0 <= i < |r| && i < |content| && i < PreviewLimit ==>
      r[i] == if content[i] == '\n' then ' ' else content[i]
  {
    var head := ReplaceChar(Prefix(content, PreviewLimit), '\n', ' ');
    if |content| > PreviewLimit then
      assert '\n' !in "...";
      head + "..."
    else head
  }

  /** The preview of a short content with no newline is the content itself. */
  lemma PreviewShort(content: string)
    requires |content| <= PreviewLimit && '\n' !in content
    ensures Preview(content) == content
  {
  }

  /** The repository column: the users joined with ", ", or the origin when
      the block has no users. */
  function ReposColumn(b: Block): (r: string)
    ensures b.usedByRepos == [] ==> r == b.originRepo
    ensures b.usedByRepos != [] ==> r == Join(b.usedByRepos, ", ")
  {
    if b.usedByRepos != [] then Join(b.usedByRepos, ", ") else b.originRepo
  }

  /** One listed block: its language label ("generic" when it has none or
      an empty one), id, repositories and preview. */
  datatype Entry = Entry(language: string, id: string, repos: string, preview: string)

  function EntryOf(b: Block): (e: Entry)
    ensures e.id == b.id && e.repos == ReposColumn(b) && e.preview == Preview(b.content)
    ensures e.language == "generic" <==> b.tags.language in {None, Some(""), Some("generic")}
    ensures b.tags.language.Some? && b.tags.language.value != "" ==> e.language == b.tags.language.value
  {
    var language := match b.tags.language
      case Some(l) => if l != "" then l else "generic"
      case None => "generic";
    Entry(language, b.id, ReposColumn(b), Preview(b.content))
  }

  /** What `list` prints: a notice when nothing matches, otherwise one entry
      per listed block, in order. */
  datatype ListOutput = NoBlocksFound | Listing(entries: seq<Entry>)

  function ListBlocks(db: Db, order: seq<string>, category: Option<string>, language: Option<string>): (r: ListOutput)
    requires IsListing(db, order)
    ensures r.NoBlocksFound? <==> ListedBlocks(db, order, category, language) == []
    ensures r.Listing? ==> |r.entries| == |ListedBlocks(db, order, category, language)|
    ensures r.Listing? ==> forall i :: 0 <= i < |r.entries| ==>
      r.entries[i] == EntryOf(ListedBlocks(db, order, category, language)[i])
  {
    var blocks := ListedBlocks(db, order, category, language);
    if blocks == [] then NoBlocksFound
    else Listing(seq(|blocks|, i requires 0 <= i < |blocks| => EntryOf(blocks[i])))
  }
}
