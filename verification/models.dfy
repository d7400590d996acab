/** The guideline records of the agent guide (devconfig-cli
    `agent_guide/models.py`): tags, committed blocks, category files,
    extraction candidates, discovery hits and dedup verdicts. */
module Models {
  import opened Wrappers

  /** An abstract clock reading; `datetime.now()` is passed in as one. */
  type Time = int

  /** The coding agent a guideline came from. */
  datatype SourceAgent = Windsurf | Cursor | Claude | Custom | Unknown

  /** The agent kinds discovery may report: every source agent but `Unknown`. */
  type AgentKind = a: SourceAgent | a != Unknown witness Claude

  /** The JSON spelling of a source agent. */
  function AgentName(a: SourceAgent): string {
    match a
    case Windsurf => "windsurf"
    case Cursor => "cursor"
    case Claude => "claude"
    case Custom => "custom"
    case Unknown => "unknown"
  }

  /** Validation of a `source_agent` string against the five-value literal
      type: only the five spellings are accepted, each naming its own kind. */
  function ParseSourceAgent(s: string): (r: Option<SourceAgent>)
    ensures r.Some? <==> s in ["windsurf", "cursor", "claude", "custom", "unknown"]
    ensures r.Some? ==> AgentName(r.value) == s
  {
    if s == "windsurf" then Some(Windsurf)
    else if s == "cursor" then Some(Cursor)
    else if s == "claude" then Some(Claude)
    else if s == "custom" then Some(Custom)
    else if s == "unknown" then Some(Unknown)
    else None
  }

  /** Validation of a discovery `agent_type`: the four-value literal type,
      which refuses "unknown". */
  function ParseAgentKind(s: string): (r: Option<AgentKind>)
    ensures r.Some? <==> s in ["windsurf", "cursor", "claude", "custom"]
    ensures r.Some? ==> AgentName(r.value) == s
  {
    match ParseSourceAgent(s)
    case Some(a) => if a == Unknown then None else Some(a)
    case None => None
  }

  /** Every source agent survives the trip through its JSON spelling. */
  lemma ParseAgentNameRoundTrip(a: SourceAgent)
    ensures ParseSourceAgent(AgentName(a)) == Some(a)
    ensures a != Unknown ==> ParseAgentKind(AgentName(a)) == Some(a)
    ensures ParseAgentKind(AgentName(a)).None? <==> a == Unknown
  {
  }

  /** Classification of a block; a language of `None` means generic, an
      empty architecture list means every architecture. */
  datatype BlockTags = BlockTags(language: Option<string>, architecture: seq<string>, scope: seq<string>)

  /** `BlockTags()` with every field defaulted. */
  const DefaultTags: BlockTags := BlockTags(None, [], [])

  /** A committed guideline. */
  datatype Block = Block(
    id: string,
    content: string,
    tags: BlockTags,
    originRepo: string,
    usedByRepos: seq<string>,
    sourceAgent: SourceAgent,
    createdAt: Time,
    updatedAt: Time)

  /** `Block(id=…, content=…, origin_repo=…)` with every optional field
      left to its default. Each timestamp's default factory reads the clock
      on its own: `created` and `updated` are those two readings. */
  function NewBlock(id: string, content: string, originRepo: string, created: Time, updated: Time): (b: Block)
    ensures b.id == id && b.content == content && b.originRepo == originRepo
    ensures b.tags.language.None? && b.tags.architecture == [] && b.tags.scope == []
    ensures b.usedByRepos == [] && b.sourceAgent == Unknown
    ensures b.createdAt == created && b.updatedAt == updated
  {
    Block(id, content, DefaultTags, originRepo, [], Unknown, created, updated)
  }

  /** The content of one category file. */
  datatype CategoryFile = CategoryFile(category: string, blocks: seq<Block>)

  /** `CategoryFile(category=…)` with the default block list. */
  function NewCategoryFile(category: string): (f: CategoryFile)
    ensures f.category == category && |f.blocks| == 0
  {
    CategoryFile(category, [])
  }

  /** A candidate guideline produced by extraction, not yet committed. */
  datatype ExtractedBlock = ExtractedBlock(
    suggestedId: string,
    content: string,
    suggestedTags: BlockTags,
    sourceAgent: SourceAgent)

  /** `ExtractedBlock(suggested_id=…, content=…, suggested_tags=…)` with the
      default source agent. */
  function NewExtractedBlock(id: string, content: string, tags: BlockTags): (e: ExtractedBlock)
    ensures e.suggestedId == id && e.content == content && e.suggestedTags == tags
    ensures e.sourceAgent == Unknown
  {
    ExtractedBlock(id, content, tags, Unknown)
  }

  /** A file discovery judged to be agent configuration. */
  datatype RelevantFile = RelevantFile(path: string, agentType: AgentKind, reason: string)

  /** A dedup verdict naming an existing block. `nuances` is optional
      whether or not the match is identical. */
  datatype DedupMatch = DedupMatch(id: string, identical: bool, nuances: Option<string>)

  /** `DedupMatch(id=…, identical=…)` with the default nuances. */
  function NewDedupMatch(id: string, identical: bool): (m: DedupMatch)
    ensures m.id == id && m.identical == identical && m.nuances.None?
  {
    DedupMatch(id, identical, None)
  }
}
