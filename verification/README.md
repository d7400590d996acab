# devconfig core, modelled in Dafny

This project models the core of the devconfig tool collection. It covers three parts:

- **The agent guide.** This is a store of coding-agent guidelines kept as one JSON file per category.
  - A collector asks an external `claude` agent which files of a repository are agent configuration and extracts guideline blocks from them. The user then reviews each block, which is checked against the store for duplicates and saved.
  - A builder lets the user pick blocks by language and architecture, and has the agent write `CLAUDE.md`, Cursor or Windsurf rule files.
  - A plain generator writes `CLAUDE.md` without the agent.
  - A command line ties these together.
- **The clipboard history of clippy.** It keeps at most fifty entries, newest first, with no immediate repeats. Picker titles are cut to sixty characters.
- **The full-stack worktree script.** It numbers worktrees "FST-<n>", picks the next number and finds the previous worktree to copy files from.

Everything is pure functions over immutable data. The things the programs do outside themselves come in as parameters:

- the agent process is a function from prompt to reply;
- `json.loads` and pydantic validation are partial functions;
- the store directory is a map from category stem to blocks, with its listing order given separately;
- clock readings, the working directory variable, `Path.resolve` and path existence are parameters;
- directory listings and `git branch` output are lists.

Exceptions become `Result`/`Option` values. Agent operations return the list of prompts they sent, so "no agent call" and "exactly one retry" can be stated.

The Textual applications are modelled as state machines:

- **Collector:** a `Collector` record and a `Step` function over the events its screens can produce.
- **Builder:** the three callbacks.

Files:

| file | module | models |
|---|---|---|
| wrappers.dfy | Wrappers | `Option`, `Result` |
| text.dfy | Text | the Python string operations used: `strip`, `find`, `split`, `join`, slicing, digits, `capitalize`, string order |
| models.dfy | Models | `agent_guide/models.py` |
| config.dfy | Config | `agent_guide/config.py` |
| store.dfy | Store | `agent_guide/db/store.py` |
| runner.dfy | Runner | `agent_guide/agents/runner.py` |
| review.dfy | Review | `agent_guide/tui/screens/review.py` |
| collector.dfy | Collector | `CollectorApp` in `agent_guide/tui/app.py` |
| builder.dfy | Builder | `AgentGuideApp` in `agent_guide/tui/app.py` |
| claude_gen.dfy | ClaudeGen | `agent_guide/generators/claude_gen.py` |
| guide_cli.dfy | GuideCli | `agent_guide/cli.py` |
| clip_storage.dfy | ClipStorage | `clippy/storage.py` |
| picker.dfy | Picker | `_truncate` in `clippy/picker.py` |
| worktree.dfy | Worktree | `workspaces/kpler/create-fullstack-wt.py` |

## Model

| member | source | states |
|---|---|---|
| Models.ParseSourceAgent | devconfig-cli/devconfig/agent_guide/models.py:24 | only the five literal spellings validate, each to the agent it names |
| Models.ParseAgentKind | devconfig-cli/devconfig/agent_guide/models.py:49 | a discovery agent type validates for the four kinds and refuses "unknown" |
| Models.NewBlock | devconfig-cli/devconfig/agent_guide/models.py:16-26 | a block built from id, content and origin has default tags, no users, the "unknown" agent, and its two timestamps are the two clock readings its default factories take |
| Models.NewExtractedBlock | devconfig-cli/devconfig/agent_guide/models.py:36-42 | a candidate built without a source agent gets "unknown" |
| Models.NewDedupMatch | devconfig-cli/devconfig/agent_guide/models.py:53-58 | a dedup verdict without nuances has none |
| Config.CategoryFileStem | devconfig-cli/devconfig/agent_guide/config.py:26-28 | the stem of a category's file path gives back the category, so the store's glob finds every category it wrote |
| Config.CategoryFilePathInjective | devconfig-cli/devconfig/agent_guide/config.py:26-28 | distinct categories never share a file |
| Store.AddBlock | devconfig-cli/devconfig/agent_guide/db/store.py:54-63 | fails with a duplicate-id error exactly when the id is in the category; otherwise appends the block there and changes no other category |
| Store.UpdateBlock | devconfig-cli/devconfig/agent_guide/db/store.py:65-76 | fails with not-found exactly when the id is absent; otherwise replaces the first block with that id by the new block stamped with the clock, changing nothing else |
| Store.DeleteBlock | devconfig-cli/devconfig/agent_guide/db/store.py:78-82 | the category keeps exactly its blocks with other ids, in order; other categories are unchanged |
| Store.DeleteAbsentIsNoop | devconfig-cli/devconfig/agent_guide/db/store.py:78-82 | deleting an id that is not there changes no category's blocks |
| Store.RemoveIdAppend | devconfig-cli/devconfig/agent_guide/db/store.py:81 | the deletion filter keeps the relative order of the surviving blocks |
| Store.AddRepoUsage | devconfig-cli/devconfig/agent_guide/db/store.py:84-96 | fails with not-found exactly when the id is absent; otherwise appends the repo to the first matching block's users only when missing, and re-stamps it only then |
| Store.AddRepoUsageCount | devconfig-cli/devconfig/agent_guide/db/store.py:88-93 | afterwards the repo is listed exactly once if it was absent, and the count is unchanged if it was present |
| Store.AddRepoUsageIdempotent | devconfig-cli/devconfig/agent_guide/db/store.py:88-93 | recording the same repo twice equals recording it once |
| Store.AddToMissingCategory | devconfig-cli/devconfig/agent_guide/db/store.py:17-21 | a category without a file loads as empty, so any block can be added to it |
| Store.AddBlockKeepsValid | devconfig-cli/devconfig/agent_guide/db/store.py:54-63 | adding keeps ids unique within every category |
| Store.UpdateBlockKeepsValid | devconfig-cli/devconfig/agent_guide/db/store.py:65-76 | updating keeps ids unique within every category |
| Store.DeleteBlockKeepsValid | devconfig-cli/devconfig/agent_guide/db/store.py:78-82 | deleting keeps ids unique within every category |
| Store.AddRepoUsageKeepsValid | devconfig-cli/devconfig/agent_guide/db/store.py:84-96 | recording a repo keeps ids unique within every category |
| Store.AllBlocks | devconfig-cli/devconfig/agent_guide/db/store.py:38-45 | the unfiltered listing holds exactly the blocks of every category other than "schema" |
| Store.GetAllBlocks | devconfig-cli/devconfig/agent_guide/db/store.py:33-45 | a non-empty category loads only that category; a missing or empty one lists everything |
| Store.GetBlock | devconfig-cli/devconfig/agent_guide/db/store.py:47-52 | finds a block exactly when some stored block has the id; the one found is the first with that id in listing order |
| Store.GetBlocksByLanguage | devconfig-cli/devconfig/agent_guide/db/store.py:98-100 | exactly the stored blocks whose language tag equals the request, with `None` meaning generic |
| Store.GetBlocksByArchitecture | devconfig-cli/devconfig/agent_guide/db/store.py:102-107 | exactly the stored blocks that name the architecture or name none |
| Store.GetCategories | devconfig-cli/devconfig/agent_guide/db/store.py:109-111 | exactly the stems present other than "schema" |
| Runner.RunAgent | devconfig-cli/devconfig/agent_guide/agents/runner.py:19-28 | one request; a non-zero exit is an error carrying stderr, otherwise the result is the whitespace-stripped standard output |
| Runner.StripFence | devconfig-cli/devconfig/agent_guide/agents/runner.py:34-48 | text without a fence is untouched, and anything it changes comes out stripped and no longer |
| Runner.JsonFenceUnwraps | devconfig-cli/devconfig/agent_guide/agents/runner.py:36-40 | the body of a closed "```json" fence is what is kept, stripped, whatever follows the fence |
| Runner.UnclosedJsonFenceKept | devconfig-cli/devconfig/agent_guide/agents/runner.py:36-40 | a "```json" fence that never closes leaves the text as it was |
| Runner.PlainFenceUnwraps | devconfig-cli/devconfig/agent_guide/agents/runner.py:41-48 | a plain fence whose first line is under 15 characters loses that line together with the fence |
| Runner.LongInfoLineKept | devconfig-cli/devconfig/agent_guide/agents/runner.py:41-48 | a first line of 15 or more characters stays in the body |
| Runner.SeekJson | devconfig-cli/devconfig/agent_guide/agents/runner.py:50-60 | drops exactly the text before the first brace or bracket, and nothing when the text opens with one or holds none |
| Runner.ExtractJsonText | devconfig-cli/devconfig/agent_guide/agents/runner.py:32-60 | the text handed to the parser is a tail of the fence-stripped response starting at its first brace or bracket; an unfenced response that opens with one, or holds none, is passed whole |
| Runner.ParseJson | devconfig-cli/devconfig/agent_guide/agents/runner.py:30-78 | parsable extracted text is the result with no request; otherwise one corrective request quoting the first 2000 characters, whose answer is the result when it parses, an agent failure when the request fails, and a malformed-response error quoting 500 characters when it does not parse; a retry never asks again |
| Runner.ParseFailsAfterOneRetry | devconfig-cli/devconfig/agent_guide/agents/runner.py:62-78 | two unparsable answers give a malformed-response error after exactly one corrective request |
| Runner.ParseRetryAgentFailure | devconfig-cli/devconfig/agent_guide/agents/runner.py:62-78 | a failing corrective request is reported as an agent failure and not retried |
| Runner.FencedJsonParsesDirectly | devconfig-cli/devconfig/agent_guide/agents/runner.py:30-63 | a response that is a "```json" fence around an object or array parses as that object or array, with no extra request |
| Runner.Previews | devconfig-cli/devconfig/agent_guide/agents/runner.py:83-92 | previews exist exactly when some readable file not named ".git…" does, each at most 500 characters |
| Runner.PreviewOf | devconfig-cli/devconfig/agent_guide/agents/runner.py:88-90 | a file's preview is its path and its first 500 characters: all of a shorter text, exactly the first 500 of a longer one |
| Runner.PreviewsOne | devconfig-cli/devconfig/agent_guide/agents/runner.py:84-92 | a single file gives its preview exactly when it is previewable |
| Runner.PreviewsAppend | devconfig-cli/devconfig/agent_guide/agents/runner.py:84-92 | previews keep the walk order |
| Runner.PreviewsMembers | devconfig-cli/devconfig/agent_guide/agents/runner.py:84-92 | a preview is sent for a file exactly when it is a readable file not named ".git…" |
| Runner.FirstPreviews | devconfig-cli/devconfig/agent_guide/agents/runner.py:98 | the request carries the first 50 previews, or all when fewer |
| Runner.Ask | devconfig-cli/devconfig/agent_guide/agents/runner.py:101-104 | one request and at most one corrective request; a failing process is reported at once; the result is the validated parse of the answer, and a payload that does not validate is an invalid-payload error |
| Runner.DiscoverFiles | devconfig-cli/devconfig/agent_guide/agents/runner.py:80-104 | no previewable file means an empty result and no request; otherwise one discovery request carrying the first 50 previews, and the result is the validated parse of the answer |
| Runner.ExtractBlocks | devconfig-cli/devconfig/agent_guide/agents/runner.py:106-120 | one extraction request for the file; the result is the validated block list of the answer, each block restamped with the caller's source agent |
| Runner.CheckDedup | devconfig-cli/devconfig/agent_guide/agents/runner.py:122-145 | an empty category means no match and no request; otherwise one request listing every existing id and content, where a null or missing match is "no match" and any other is the validated match |
| Runner.InstructionsFor | devconfig-cli/devconfig/agent_guide/agents/runner.py:157-159 | "cursor" and "windsurf" get their own instructions and every other format the claude ones |
| Runner.GenerateOutput | devconfig-cli/devconfig/agent_guide/agents/runner.py:147-167 | exactly one generation request, whose stripped answer is the content, with no JSON parsing |
| Review.InitialForm | devconfig-cli/devconfig/agent_guide/tui/screens/review.py:85-107 | the form shows the id and content; "generic" exactly when the language is missing or empty, and any other language shown as given; "any" exactly when no architecture is given, else the first; the scope joined with ", " |
| Review.ParseScope | devconfig-cli/devconfig/agent_guide/tui/screens/review.py:126 | the tags are exactly the non-empty stripped comma-separated pieces, each comma-free and stripped |
| Review.CleanMembers | devconfig-cli/devconfig/agent_guide/tui/screens/review.py:126 | the cleaned tags are exactly the non-empty stripped pieces |
| Review.CleanAppend | devconfig-cli/devconfig/agent_guide/tui/screens/review.py:126 | cleaning keeps the order of the pieces |
| Review.ParseScopeJoin | devconfig-cli/devconfig/agent_guide/tui/screens/review.py:106-126 | a list of clean tags joined with ", " parses back to the same list |
| Review.EditedBlock | devconfig-cli/devconfig/agent_guide/tui/screens/review.py:116-136 | "generic" becomes no language and any other label that language; "any" becomes no architecture and any other choice the one-element list of it; the scope is the parse of the scope input; the source agent is reset to "unknown" |
| Review.UnchangedFormRoundTrip | devconfig-cli/devconfig/agent_guide/tui/screens/review.py:85-136 | accepting an untouched form returns the candidate exactly when it is already in the screen's normal form |
| Review.OnButton | devconfig-cli/devconfig/agent_guide/tui/screens/review.py:138-146 | accept dismisses with the edited block, skip dismisses without one, edit keeps the screen open |
| Collector.CategoryOf | devconfig-cli/devconfig/agent_guide/tui/app.py:268 | the category is the non-empty language, otherwise "generic" |
| Collector.ExtractAll | devconfig-cli/devconfig/agent_guide/tui/app.py:206-219 | every collected candidate comes from a file whose extraction succeeded |
| Collector.ExtractAllComplete | devconfig-cli/devconfig/agent_guide/tui/app.py:206-219 | a failing file is skipped, but no candidate of a successful file is lost |
| Collector.ExtractAllEmptyIff | devconfig-cli/devconfig/agent_guide/tui/app.py:206-224 | extraction yields candidates exactly when some file yields one |
| Collector.Start | devconfig-cli/devconfig/agent_guide/tui/app.py:181-232 | review starts exactly when discovery succeeds and some file yields a candidate; otherwise the app exits with nothing queued |
| Collector.FullBlock | devconfig-cli/devconfig/agent_guide/tui/app.py:354-363 | the committed block keeps the candidate's id, content, tags and agent, with this repo as origin and sole user |
| Collector.SaveAll | devconfig-cli/devconfig/agent_guide/tui/app.py:351-368 | one add call per queued block, in queue order, each carrying the committed form of the block |
| Collector.SaveAllSavesAllIff | devconfig-cli/devconfig/agent_guide/tui/app.py:351-368 | every queued block is saved exactly when none collides with an id already in its category |
| Collector.SaveAllFreshLoads | devconfig-cli/devconfig/agent_guide/tui/app.py:351-368 | saving a collision-free queue appends its blocks, in queue order, to their categories |
| Collector.SaveAllKeepsValid | devconfig-cli/devconfig/agent_guide/tui/app.py:351-368 | saving keeps ids unique within every category |
| Collector.SaveAllSnoc | devconfig-cli/devconfig/agent_guide/tui/app.py:352-368 | saving one more queued block is offering it to the store left by the rest |
| Collector.HasIdStored | devconfig-cli/devconfig/agent_guide/tui/app.py:352-368 | after saving, an id is in a category exactly when it was there before or a queued block of that category has it |
| Collector.SaveAllStores | devconfig-cli/devconfig/agent_guide/tui/app.py:351-368 | for any queue, a block is stored exactly when neither its category nor an earlier queued block of it has its id; each category ends as its old blocks followed by its stored ones in queue order, and the count is the number stored |
| Collector.Save | devconfig-cli/devconfig/agent_guide/tui/app.py:344-370 | a dry run reports the queue length and writes nothing; otherwise one add call per queued block |
| Collector.SaveStores | devconfig-cli/devconfig/agent_guide/tui/app.py:350-369 | outside a dry run every category ends with the queued blocks the store took, in order, and the reported count is the number it took |
| Collector.Next | devconfig-cli/devconfig/agent_guide/tui/app.py:234-250 | a review opens exactly while blocks remain; after the last one the app saves |
| Collector.Queue | devconfig-cli/devconfig/agent_guide/tui/app.py:338-342 | accepting queues the block with its category and moves to the next block |
| Collector.UseNewBlock | devconfig-cli/devconfig/agent_guide/tui/app.py:320-325 | "use new" takes the new content and tags, keeps id, origin, agent and timestamps, and adds this repo to the users once |
| Collector.UseNewIdempotent | devconfig-cli/devconfig/agent_guide/tui/app.py:320-325 | applying "use new" twice equals applying it once |
| Collector.Resolve | devconfig-cli/devconfig/agent_guide/tui/app.py:306-336 | nothing is queued; closing the screen, skipping, or any choice in a dry run just moves to the next block; outside a dry run "use new" first asks the store to update the merged block and "keep existing" first asks it to add this repo's usage |
| Collector.ResolveUseNew | devconfig-cli/devconfig/agent_guide/tui/app.py:320-336 | "use new" stores the merged block in place of the existing one and moves on, or crashes exactly when the category no longer holds the id |
| Collector.ResolveKeepExisting | devconfig-cli/devconfig/agent_guide/tui/app.py:329-336 | "keep existing" records this repo on the existing block and moves on, or crashes exactly when the category no longer holds the id |
| Collector.Step | devconfig-cli/devconfig/agent_guide/tui/app.py:252-264 | events reach only an open screen; a collector that has exited never changes |
| Collector.StepWf | devconfig-cli/devconfig/agent_guide/tui/app.py:234-342 | every event keeps the index within the candidates, and keeps the block under diff in the store |
| Collector.RunWf | devconfig-cli/devconfig/agent_guide/tui/app.py:234-370 | any sequence of events keeps that invariant |
| Collector.DryRunWritesNothing | devconfig-cli/devconfig/agent_guide/tui/app.py:289-349 | over any run of events, a dry run neither changes nor calls the store |
| Collector.ExitedIsFinal | devconfig-cli/devconfig/agent_guide/tui/app.py:254-256 | after exiting, no event changes anything |
| Collector.ClosedReviewSavesNothing | devconfig-cli/devconfig/agent_guide/tui/app.py:254-256 | closing a review exits without queuing, saving or calling the store |
| Collector.StepAdvancesByOne | devconfig-cli/devconfig/agent_guide/tui/app.py:262-341 | each event moves the index by at most one, and a concluded review moves it by exactly one |
| Collector.AcceptQueuesIff | devconfig-cli/devconfig/agent_guide/tui/app.py:266-304 | an accepted block is queued exactly when its category is empty, the dedup check failed or found nothing, or the match names no block there |
| Collector.CheckDedup | devconfig-cli/devconfig/agent_guide/tui/app.py:266-304 | a new block is queued under its category; an identical match records the repo outside a dry run, crashing when the id is absent; any other match opens the diff screen on the first block with that id, changing nothing |
| Collector.IdenticalMatchMerges | devconfig-cli/devconfig/agent_guide/tui/app.py:286-292 | an identical match to a stored id records this repo on that block, queues nothing and moves on, and saves the queue after the last block without losing the merge |
| Collector.AcceptCrashesIff | devconfig-cli/devconfig/agent_guide/tui/app.py:286-290 | outside a dry run, an identical match naming an id absent from the category crashes the app, and nothing else does |
| Collector.ResolveNeverCrashes | devconfig-cli/devconfig/agent_guide/tui/app.py:306-336 | resolving a diff never crashes, because the block shown is still stored |
| Collector.SavedBlocksShape | devconfig-cli/devconfig/agent_guide/tui/app.py:354-364 | every block the save writes has this repo as origin and sole user |
| Builder.OfferedCategories | devconfig-cli/devconfig/agent_guide/tui/app.py:51-55 | "generic" first, then the chosen languages |
| Builder.BlocksByCategory | devconfig-cli/devconfig/agent_guide/tui/app.py:57-66 | a category is a key exactly when it is listed and has a block for the architecture, and it maps to those blocks |
| Builder.ShowBlockSelection | devconfig-cli/devconfig/agent_guide/tui/app.py:48-76 | the app exits exactly when no offered category has a matching block |
| Builder.SelectionMembership | devconfig-cli/devconfig/agent_guide/tui/app.py:57-66 | a category on screen offers exactly its blocks that name the architecture or name none |
| Builder.GenericBlockOffered | devconfig-cli/devconfig/agent_guide/tui/app.py:51-66 | a generic block that fits the architecture always reaches the screen |
| Builder.SelectBlocks | devconfig-cli/devconfig/agent_guide/tui/app.py:85-89 | exactly the stored blocks whose id was ticked |
| Builder.SelectEveryId | devconfig-cli/devconfig/agent_guide/tui/app.py:85-89 | ticking every id selects every block, in store order |
| Builder.SelectAppend | devconfig-cli/devconfig/agent_guide/tui/app.py:89 | selection keeps store order |
| Builder.OutputName | devconfig-cli/devconfig/agent_guide/tui/app.py:110-118 | the three known formats get their fixed files; any other gets "agent-guide-<format>.md" |
| Builder.OutputPath | devconfig-cli/devconfig/agent_guide/tui/app.py:110-118 | each known format's fixed file inside the output directory, "agent-guide-<format>.md" for any other |
| Builder.OutputPathInjective | devconfig-cli/devconfig/agent_guide/tui/app.py:110-118 | distinct formats never write the same file |
| Builder.GenerateAll | devconfig-cli/devconfig/agent_guide/tui/app.py:94-108 | one outcome per format, in order, at that format's path; the content is the agent's stripped answer for that format, or its failure |
| Builder.GenerateAllAppend | devconfig-cli/devconfig/agent_guide/tui/app.py:98-106 | a failing format does not affect the others |
| Builder.OnPreferencesDone | devconfig-cli/devconfig/agent_guide/tui/app.py:39-46 | a cancelled screen exits; otherwise the selection is shown exactly when it has blocks |
| Builder.OnSelectionDone | devconfig-cli/devconfig/agent_guide/tui/app.py:78-92 | going back reopens the preferences; otherwise every format is generated from the ticked blocks of the whole store |
| ClaudeGen.InsertSorted | devconfig-cli/devconfig/agent_guide/generators/claude_gen.py:32 | inserting keeps a list strictly sorted and adds exactly the element |
| ClaudeGen.Languages | devconfig-cli/devconfig/agent_guide/generators/claude_gen.py:14-32 | the section languages are sorted and are exactly the non-empty languages of some block |
| ClaudeGen.GenericSection | devconfig-cli/devconfig/agent_guide/generators/claude_gen.py:13-29 | the "General" section exists exactly when some block has no language, and holds those blocks |
| ClaudeGen.Sections | devconfig-cli/devconfig/agent_guide/generators/claude_gen.py:12-32 | one section per language plus a leading generic one exactly when some block has no language |
| ClaudeGen.SectionOfLanguage | devconfig-cli/devconfig/agent_guide/generators/claude_gen.py:32-39 | after the generic section come the language sections in order, each with its language's blocks |
| ClaudeGen.GeneralFirst | devconfig-cli/devconfig/agent_guide/generators/claude_gen.py:21-32 | the generic section, when present, comes before every language section |
| ClaudeGen.LanguagesAscending | devconfig-cli/devconfig/agent_guide/generators/claude_gen.py:32 | the language sections come in strictly ascending order |
| ClaudeGen.SectionBlocks | devconfig-cli/devconfig/agent_guide/generators/claude_gen.py:13-17 | every section holds exactly the blocks of its language, in input order |
| ClaudeGen.SectionsPartition | devconfig-cli/devconfig/agent_guide/generators/claude_gen.py:13-17 | a block with an empty-string language is in no section; every other block is in exactly one |
| ClaudeGen.FilterLanguageAppend | devconfig-cli/devconfig/agent_guide/generators/claude_gen.py:13-17 | grouping keeps input order |
| ClaudeGen.Heading | devconfig-cli/devconfig/agent_guide/generators/claude_gen.py:23-33 | "General" for the generic section, else the language with its first letter upper-cased and the rest lower-cased |
| Text.CapitalizeIdempotent | devconfig-cli/devconfig/agent_guide/generators/claude_gen.py:33 | capitalising a heading twice equals capitalising it once |
| ClaudeGen.EntryLinesAt | devconfig-cli/devconfig/agent_guide/generators/claude_gen.py:25-39 | the k-th entry is the "### id" line, a blank line, the content and a blank line |
| ClaudeGen.SectionLines | devconfig-cli/devconfig/agent_guide/generators/claude_gen.py:23-39 | a section is its "## " heading, a blank line and four lines per block |
| ClaudeGen.Lines | devconfig-cli/devconfig/agent_guide/generators/claude_gen.py:19-39 | the title, a blank line, then the lines of each section in turn |
| ClaudeGen.GenerateClaudeMd | devconfig-cli/devconfig/agent_guide/generators/claude_gen.py:6-41 | the text starts with "# Project Guidelines" and a newline, and is exactly that for no blocks |
| ClaudeGen.LinesHaveEveryEntry | devconfig-cli/devconfig/agent_guide/generators/claude_gen.py:13-39 | every block without a language or with a non-empty one has its "### id" line and its content among the lines |
| ClaudeGen.DocumentHasEveryEntry | devconfig-cli/devconfig/agent_guide/generators/claude_gen.py:6-41 | the generated text contains the "### id" heading and the content of every such block |
| GuideCli.ResolvePath | devconfig-cli/devconfig/agent_guide/cli.py:33-39 | a relative path is taken from a set, non-empty original directory; anything else is resolved as given |
| GuideCli.ResolvePathEnvironment | devconfig-cli/devconfig/agent_guide/cli.py:33-39 | an absolute path ignores the variable, and an empty variable counts as unset |
| GuideCli.Collect | devconfig-cli/devconfig/agent_guide/cli.py:56-69 | exits with status 1 exactly when the resolved path does not exist; otherwise runs the collector there |
| GuideCli.BuildFormats | devconfig-cli/devconfig/agent_guide/cli.py:28 | a missing or empty format list becomes ["claude"], any other is kept |
| GuideCli.LanguageFilter | devconfig-cli/devconfig/agent_guide/cli.py:88 | "generic" selects no language, anything else itself |
| GuideCli.ListedBlocks | devconfig-cli/devconfig/agent_guide/cli.py:84-89 | the category's blocks, or all of them, narrowed to the requested language when one is given |
| GuideCli.ListedLanguage | devconfig-cli/devconfig/agent_guide/cli.py:85-89 | every listed block has the requested language, and "generic" lists only blocks without one |
| GuideCli.Preview | devconfig-cli/devconfig/agent_guide/cli.py:99-101 | no newline; the first 80 characters with newlines as spaces, the whole content when it is no longer; "..." follows exactly when the content is longer than 80 |
| GuideCli.PreviewShort | devconfig-cli/devconfig/agent_guide/cli.py:99-101 | a short one-line content previews as itself |
| GuideCli.ReposColumn | devconfig-cli/devconfig/agent_guide/cli.py:97 | the users joined with ", ", or the origin when there are none |
| GuideCli.EntryOf | devconfig-cli/devconfig/agent_guide/cli.py:95-102 | the label is "generic" exactly when the language is missing, empty or "generic", and otherwise the language itself; the repos column and preview of the block |
| GuideCli.ListBlocks | devconfig-cli/devconfig/agent_guide/cli.py:84-102 | "No blocks found." exactly when nothing matches; otherwise the entry of each listed block, in order |
| ClipStorage.LoadHistory | clippy/clippy/storage.py:21-29 | a missing or malformed file is an empty history |
| ClipStorage.ClearHistory | clippy/clippy/storage.py:56-58 | a cleared history loads as empty |
| ClipStorage.Cap | clippy/clippy/storage.py:48 | a prefix of the history: all of it when it has at most fifty items, otherwise exactly the first fifty |
| ClipStorage.AddItem | clippy/clippy/storage.py:40-49 | blank text and a repeat of the newest item change nothing; otherwise the item goes first and the old history follows, capped at fifty |
| ClipStorage.AddItemBounded | clippy/clippy/storage.py:40-49 | a history within fifty items stays within fifty |
| ClipStorage.AddItemIdempotent | clippy/clippy/storage.py:44-45 | copying the same text twice in a row records it once |
| ClipStorage.AddItemShiftsHistory | clippy/clippy/storage.py:47-48 | every kept older item moves down by one |
| ClipStorage.GetItems | clippy/clippy/storage.py:52-53 | a prefix of the history, with Python's slice bounds for a limit past the end or a negative limit |
| ClipStorage.GetItemsDefault | clippy/clippy/storage.py:52-53 | the default limit returns a capped history whole, and a limit of 0 returns nothing |
| Picker.Normalise | clippy/clippy/picker.py:18 | the text with newlines as spaces and its leading and trailing whitespace cut, no more |
| Picker.NormaliseIdempotent | clippy/clippy/picker.py:18 | normalising twice equals normalising once |
| Picker.Truncate | clippy/clippy/picker.py:17-21 | the normalised text when it is at most 60 characters, otherwise its first 60 followed by "..." |
| Picker.NormaliseFixed | clippy/clippy/picker.py:18 | a one-line stripped text normalises to itself |
| Picker.TruncateIdempotent | clippy/clippy/picker.py:17-21 | cutting a title twice equals cutting it once |
| Worktree.SearchFrom | workspaces/kpler/create-fullstack-wt.py:31-33 | finds the leftmost position where "FST-" and a digit run end at "-", the end, or a final newline, and none exactly when there is no such position |
| Worktree.ExtractNumber | workspaces/kpler/create-fullstack-wt.py:31-43 | a name has no number exactly when the pattern matches nowhere |
| Worktree.WorktreeName | workspaces/kpler/create-fullstack-wt.py:113-114 | "FST-" and the number, followed by "-" and the suffix when the suffix is not empty |
| Worktree.WorktreeNameRoundTrip | workspaces/kpler/create-fullstack-wt.py:113-114 | the built name parses back to its number, and anchors that number |
| Worktree.AnchoredMatchExtracts | workspaces/kpler/create-fullstack-wt.py:41-52 | a name anchored by a number yields that same number when searched |
| Worktree.AnchoredMatchUnique | workspaces/kpler/create-fullstack-wt.py:52 | at most one number anchors a name |
| Worktree.ShorterNumberNotAnchored | workspaces/kpler/create-fullstack-wt.py:52 | 1 does not anchor "FST-12" but does anchor "FST-1-api" |
| Worktree.LeadingZeroNotAnchored | workspaces/kpler/create-fullstack-wt.py:41-52 | "FST-01" counts as number 1 for numbering, but no number anchors it |
| Worktree.BranchName | workspaces/kpler/create-fullstack-wt.py:30 | the branch is what is left of the stripped line after its leading run of "*" and space characters: a suffix that does not begin with either, everything dropped being one of them |
| Worktree.BranchNameOfListing | workspaces/kpler/create-fullstack-wt.py:25-30 | both the current-branch line "* b" and an ordinary line "  b" give back b |
| Worktree.DirNumbers | workspaces/kpler/create-fullstack-wt.py:39-43 | exactly the numbers of directories whose name starts with "FST-" and holds one |
| Worktree.BranchNumbers | workspaces/kpler/create-fullstack-wt.py:23-34 | exactly the numbers of the listed branch lines |
| Worktree.NextWtNumber | workspaces/kpler/create-fullstack-wt.py:37-46 | at least 1; greater than every number in use; and 1 or one more than a number in use |
| Worktree.PreviousWtDir | workspaces/kpler/create-fullstack-wt.py:49-54 | a directory anchoring the largest number below the current one that any directory anchors, or none exactly when no number below does |
| Worktree.PreviousWtNumber | workspaces/kpler/create-fullstack-wt.py:49-54 | the previous directory's number lies below the current one, and no number between them is anchored |
| Worktree.CopiedNames | workspaces/kpler/create-fullstack-wt.py:81-85 | exactly the listed names other than the two repositories and the two convention files |
| Worktree.CopiedNamesAppend | workspaces/kpler/create-fullstack-wt.py:83-85 | copying keeps listing order |

## Left out

- **I/O, processes and JSON text.** File reads and writes, `mkdir`, `shutil` copies, symlinks, `git` and `claude` subprocesses and JSON encoding are not modelled. They appear only as the parameters above: agent replies, parse and decode functions, the store map, directory listings and `git branch` lines.
- **Textual.** Layout, CSS, notifications, status text and threads are left out. The worker thread of the collector is taken as running before the first review.
- **Screens.** The preferences, block selection and diff resolution screens are reduced to the values they dismiss with. Textual's `Select` validation and its blank value are not modelled.
- **Prompts.** The prompt templates are fixed text. A prompt is modelled by the values interpolated into it, not by its wording.
- **Other repository parts.** `generators/__init__.py`, the clippy daemon, hotkey and clipboard, and `prompt-reformat` are not part of this model.
- **get_default_branch, create_worktree, create_convention_symlinks and main in create-fullstack-wt.py.** These are git calls and file-system effects, apart from the name construction modelled as `Worktree.WorktreeName`.
- **Worktree.BranchNumbers:** `str.splitlines` is taken as already applied. Lines are given as a list, so line breaks other than '\n' are not modelled.
- **Worktree.SearchFrom:** `\d` is modelled as the ASCII digits. Python also accepts other Unicode decimal digits.
- **Text.Capitalize:** upper and lower case are ASCII only.
- **Builder.BlocksByCategory:** returns a map, so the dict's insertion order on screen is not modelled.
- Collector.SaveAll: takes one clock reading, `now`, for the whole save loop. The code calls `datetime.now()` twice for every block, so its timestamps can differ between blocks and between the two fields of one block; here they are all equal.
- **Store.DeleteBlock:** always writes the category, so deleting from a category with no file creates an empty one.
- **Atomic writes.** The store writes category files in place, and no atomicity is claimed for it. `clippy/storage.py` writes a temp file and renames it; that is modelled only as replacing the whole file.
- **Collector.AcceptCrashesIff:** an identical dedup match whose id is not in the category makes `add_repo_usage` raise, and nothing catches it. This is modelled as a `Crashed` phase that ignores further events. The real application would stop with a traceback.
- **Dedup nuances.** These are carried but never shown, because their only use is on the diff screen.
- **GuideCli.ResolvePath:** `Path.resolve` is a parameter. Symlinks, `..` and the real working directory are not modelled.
- **Store.Load:** a category file's `category` field is taken to be its file stem. `_save_category` writes to the file the field names, so a file whose field differs from its name would be written back under another name. The model always writes back under the stem.
- Config.CategoryFilePathInjective: compares path strings. `pathlib` collapses repeated "/" and drops "." segments, so two categories that contain "/" can still name one file; the lemma does not cover that normalisation.
- Builder.OutputPathInjective: compares path strings, so formats that contain "/" and differ only in repeated "/" or "." segments can still write one file.
- **Runner.ExtractBlocks:** the code overwrites each payload entry's `source_agent` with the caller's before validating it. `decode` therefore stands for a validation that never reads the `source_agent` the agent wrote.
- **Runner.CheckDedup:** `data.get("match")` raises on a payload that is not an object. That case is `matchOf` returning `None`, and it is reported as an invalid payload.
- **ClipStorage.HistoryItem:** `ts` is a Python float from `time.time()`. It is modelled as a `real` with no rounding; the history only stores and copies it.
