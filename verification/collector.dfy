/** The collector application (devconfig-cli `agent_guide/tui/app.py`,
    `CollectorApp`): discovery and extraction produce the candidate blocks,
    each is reviewed in turn, checked against the store for duplicates,
    merged, resolved or queued, and the queue is written at the end.

    The application is a state record and a transition function. Every
    answer the program waits for -- a screen being dismissed, the dedup
    agent's verdict, the clock -- arrives as part of an event, so the
    collector itself is deterministic. */
module Collector {
  import opened Wrappers
  import opened Models
  import opened Store
  import opened Runner
  import opened Review

  /** A call the collector makes on the store, recorded in order. */
  datatype StoreCall =
    | AddRepoUsageCall(id: string, category: string, repo: string)
    | UpdateBlockCall(block: Block, category: string)
    | AddBlockCall(block: Block, category: string)

  /** The buttons of the diff resolution screen. */
  datatype DiffChoice = UseNew | KeepExisting | SkipBoth

  /** Where the collector is: a review screen is open for the current
      block, a diff screen is open for it, or the application has exited
      (after a dry run, after saving, on a closed screen or on an error the
      program does not catch). */
  datatype Phase =
    | Reviewing
    | Resolving(newBlock: ExtractedBlock, existing: Block, category: string)
    | DryRunDone(wouldSave: nat)
    | Saved(count: nat)
    | Exited
    | Crashed(error: StoreError)

  /** A screen is open and the collector still reacts to events. */
  predicate Active(p: Phase) {
    p.Reviewing? || p.Resolving?
  }

  datatype Collector = Collector(
    repoName: string,
    dryRun: bool,
    db: Db,
    extracted: seq<ExtractedBlock>,
    index: nat,
    accepted: seq<(ExtractedBlock, string)>,
    calls: seq<StoreCall>,
    phase: Phase)

  /** What the open screen is dismissed with. An accepted review carries
      the edited form and the answer the dedup check gives for it (an
      agent error stands for any exception it raises); the answer is not
      consulted when the category is empty, as the check is then never
      made. A diff screen closed without a choice is `DiffResolved(None)`. */
  datatype Event =
    | ReviewClosed
    | ReviewSkipped
    | ReviewAccepted(form: Form, dedup: Result<Option<DedupMatch>, AgentError>)
    | DiffResolved(choice: Option<DiffChoice>)

  /** The category a reviewed block is filed under: its language, or
      "generic" when it has none or an empty one. */
  function CategoryOf(b: ExtractedBlock): (c: string)
    ensures c != ""
    ensures b.suggestedTags.language.Some? && b.suggestedTags.language.value != "" ==>
      c == b.suggestedTags.language.value
    ensures b.suggestedTags.language.None? || b.suggestedTags.language.value == "" ==> c == "generic"
  {
    match b.suggestedTags.language
    case Some(l) => if l != "" then l else "generic"
    case None => "generic"
  }

  /** The candidates of every file in turn; a file whose reading or
      extraction fails (`None`) contributes nothing and the others are
      still processed. */
  function ExtractAll(files: seq<RelevantFile>, extract: RelevantFile -> Option<seq<ExtractedBlock>>): (r: seq<ExtractedBlock>)
    ensures forall b :: b in r ==>
      exists i :: 0 <= i < |files| && extract(files[i]).Some? && b in extract(files[i]).value
    decreases |files|
  {
    if |files| == 0 then []
    else
      var rest := ExtractAll(files[1..], extract);
      assert forall b :: b in rest ==>
        exists i :: 1 <= i < |files| && extract(files[i]).Some? && b in extract(files[i]).value by {
        forall b | b in rest
          ensures exists i :: 1 <= i < |files| && extract(files[i]).Some? && b in extract(files[i]).value
        {
          var i :| 0 <= i < |files[1..]| && extract(files[1..][i]).Some? && b in extract(files[1..][i]).value;
          assert files[1..][i] == files[i + 1];
        }
      }
      extract(files[0]).GetOr([]) + rest
  }

  /** Extraction distributes over a split of the file list. */
  lemma {:induction false} ExtractAllAppend(a: seq<RelevantFile>, b: seq<RelevantFile>, extract: RelevantFile -> Option<seq<ExtractedBlock>>)
    ensures ExtractAll(a + b, extract) == ExtractAll(a, extract) + ExtractAll(b, extract)
    decreases |a|
  {
    if |a| > 0 {
      assert (a + b)[1..] == a[1..] + b;
      ExtractAllAppend(a[1..], b, extract);
    } else {
      assert a + b == b;
    }
  }

  /** No candidate is lost: every block of every successful extraction is
      among the candidates. */
  lemma {:induction false} ExtractAllComplete(files: seq<RelevantFile>, extract: RelevantFile -> Option<seq<ExtractedBlock>>, i: nat, b: ExtractedBlock)
    requires i < |files| && extract(files[i]).Some? && b in extract(files[i]).value
    ensures b in ExtractAll(files, extract)
    decreases |files|
  {
    if i > 0 {
      assert files[1..][i - 1] == files[i];
      ExtractAllComplete(files[1..], extract, i - 1, b);
    }
  }

  /** Some file yields at least one candidate. */
  predicate Yields(files: seq<RelevantFile>, extract: RelevantFile -> Option<seq<ExtractedBlock>>) {
    exists i :: 0 <= i < |files| && extract(files[i]).Some? && extract(files[i]).value != []
  }

  /** Extraction yields candidates exactly when some file does. */
  lemma {:induction false} ExtractAllEmptyIff(files: seq<RelevantFile>, extract: RelevantFile -> Option<seq<ExtractedBlock>>)
    ensures ExtractAll(files, extract) != [] <==> Yields(files, extract)
    decreases |files|
  {
    if |files| > 0 {
      ExtractAllEmptyIff(files[1..], extract);
      if Yields(files[1..], extract) {
        var i :| 0 <= i < |files[1..]| && extract(files[1..][i]).Some? && extract(files[1..][i]).value != [];
        assert files[1..][i] == files[i + 1];
      }
      if Yields(files, extract) && !(extract(files[0]).Some? && extract(files[0]).value != []) {
        var i :| 0 <= i < |files| && extract(files[i]).Some? && extract(files[i]).value != [];
        assert i > 0 && files[1..][i - 1] == files[i];
      }
    }
  }

  /** `_discover_and_extract`: a failed or empty discovery, or an
      extraction that yields nothing, exits; otherwise the first candidate
      is up for review. */
  function Start(
    repoName: string, dryRun: bool, db: Db,
    discovered: Result<seq<RelevantFile>, AgentError>,
    extract: RelevantFile -> Option<seq<ExtractedBlock>>): (c: Collector)
    ensures c.repoName == repoName && c.dryRun == dryRun && c.db == db
    ensures c.index == 0 && c.accepted == [] && c.calls == []
    ensures c.phase == Reviewing <==> discovered.Success? && Yields(discovered.value, extract)
    ensures c.phase != Reviewing ==> c.phase == Exited
    ensures c.phase == Reviewing ==> c.extracted == ExtractAll(discovered.value, extract)
  {
    if discovered.Failure? then
      Collector(repoName, dryRun, db, [], 0, [], [], Exited)
    else
      var blocks := ExtractAll(discovered.value, extract);
      ExtractAllEmptyIff(discovered.value, extract);
      if |blocks| == 0 then
        Collector(repoName, dryRun, db, [], 0, [], [], Exited)
      else
        Collector(repoName, dryRun, db, blocks, 0, [], [], Reviewing)
  }

  /** The committed form of a queued candidate: this repository is its
      origin and its only user, and both timestamps are the save time. */
  function FullBlock(b: ExtractedBlock, repo: string, now: Time): (r: Block)
    ensures r.id == b.suggestedId && r.content == b.content && r.tags == b.suggestedTags
    ensures r.originRepo == repo && r.usedByRepos == [repo]
    ensures r.sourceAgent == b.sourceAgent
    ensures r.createdAt == now && r.updatedAt == now
  {
    Block(b.suggestedId, b.content, b.suggestedTags, repo, [repo], b.sourceAgent, now, now)
  }

  /** The end state of the save loop. */
  datatype SaveOutcome = SaveOutcome(db: Db, saved: nat, calls: seq<StoreCall>)

  /** The save loop of `_save_accepted_blocks`: every queued block is
      offered to the store in order; a refused one (a duplicate id) is
      skipped and the loop goes on. */
  function SaveAll(db: Db, queue: seq<(ExtractedBlock, string)>, repo: string, now: Time): (r: SaveOutcome)
    ensures r.saved <= |queue|
    ensures |r.calls| == |queue|
    ensures forall k :: 0 <= k < |queue| ==>
      r.calls[k] == AddBlockCall(FullBlock(queue[k].0, repo, now), queue[k].1)
    decreases |queue|
  {
    if |queue| == 0 then SaveOutcome(db, 0, [])
    else
      var full := FullBlock(queue[0].0, repo, now);
      var call := AddBlockCall(full, queue[0].1);
      match AddBlock(db, full, queue[0].1)
      case Success(db1) =>
        var rest := SaveAll(db1, queue[1..], repo, now);
        SaveOutcome(rest.db, rest.saved + 1, [call] + rest.calls)
      case Failure(_) =>
        var rest := SaveAll(db, queue[1..], repo, now);
        SaveOutcome(rest.db, rest.saved, [call] + rest.calls)
  }

  /** The queue can be stored whole: no queued id is in its category yet,
      and no two queued blocks of one category share an id. */
  predicate Fresh(db: Db, queue: seq<(ExtractedBlock, string)>) {
    && (forall i :: 0 <= i < |queue| ==> !HasId(Load(db, queue[i].1), queue[i].0.suggestedId))
    && (forall i, j :: 0 <= i < j < |queue| && queue[i].1 == queue[j].1 ==>
          queue[i].0.suggestedId != queue[j].0.suggestedId)
  }

  /** An id is in a list with one block appended exactly when it is in the
      list or is the appended block's. */
  lemma HasIdAppend(bs: seq<Block>, b: Block, id: string)
    ensures HasId(bs + [b], id) <==> HasId(bs, id) || b.id == id
  {
    if HasId(bs, id) {
      var k :| 0 <= k < |bs| && bs[k].id == id;
      assert (bs + [b])[k] == bs[k];
    }
    if b.id == id {
      assert (bs + [b])[|bs|] == b;
    }
    if HasId(bs + [b], id) && !(b.id == id) {
      var k :| 0 <= k < |bs + [b]| && (bs + [b])[k].id == id;
      assert k < |bs| && bs[k].id == id;
    }
  }

  /** Adding the head of a fresh queue leaves the rest fresh. */
  lemma FreshAfterFirst(db: Db, queue: seq<(ExtractedBlock, string)>, repo: string, now: Time)
    requires |queue| > 0 && Fresh(db, queue)
    ensures AddBlock(db, FullBlock(queue[0].0, repo, now), queue[0].1).Success?
    ensures Fresh(AddBlock(db, FullBlock(queue[0].0, repo, now), queue[0].1).value, queue[1..])
  {
    var full := FullBlock(queue[0].0, repo, now);
    var db1 := AddBlock(db, full, queue[0].1).value;
    var rest := queue[1..];
    forall i | 0 <= i < |rest|
      ensures !HasId(Load(db1, rest[i].1), rest[i].0.suggestedId)
    {
      assert rest[i] == queue[i + 1];
      if rest[i].1 == queue[0].1 {
        HasIdAppend(Load(db, queue[0].1), full, rest[i].0.suggestedId);
      }
    }
    assert forall i, j :: 0 <= i < j < |rest| ==> rest[i] == queue[i + 1] && rest[j] == queue[j + 1];
  }

  /** Storing the head of a queue that is then stored whole shows the
      queue was fresh. */
  lemma FreshBeforeFirst(db: Db, queue: seq<(ExtractedBlock, string)>, repo: string, now: Time)
    requires |queue| > 0
    requires AddBlock(db, FullBlock(queue[0].0, repo, now), queue[0].1).Success?
    requires Fresh(AddBlock(db, FullBlock(queue[0].0, repo, now), queue[0].1).value, queue[1..])
    ensures Fresh(db, queue)
  {
    var full := FullBlock(queue[0].0, repo, now);
    var db1 := AddBlock(db, full, queue[0].1).value;
    var rest := queue[1..];
    forall i | 1 <= i < |queue|
      ensures !HasId(Load(db, queue[i].1), queue[i].0.suggestedId)
      ensures queue[i].1 == queue[0].1 ==> queue[i].0.suggestedId != queue[0].0.suggestedId
    {
      assert rest[i - 1] == queue[i];
      if queue[i].1 == queue[0].1 {
        HasIdAppend(Load(db, queue[0].1), full, queue[i].0.suggestedId);
      }
    }
    forall i, j | 0 <= i < j < |queue| && queue[i].1 == queue[j].1
      ensures queue[i].0.suggestedId != queue[j].0.suggestedId
    {
      if i > 0 {
        assert rest[i - 1] == queue[i] && rest[j - 1] == queue[j];
      }
    }
  }

  /** Every queued block is saved exactly when the queue is fresh. */
  lemma {:induction false} SaveAllSavesAllIff(db: Db, queue: seq<(ExtractedBlock, string)>, repo: string, now: Time)
    ensures SaveAll(db, queue, repo, now).saved == |queue| <==> Fresh(db, queue)
    decreases |queue|
  {
    if |queue| > 0 {
      var full := FullBlock(queue[0].0, repo, now);
      var added := AddBlock(db, full, queue[0].1);
      if added.Success? {
        SaveAllSavesAllIff(added.value, queue[1..], repo, now);
        if Fresh(added.value, queue[1..]) {
          FreshBeforeFirst(db, queue, repo, now);
        }
        if Fresh(db, queue) {
          FreshAfterFirst(db, queue, repo, now);
        }
      } else {
        assert !Fresh(db, queue) by {
          assert HasId(Load(db, queue[0].1), queue[0].0.suggestedId);
        }
      }
    }
  }

  /** The blocks a fresh queue adds to one category, in queue order. */
  function AddedTo(queue: seq<(ExtractedBlock, string)>, category: string, repo: string, now: Time): (r: seq<Block>)
    ensures |r| <= |queue|
    ensures forall b :: b in r ==> b.originRepo == repo && b.usedByRepos == [repo]
    decreases |queue|
  {
    if |queue| == 0 then []
    else
      (if queue[0].1 == category then [FullBlock(queue[0].0, repo, now)] else [])
      + AddedTo(queue[1..], category, repo, now)
  }

  /** The blocks the first queued block adds to a category. */
  function FirstAddedTo(queue: seq<(ExtractedBlock, string)>, category: string, repo: string, now: Time): seq<Block>
    requires |queue| > 0
  {
    if queue[0].1 == category then [FullBlock(queue[0].0, repo, now)] else []
  }

  /** Storing the first queued block appends it to its own category only. */
  lemma LoadAfterFirst(db: Db, queue: seq<(ExtractedBlock, string)>, repo: string, now: Time, category: string)
    requires |queue| > 0
    requires AddBlock(db, FullBlock(queue[0].0, repo, now), queue[0].1).Success?
    ensures Load(AddBlock(db, FullBlock(queue[0].0, repo, now), queue[0].1).value, category)
      == Load(db, category) + FirstAddedTo(queue, category, repo, now)
  {
    if queue[0].1 != category {
      assert Load(db, category) + [] == Load(db, category);
    }
  }

  /** The blocks a fresh queue adds are those of its head followed by
      those of the rest. */
  lemma FreshLoadsStep(db: Db, queue: seq<(ExtractedBlock, string)>, repo: string, now: Time, category: string, db1: Db, final: Db)
    requires |queue| > 0
    requires Load(db1, category) == Load(db, category) + FirstAddedTo(queue, category, repo, now)
    requires Load(final, category) == Load(db1, category) + AddedTo(queue[1..], category, repo, now)
    ensures Load(final, category) == Load(db, category) + AddedTo(queue, category, repo, now)
  {
    var first := FirstAddedTo(queue, category, repo, now);
    var later := AddedTo(queue[1..], category, repo, now);
    assert AddedTo(queue, category, repo, now) == first + later;
    assert Load(db, category) + first + later == Load(db, category) + (first + later);
  }

  /** Saving a fresh queue appends its blocks, in order, to their
      categories and changes nothing else. */
  lemma {:induction false} SaveAllFreshLoads(db: Db, queue: seq<(ExtractedBlock, string)>, repo: string, now: Time, category: string)
    requires Fresh(db, queue)
    ensures Load(SaveAll(db, queue, repo, now).db, category) == Load(db, category) + AddedTo(queue, category, repo, now)
    decreases |queue|
  {
    if |queue| == 0 {
      assert Load(db, category) + [] == Load(db, category);
    } else {
      FreshAfterFirst(db, queue, repo, now);
      var db1 := AddBlock(db, FullBlock(queue[0].0, repo, now), queue[0].1).value;
      SaveAllFreshLoads(db1, queue[1..], repo, now, category);
      LoadAfterFirst(db, queue, repo, now, category);
      assert SaveAll(db, queue, repo, now).db == SaveAll(db1, queue[1..], repo, now).db;
      FreshLoadsStep(db, queue, repo, now, category, db1, SaveAll(db, queue, repo, now).db);
    }
  }

  /** Saving keeps ids unique within every category. */
  lemma {:induction false} SaveAllKeepsValid(db: Db, queue: seq<(ExtractedBlock, string)>, repo: string, now: Time)
    requires ValidDb(db)
    ensures ValidDb(SaveAll(db, queue, repo, now).db)
    decreases |queue|
  {
    if |queue| > 0 {
      var full := FullBlock(queue[0].0, repo, now);
      var added := AddBlock(db, full, queue[0].1);
      if added.Success? {
        AddBlockKeepsValid(db, full, queue[0].1);
        SaveAllKeepsValid(added.value, queue[1..], repo, now);
      } else {
        SaveAllKeepsValid(db, queue[1..], repo, now);
      }
    }
  }

  /** Whether the save loop stores the k-th queued block: its id is not in
      its category before the save, and no earlier queued block of the same
      category has the same id. */
  predicate Stored(db: Db, queue: seq<(ExtractedBlock, string)>, k: int)
    requires 0 <= k < |queue|
  {
    && !HasId(Load(db, queue[k].1), queue[k].0.suggestedId)
    && forall j :: 0 <= j < k && queue[j].1 == queue[k].1 ==> queue[j].0.suggestedId != queue[k].0.suggestedId
  }

  /** How many queued blocks are stored. */
  function StoredCount(db: Db, queue: seq<(ExtractedBlock, string)>): nat
    decreases |queue|
  {
    if |queue| == 0 then 0
    else StoredCount(db, queue[..|queue| - 1]) + (if Stored(db, queue, |queue| - 1) then 1 else 0)
  }

  /** The stored blocks of one category, in queue order. */
  function StoredIn(db: Db, queue: seq<(ExtractedBlock, string)>, category: string, repo: string, now: Time): seq<Block>
    decreases |queue|
  {
    if |queue| == 0 then []
    else
      var k := |queue| - 1;
      StoredIn(db, queue[..k], category, repo, now)
      + (if queue[k].1 == category && Stored(db, queue, k) then [FullBlock(queue[k].0, repo, now)] else [])
  }

  /** Offering one more block to the store after a queue has been saved. */
  lemma {:induction false} SaveAllSnoc(db: Db, queue: seq<(ExtractedBlock, string)>, x: (ExtractedBlock, string), repo: string, now: Time)
    ensures var before := SaveAll(db, queue, repo, now);
      var added := AddBlock(before.db, FullBlock(x.0, repo, now), x.1);
      && SaveAll(db, queue + [x], repo, now).db == (if added.Success? then added.value else before.db)
      && SaveAll(db, queue + [x], repo, now).saved == before.saved + (if added.Success? then 1 else 0)
    decreases |queue|
  {
    if |queue| == 0 {
      assert queue + [x] == [x] && [x][1..] == [];
    } else {
      assert (queue + [x])[0] == queue[0];
      assert (queue + [x])[1..] == queue[1..] + [x];
      var added := AddBlock(db, FullBlock(queue[0].0, repo, now), queue[0].1);
      if added.Success? {
        SaveAllSnoc(added.value, queue[1..], x, repo, now);
      } else {
        SaveAllSnoc(db, queue[1..], x, repo, now);
      }
    }
  }

  /** An id is in a category after the stored blocks are appended exactly
      when it was there before or some queued block of the category has
      it. */
  lemma {:induction false} HasIdStored(db: Db, queue: seq<(ExtractedBlock, string)>, category: string, id: string, repo: string, now: Time)
    ensures HasId(Load(db, category) + StoredIn(db, queue, category, repo, now), id) <==>
      HasId(Load(db, category), id) || exists j :: 0 <= j < |queue| && queue[j].1 == category && queue[j].0.suggestedId == id
    decreases |queue|
  {
    var before := Load(db, category);
    if |queue| == 0 {
      assert before + [] == before;
    } else {
      var k := |queue| - 1;
      var p := queue[..k];
      var x := queue[k];
      HasIdStored(db, p, category, id, repo, now);
      var prev := before + StoredIn(db, p, category, repo, now);
      var inQueue := exists j :: 0 <= j < |queue| && queue[j].1 == category && queue[j].0.suggestedId == id;
      var inPrefix := exists j :: 0 <= j < |p| && p[j].1 == category && p[j].0.suggestedId == id;
      assert inQueue <==> inPrefix || (x.1 == category && x.0.suggestedId == id) by {
        if inQueue && !(x.1 == category && x.0.suggestedId == id) {
          var j :| 0 <= j < |queue| && queue[j].1 == category && queue[j].0.suggestedId == id;
          assert j < k && p[j] == queue[j];
        }
        if inPrefix {
          var j :| 0 <= j < |p| && p[j].1 == category && p[j].0.suggestedId == id;
          assert queue[j] == p[j];
        }
      }
      if x.1 == category && Stored(db, queue, k) {
        var full := FullBlock(x.0, repo, now);
        assert before + StoredIn(db, queue, category, repo, now) == prev + [full];
        HasIdAppend(prev, full, id);
      } else {
        assert before + StoredIn(db, queue, category, repo, now) == prev;
        if x.1 == category && x.0.suggestedId == id && !HasId(before, id) {
          var j :| 0 <= j < k && queue[j].1 == x.1 && queue[j].0.suggestedId == x.0.suggestedId;
          assert p[j] == queue[j];
        }
      }
    }
  }

  /** The store takes a block offered after a queue exactly when the
      reference says the block is stored. */
  lemma AddedIffStored(db: Db, p: seq<(ExtractedBlock, string)>, x: (ExtractedBlock, string), saved: Db, repo: string, now: Time)
    requires Load(saved, x.1) == Load(db, x.1) + StoredIn(db, p, x.1, repo, now)
    ensures AddBlock(saved, FullBlock(x.0, repo, now), x.1).Success? <==> Stored(db, p + [x], |p|)
  {
    var queue := p + [x];
    var k := |p|;
    assert queue[k] == x;
    HasIdStored(db, p, x.1, x.0.suggestedId, repo, now);
    if Stored(db, queue, k) {
      forall j | 0 <= j < |p| && p[j].1 == x.1
        ensures p[j].0.suggestedId != x.0.suggestedId
      {
        assert p[j] == queue[j];
      }
    } else if !HasId(Load(db, x.1), x.0.suggestedId) {
      var j :| 0 <= j < k && queue[j].1 == x.1 && queue[j].0.suggestedId == x.0.suggestedId;
      assert p[j] == queue[j];
    }
  }

  /** One more offered block extends the reference by that block, in its
      category, when it is stored. */
  lemma StoredInSnoc(db: Db, p: seq<(ExtractedBlock, string)>, x: (ExtractedBlock, string), c: string, repo: string, now: Time)
    ensures StoredIn(db, p + [x], c, repo, now) ==
      StoredIn(db, p, c, repo, now) + (if x.1 == c && Stored(db, p + [x], |p|) then [FullBlock(x.0, repo, now)] else [])
  {
    assert (p + [x])[..|p|] == p;
  }

  /** Offering one block to a store that matches the reference keeps it
      matching, in every category. */
  lemma OfferKeepsReference(db: Db, p: seq<(ExtractedBlock, string)>, x: (ExtractedBlock, string), c: string,
                            repo: string, now: Time, before: Db, after: Db)
    requires Load(before, x.1) == Load(db, x.1) + StoredIn(db, p, x.1, repo, now)
    requires Load(before, c) == Load(db, c) + StoredIn(db, p, c, repo, now)
    requires var added := AddBlock(before, FullBlock(x.0, repo, now), x.1);
      after == if added.Success? then added.value else before
    ensures Load(after, c) == Load(db, c) + StoredIn(db, p + [x], c, repo, now)
  {
    var full := FullBlock(x.0, repo, now);
    AddedIffStored(db, p, x, before, repo, now);
    StoredInSnoc(db, p, x, c, repo, now);
    var tail := if x.1 == c && Stored(db, p + [x], |p|) then [full] else [];
    assert Load(db, c) + StoredIn(db, p, c, repo, now) + tail == Load(db, c) + (StoredIn(db, p, c, repo, now) + tail);
    if after == before {
      assert Load(before, c) + [] == Load(before, c);
    }
  }

  /** One more offered block keeps the reference relation for a
      category. */
  lemma LoadAfterOffer(db: Db, p: seq<(ExtractedBlock, string)>, x: (ExtractedBlock, string), c: string, repo: string, now: Time)
    requires forall c' :: Load(SaveAll(db, p, repo, now).db, c') == Load(db, c') + StoredIn(db, p, c', repo, now)
    ensures Load(SaveAll(db, p + [x], repo, now).db, c) == Load(db, c) + StoredIn(db, p + [x], c, repo, now)
  {
    var before := SaveAll(db, p, repo, now).db;
    SaveAllSnoc(db, p, x, repo, now);
    OfferKeepsReference(db, p, x, c, repo, now, before, SaveAll(db, p + [x], repo, now).db);
  }

  /** The save loop against its reference: every category ends as its
      blocks before the save followed by the stored queued blocks of that
      category, in queue order, and the count reported is the number of
      stored blocks. A block is stored exactly when neither the category
      nor an earlier queued block of it already has its id. */
  lemma {:induction false} SaveAllStores(db: Db, queue: seq<(ExtractedBlock, string)>, repo: string, now: Time)
    ensures forall c :: Load(SaveAll(db, queue, repo, now).db, c) == Load(db, c) + StoredIn(db, queue, c, repo, now)
    ensures SaveAll(db, queue, repo, now).saved == StoredCount(db, queue)
    decreases |queue|
  {
    if |queue| == 0 {
      forall c ensures Load(db, c) + [] == Load(db, c) {}
    } else {
      var k := |queue| - 1;
      var p := queue[..k];
      var x := queue[k];
      assert queue == p + [x];
      SaveAllStores(db, p, repo, now);
      forall c
        ensures Load(SaveAll(db, queue, repo, now).db, c) == Load(db, c) + StoredIn(db, queue, c, repo, now)
      {
        LoadAfterOffer(db, p, x, c, repo, now);
      }
      SaveAllSnoc(db, p, x, repo, now);
      AddedIffStored(db, p, x, SaveAll(db, p, repo, now).db, repo, now);
    }
  }

  /** `_save_accepted_blocks`: a dry run only reports how many blocks it
      would save; otherwise the queue is written and the count of blocks
      the store took is reported. */
  function Save(c: Collector, now: Time): (r: Collector)
    ensures r.index == c.index && r.extracted == c.extracted && r.accepted == c.accepted
    ensures r.dryRun == c.dryRun && r.repoName == c.repoName
    ensures c.dryRun ==> r.phase == DryRunDone(|c.accepted|) && r.db == c.db && r.calls == c.calls
    ensures !c.dryRun ==> r.phase.Saved? && r.phase.count <= |c.accepted|
    ensures !c.dryRun ==> |r.calls| == |c.calls| + |c.accepted| && r.calls[..|c.calls|] == c.calls
  {
    if c.dryRun then c.(phase := DryRunDone(|c.accepted|))
    else
      var out := SaveAll(c.db, c.accepted, c.repoName, now);
      assert (c.calls + out.calls)[..|c.calls|] == c.calls;
      c.(db := out.db, calls := c.calls + out.calls, phase := Saved(out.saved))
  }

  /** Outside a dry run the save leaves every category holding its blocks
      followed by the queued blocks the store took, and reports how many
      it took. */
  lemma SaveStores(c: Collector, now: Time)
    requires !c.dryRun
    ensures var r := Save(c, now);
      && r.phase == Saved(StoredCount(c.db, c.accepted))
      && forall category :: Load(r.db, category) == Load(c.db, category) + StoredIn(c.db, c.accepted, category, c.repoName, now)
  {
    SaveAllStores(c.db, c.accepted, c.repoName, now);
  }

  /** `_review_next_block`: the review screen for the current block, or the
      save once every block has been reviewed. */
  function Next(c: Collector, now: Time): (r: Collector)
    ensures r.index == c.index && r.extracted == c.extracted && r.accepted == c.accepted
    ensures r.dryRun == c.dryRun && r.repoName == c.repoName
    ensures r.phase == Reviewing <==> c.index < |c.extracted|
    ensures c.index < |c.extracted| ==> r.db == c.db && r.calls == c.calls
    ensures c.index >= |c.extracted| ==> r.phase.Saved? || r.phase.DryRunDone?
  {
    if c.index >= |c.extracted| then Save(c, now) else c.(phase := Reviewing)
  }

  /** `_accept_block`: queue the block under its category and move on. */
  function Queue(c: Collector, block: ExtractedBlock, category: string, now: Time): (r: Collector)
    ensures r.accepted == c.accepted + [(block, category)]
    ensures r.index == c.index + 1
  {
    Next(c.(accepted := c.accepted + [(block, category)], index := c.index + 1), now)
  }

  /** The dedup outcomes that queue the block as new: the category is
      empty, the check failed, it found no match, or it named a
      non-identical block the category does not hold. */
  predicate QueuesAsNew(existing: seq<Block>, dedup: Result<Option<DedupMatch>, AgentError>) {
    || existing == []
    || dedup.Failure?
    || dedup.value.None?
    || (!dedup.value.value.identical && !HasId(existing, dedup.value.value.id))
  }

  /** `_check_dedup` for an accepted block: a new block is queued under its
      category; an identical match records this repository on the matched
      block (outside a dry run) and moves on, crashing when the category
      does not hold that id; any other match opens the diff screen on the
      first block of the category with the matched id. */
  function CheckDedup(c: Collector, block: ExtractedBlock, dedup: Result<Option<DedupMatch>, AgentError>, now: Time): (r: Collector)
    ensures r.repoName == c.repoName && r.dryRun == c.dryRun && r.extracted == c.extracted
    ensures var category := CategoryOf(block);
      QueuesAsNew(Load(c.db, category), dedup) ==>
        r.accepted == c.accepted + [(block, category)] && r.index == c.index + 1
    ensures var existing := Load(c.db, CategoryOf(block));
      !QueuesAsNew(existing, dedup) && dedup.value.value.identical && c.dryRun ==>
        r.accepted == c.accepted && r.index == c.index + 1 && r.db == c.db && r.calls == c.calls
    ensures var category := CategoryOf(block);
      var existing := Load(c.db, category);
      !QueuesAsNew(existing, dedup) && dedup.value.value.identical && !c.dryRun ==>
        var m := dedup.value.value;
        && r.accepted == c.accepted
        && |r.calls| > |c.calls|
        && r.calls[..|c.calls| + 1] == c.calls + [AddRepoUsageCall(m.id, category, c.repoName)]
        && (HasId(existing, m.id) ==> r.index == c.index + 1)
        && (!HasId(existing, m.id) ==> r.phase == Crashed(NotFound(m.id)))
    ensures var category := CategoryOf(block);
      var existing := Load(c.db, category);
      !QueuesAsNew(existing, dedup) && !dedup.value.value.identical ==>
        var m := dedup.value.value;
        && r.db == c.db && r.calls == c.calls && r.accepted == c.accepted && r.index == c.index
        && r.phase.Resolving? && r.phase.newBlock == block && r.phase.category == category
        && r.phase.existing.id == m.id
        && exists i :: (0 <= i < |existing| && existing[i] == r.phase.existing
             && forall k :: 0 <= k < i ==> existing[k].id != m.id)
  {
    var category := CategoryOf(block);
    var existing := Load(c.db, category);
    if QueuesAsNew(existing, dedup) then Queue(c, block, category, now)
    else
      var m := dedup.value.value;
      if m.identical then
        if c.dryRun then Next(c.(index := c.index + 1), now)
        else
          var call := AddRepoUsageCall(m.id, category, c.repoName);
          match AddRepoUsage(c.db, m.id, category, c.repoName, now)
          case Failure(err) => c.(calls := c.calls + [call], phase := Crashed(err))
          case Success(db) => Next(c.(db := db, calls := c.calls + [call], index := c.index + 1), now)
      else
        c.(phase := Resolving(block, existing[IndexOfId(existing, m.id)], category))
  }

  /** The existing block after "use new": the new content and tags, this
      repository among its users; identity, origin, source agent and
      timestamps are kept (the store stamps the update time). */
  function UseNewBlock(existing: Block, newBlock: ExtractedBlock, repo: string): (r: Block)
    ensures r.id == existing.id && r.originRepo == existing.originRepo
    ensures r.sourceAgent == existing.sourceAgent
    ensures r.createdAt == existing.createdAt && r.updatedAt == existing.updatedAt
    ensures r.content == newBlock.content && r.tags == newBlock.suggestedTags
    ensures forall x :: x in r.usedByRepos <==> x in existing.usedByRepos || x == repo
    ensures |r.usedByRepos| <= |existing.usedByRepos| + 1
  {
    var users := if repo in existing.usedByRepos then existing.usedByRepos else existing.usedByRepos + [repo];
    existing.(content := newBlock.content, tags := newBlock.suggestedTags, usedByRepos := users)
  }

  /** Choosing "use new" twice is the same as choosing it once. */
  lemma UseNewIdempotent(existing: Block, newBlock: ExtractedBlock, repo: string)
    ensures UseNewBlock(UseNewBlock(existing, newBlock, repo), newBlock, repo) == UseNewBlock(existing, newBlock, repo)
  {
  }

  /** `_on_diff_resolved`: write the chosen resolution unless this is a dry
      run, then move on to the next block whatever was chosen. */
  function Resolve(c: Collector, newBlock: ExtractedBlock, existing: Block, category: string, choice: Option<DiffChoice>, now: Time): (r: Collector)
    ensures r.repoName == c.repoName && r.dryRun == c.dryRun && r.extracted == c.extracted
    ensures r.accepted == c.accepted
    ensures c.dryRun || choice.None? || choice == Some(SkipBoth) ==> r == Next(c.(index := c.index + 1), now)
    ensures !c.dryRun && choice == Some(UseNew) ==>
      |r.calls| > |c.calls| && r.calls[|c.calls|] == UpdateBlockCall(UseNewBlock(existing, newBlock, c.repoName), category)
    ensures !c.dryRun && choice == Some(KeepExisting) ==>
      |r.calls| > |c.calls| && r.calls[|c.calls|] == AddRepoUsageCall(existing.id, category, c.repoName)
  {
    var next := c.(index := c.index + 1);
    match choice
    case None => Next(next, now)
    case Some(SkipBoth) => Next(next, now)
    case Some(UseNew) =>
      var updated := UseNewBlock(existing, newBlock, c.repoName);
      if c.dryRun then Next(next, now)
      else
        var call := UpdateBlockCall(updated, category);
        (match UpdateBlock(c.db, updated, category, now)
         case Failure(err) => c.(calls := c.calls + [call], phase := Crashed(err))
         case Success(db) => Next(next.(db := db, calls := c.calls + [call]), now))
    case Some(KeepExisting) =>
      if c.dryRun then Next(next, now)
      else
        var call := AddRepoUsageCall(existing.id, category, c.repoName);
        match AddRepoUsage(c.db, existing.id, category, c.repoName, now)
        case Failure(err) => c.(calls := c.calls + [call], phase := Crashed(err))
        case Success(db) => Next(next.(db := db, calls := c.calls + [call]), now)
  }

  /** "Use new" outside a dry run: the store replaces the existing block
      with the merged one, or refuses when the category no longer holds its
      id; then the next block is reviewed, or the queue saved after the
      last one. */
  lemma ResolveUseNew(c: Collector, newBlock: ExtractedBlock, existing: Block, category: string, now: Time)
    requires !c.dryRun
    ensures var updated := UseNewBlock(existing, newBlock, c.repoName);
      var u := UpdateBlock(c.db, updated, category, now);
      var r := Resolve(c, newBlock, existing, category, Some(UseNew), now);
      && (u.Failure? <==> r.phase.Crashed?)
      && (u.Failure? ==> r.phase == Crashed(NotFound(existing.id)) && r.index == c.index)
      && (u.Success? ==> r.index == c.index + 1)
      && (u.Success? && c.index + 1 < |c.extracted| ==>
            r.phase == Reviewing && r.db == u.value && r.calls == c.calls + [UpdateBlockCall(updated, category)])
      && (u.Success? && c.index + 1 >= |c.extracted| ==> r.phase.Saved?)
  {
  }

  /** "Keep existing" outside a dry run: the store records this repository
      on the existing block, or refuses when the category no longer holds
      its id; then the next block is reviewed, or the queue saved after the
      last one. */
  lemma ResolveKeepExisting(c: Collector, newBlock: ExtractedBlock, existing: Block, category: string, now: Time)
    requires !c.dryRun
    ensures var u := AddRepoUsage(c.db, existing.id, category, c.repoName, now);
      var r := Resolve(c, newBlock, existing, category, Some(KeepExisting), now);
      && (u.Failure? <==> r.phase.Crashed?)
      && (u.Failure? ==> r.phase == Crashed(NotFound(existing.id)) && r.index == c.index)
      && (u.Success? ==> r.index == c.index + 1)
      && (u.Success? && c.index + 1 < |c.extracted| ==>
            r.phase == Reviewing && r.db == u.value && r.calls == c.calls + [AddRepoUsageCall(existing.id, category, c.repoName)])
      && (u.Success? && c.index + 1 >= |c.extracted| ==> r.phase.Saved?)
  {
  }

  /** One event. Events the open screen cannot produce are ignored, and
      nothing happens once the application has exited. */
  function Step(c: Collector, e: Event, now: Time): (r: Collector)
    ensures r.repoName == c.repoName && r.dryRun == c.dryRun && r.extracted == c.extracted
    ensures !Active(c.phase) ==> r == c
  {
    match c.phase
    case Reviewing =>
      (match e
       case ReviewClosed => c.(phase := Exited)
       case ReviewSkipped => Next(c.(index := c.index + 1), now)
       case ReviewAccepted(form, dedup) => CheckDedup(c, EditedBlock(form), dedup, now)
       case DiffResolved(_) => c)
    case Resolving(newBlock, existing, category) =>
      (match e
       case DiffResolved(choice) => Resolve(c, newBlock, existing, category, choice, now)
       case _ => c)
    case _ => c
  }

  /** A sequence of events, the i-th read at clock time `clock(start + i)`. */
  function Run(c: Collector, events: seq<Event>, clock: nat -> Time, start: nat): (r: Collector)
    ensures r.repoName == c.repoName && r.dryRun == c.dryRun && r.extracted == c.extracted
    decreases |events|
  {
    if |events| == 0 then c
    else Run(Step(c, events[0], clock(start)), events[1..], clock, start + 1)
  }

  /** The collector invariant: the index never passes the candidates, a
      screen is open only for an existing candidate, the application saves
      only after the last one, a diff screen shows a block the store holds,
      and every queued block carries the default source agent. */
  predicate Wf(c: Collector) {
    && c.index <= |c.extracted|
    && (Active(c.phase) ==> c.index < |c.extracted|)
    && (c.phase.Saved? || c.phase.DryRunDone? ==> c.index == |c.extracted|)
    && (c.phase.Resolving? ==> c.phase.existing in Load(c.db, c.phase.category))
    && (forall k :: 0 <= k < |c.accepted| ==> c.accepted[k].0.sourceAgent == Unknown)
  }

  /** The collector starts in a well-formed state. */
  lemma StartWf(
    repoName: string, dryRun: bool, db: Db,
    discovered: Result<seq<RelevantFile>, AgentError>,
    extract: RelevantFile -> Option<seq<ExtractedBlock>>)
    ensures Wf(Start(repoName, dryRun, db, discovered, extract))
  {
  }

  /** Reviewing a block and moving on keeps the invariant. */
  lemma NextWf(c: Collector, now: Time)
    requires c.index <= |c.extracted|
    requires forall k :: 0 <= k < |c.accepted| ==> c.accepted[k].0.sourceAgent == Unknown
    ensures Wf(Next(c, now))
  {
  }

  /** Every event keeps the invariant. */
  lemma StepWf(c: Collector, e: Event, now: Time)
    requires Wf(c)
    ensures Wf(Step(c, e, now))
  {
    var r := Step(c, e, now);
    match c.phase {
      case Reviewing =>
        match e {
          case ReviewAccepted(form, dedup) =>
            var block := EditedBlock(form);
            var existing := Load(c.db, CategoryOf(block));
            if QueuesAsNew(existing, dedup) {
              NextWf(c.(accepted := c.accepted + [(block, CategoryOf(block))], index := c.index + 1), now);
            } else if dedup.value.value.identical {
              if c.dryRun {
                NextWf(c.(index := c.index + 1), now);
              } else if AddRepoUsage(c.db, dedup.value.value.id, CategoryOf(block), c.repoName, now).Success? {
                NextWf(c.(db := AddRepoUsage(c.db, dedup.value.value.id, CategoryOf(block), c.repoName, now).value,
                          calls := c.calls + [AddRepoUsageCall(dedup.value.value.id, CategoryOf(block), c.repoName)],
                          index := c.index + 1), now);
              }
            }
          case ReviewSkipped =>
            NextWf(c.(index := c.index + 1), now);
          case _ =>
        }
      case Resolving(newBlock, existing, category) =>
        if e.DiffResolved? {
          ResolveWf(c, newBlock, existing, category, e.choice, now);
        }
      case _ =>
    }
  }

  /** Resolving a diff keeps the invariant. */
  lemma ResolveWf(c: Collector, newBlock: ExtractedBlock, existing: Block, category: string, choice: Option<DiffChoice>, now: Time)
    requires Wf(c) && c.phase.Resolving?
    ensures Wf(Resolve(c, newBlock, existing, category, choice, now))
  {
    var next := c.(index := c.index + 1);
    NextWf(next, now);
    if !c.dryRun && choice == Some(UseNew) {
      var updated := UseNewBlock(existing, newBlock, c.repoName);
      if UpdateBlock(c.db, updated, category, now).Success? {
        NextWf(next.(db := UpdateBlock(c.db, updated, category, now).value, calls := c.calls + [UpdateBlockCall(updated, category)]), now);
      }
    }
    if !c.dryRun && choice == Some(KeepExisting) {
      if AddRepoUsage(c.db, existing.id, category, c.repoName, now).Success? {
        NextWf(next.(db := AddRepoUsage(c.db, existing.id, category, c.repoName, now).value,
                     calls := c.calls + [AddRepoUsageCall(existing.id, category, c.repoName)]), now);
      }
    }
  }

  /** Any run of events keeps the invariant. */
  lemma {:induction false} RunWf(c: Collector, events: seq<Event>, clock: nat -> Time, start: nat)
    requires Wf(c)
    ensures Wf(Run(c, events, clock, start))
    decreases |events|
  {
    if |events| > 0 {
      StepWf(c, events[0], clock(start));
      RunWf(Step(c, events[0], clock(start)), events[1..], clock, start + 1);
    }
  }

  /** A dry run neither changes the store nor calls it. */
  lemma DryRunStepWritesNothing(c: Collector, e: Event, now: Time)
    requires c.dryRun
    ensures Step(c, e, now).db == c.db && Step(c, e, now).calls == c.calls
  {
  }

  /** Over any run of events, a dry run neither changes the store nor calls it. */
  lemma {:induction false} DryRunWritesNothing(c: Collector, events: seq<Event>, clock: nat -> Time, start: nat)
    requires c.dryRun
    ensures Run(c, events, clock, start).db == c.db && Run(c, events, clock, start).calls == c.calls
    decreases |events|
  {
    if |events| > 0 {
      DryRunStepWritesNothing(c, events[0], clock(start));
      DryRunWritesNothing(Step(c, events[0], clock(start)), events[1..], clock, start + 1);
    }
  }

  /** Once the application has exited, no run of events changes it. */
  lemma {:induction false} ExitedIsFinal(c: Collector, events: seq<Event>, clock: nat -> Time, start: nat)
    requires !Active(c.phase)
    ensures Run(c, events, clock, start) == c
    decreases |events|
  {
    if |events| > 0 {
      ExitedIsFinal(Step(c, events[0], clock(start)), events[1..], clock, start + 1);
    }
  }

  /** Closing the review screen exits without queuing or writing anything. */
  lemma ClosedReviewSavesNothing(c: Collector, now: Time)
    requires c.phase.Reviewing?
    ensures var r := Step(c, ReviewClosed, now);
      r.phase == Exited && r.db == c.db && r.calls == c.calls && r.accepted == c.accepted
  {
  }

  /** Each concluded review moves to the next block: whenever an event
      changes the open screen the index grows by exactly one, and it never
      grows by more. */
  lemma StepAdvancesByOne(c: Collector, e: Event, now: Time)
    requires Wf(c)
    ensures c.index <= Step(c, e, now).index <= c.index + 1
    ensures Active(c.phase) && Step(c, e, now).phase.Reviewing? && Step(c, e, now) != c ==>
      Step(c, e, now).index == c.index + 1
  {
  }

  /** An accepted block is queued exactly when the dedup outcome says it is
      new; it is then queued under its category, and otherwise the queue is
      unchanged. */
  lemma AcceptQueuesIff(c: Collector, form: Form, dedup: Result<Option<DedupMatch>, AgentError>, now: Time)
    requires c.phase.Reviewing?
    ensures var r := Step(c, ReviewAccepted(form, dedup), now);
      var block := EditedBlock(form);
      && (|r.accepted| == |c.accepted| + 1 <==> QueuesAsNew(Load(c.db, CategoryOf(block)), dedup))
      && (QueuesAsNew(Load(c.db, CategoryOf(block)), dedup) ==> r.accepted == c.accepted + [(block, CategoryOf(block))])
      && (!QueuesAsNew(Load(c.db, CategoryOf(block)), dedup) ==> r.accepted == c.accepted)
  {
  }

  /** An identical match merges this repository into the existing block
      (outside a dry run), queues nothing and moves on; after the last block
      the queue is saved as well, which leaves the merged block in place. */
  lemma IdenticalMatchMerges(c: Collector, form: Form, m: DedupMatch, now: Time)
    requires c.phase.Reviewing? && !c.dryRun && m.identical
    requires HasId(Load(c.db, CategoryOf(EditedBlock(form))), m.id)
    ensures var r := Step(c, ReviewAccepted(form, Success(Some(m))), now);
      var category := CategoryOf(EditedBlock(form));
      var call := AddRepoUsageCall(m.id, category, c.repoName);
      && r.accepted == c.accepted
      && r.index == c.index + 1
      && |r.calls| > |c.calls| && r.calls[..|c.calls| + 1] == c.calls + [call]
      && (c.index + 1 < |c.extracted| ==> r.phase == Reviewing && r.calls == c.calls + [call])
      && (c.index + 1 >= |c.extracted| ==> r.phase.Saved?)
      && var after := Load(r.db, category);
         var i := IndexOfId(after, m.id);
         i != -1 && c.repoName in after[i].usedByRepos
  {
    var category := CategoryOf(EditedBlock(form));
    var call := AddRepoUsageCall(m.id, category, c.repoName);
    var db1 := AddRepoUsage(c.db, m.id, category, c.repoName, now).value;
    IndexOfIdSameIds(Load(c.db, category), Load(db1, category), m.id);
    var merged := c.(db := db1, calls := c.calls + [call], index := c.index + 1);
    MergeStep(c, form, m, now);
    NextAfterMerge(c, merged, category, m.id, call, now);
  }

  /** An identical match the category holds is recorded by the store and
      the collector moves to the next block. */
  lemma MergeStep(c: Collector, form: Form, m: DedupMatch, now: Time)
    requires c.phase.Reviewing? && !c.dryRun && m.identical
    requires HasId(Load(c.db, CategoryOf(EditedBlock(form))), m.id)
    ensures var category := CategoryOf(EditedBlock(form));
      var db1 := AddRepoUsage(c.db, m.id, category, c.repoName, now);
      && db1.Success?
      && Step(c, ReviewAccepted(form, Success(Some(m))), now)
         == Next(c.(db := db1.value, calls := c.calls + [AddRepoUsageCall(m.id, category, c.repoName)], index := c.index + 1), now)
  {
    var block := EditedBlock(form);
    assert !QueuesAsNew(Load(c.db, CategoryOf(block)), Success(Some(m)));
  }

  /** After a merge the next screen opens, or after the last block the
      queue is saved; either way the merged block keeps this repository. */
  lemma NextAfterMerge(c: Collector, merged: Collector, category: string, id: string, call: StoreCall, now: Time)
    requires !merged.dryRun && merged.repoName == c.repoName
    requires merged.calls == c.calls + [call] && merged.index == c.index + 1
    requires merged.accepted == c.accepted && merged.extracted == c.extracted
    requires var before := Load(merged.db, category);
      IndexOfId(before, id) != -1 && c.repoName in before[IndexOfId(before, id)].usedByRepos
    ensures var r := Next(merged, now);
      && r.accepted == c.accepted
      && r.index == c.index + 1
      && |r.calls| > |c.calls| && r.calls[..|c.calls| + 1] == c.calls + [call]
      && (c.index + 1 < |c.extracted| ==> r.phase == Reviewing && r.calls == c.calls + [call])
      && (c.index + 1 >= |c.extracted| ==> r.phase.Saved?)
      && var after := Load(r.db, category);
         var i := IndexOfId(after, id);
         i != -1 && c.repoName in after[i].usedByRepos
  {
    if c.index + 1 >= |c.extracted| {
      SaveKeepsUser(merged, category, id, c.repoName, now);
      assert (c.calls + [call])[..|c.calls| + 1] == c.calls + [call];
    }
  }

  /** Saving the queue leaves a block that lists a repository in place:
      the queue is only appended after it. */
  lemma SaveKeepsUser(c: Collector, category: string, id: string, repo: string, now: Time)
    requires !c.dryRun
    requires var before := Load(c.db, category);
      IndexOfId(before, id) != -1 && repo in before[IndexOfId(before, id)].usedByRepos
    ensures var after := Load(Save(c, now).db, category);
      IndexOfId(after, id) != -1 && repo in after[IndexOfId(after, id)].usedByRepos
  {
    var before := Load(c.db, category);
    SaveAllStores(c.db, c.accepted, c.repoName, now);
    var added := StoredIn(c.db, c.accepted, category, c.repoName, now);
    assert Load(Save(c, now).db, category) == before + added;
    IndexOfIdAppend(before, added, id);
    assert (before + added)[IndexOfId(before, id)] == before[IndexOfId(before, id)];
  }

  /** The collector crashes on an accepted block exactly when, outside a dry
      run, the dedup agent calls it identical to an id its category does not
      hold (the store then refuses the repository usage). */
  lemma AcceptCrashesIff(c: Collector, form: Form, dedup: Result<Option<DedupMatch>, AgentError>, now: Time)
    requires c.phase.Reviewing?
    ensures var block := EditedBlock(form);
      var existing := Load(c.db, CategoryOf(block));
      Step(c, ReviewAccepted(form, dedup), now).phase.Crashed? <==>
        && !c.dryRun && existing != []
        && dedup.Success? && dedup.value.Some? && dedup.value.value.identical
        && !HasId(existing, dedup.value.value.id)
  {
  }

  /** A diff screen never crashes the collector: the block it shows is
      still in its category, so the store accepts the update or the usage. */
  lemma ResolveNeverCrashes(c: Collector, e: Event, now: Time)
    requires Wf(c) && c.phase.Resolving?
    ensures !Step(c, e, now).phase.Crashed?
  {
    var ex := c.phase.existing;
    var category := c.phase.category;
    assert HasId(Load(c.db, category), ex.id) by {
      var k :| 0 <= k < |Load(c.db, category)| && Load(c.db, category)[k] == ex;
    }
  }

  /** Every block the save writes has this repository as origin and only
      user, and the default source agent: the review screen does not carry
      the discovered agent over. */
  lemma SavedBlocksShape(c: Collector, now: Time)
    requires Wf(c) && !c.dryRun
    ensures var r := Save(c, now);
      forall k :: |c.calls| <= k < |r.calls| ==>
        && r.calls[k].AddBlockCall?
        && r.calls[k].block.originRepo == c.repoName
        && r.calls[k].block.usedByRepos == [c.repoName]
        && r.calls[k].block.sourceAgent == Unknown
  {
    var out := SaveAll(c.db, c.accepted, c.repoName, now);
    assert Save(c, now).calls == c.calls + out.calls;
    forall k | |c.calls| <= k < |c.calls| + |out.calls|
      ensures (c.calls + out.calls)[k] == out.calls[k - |c.calls|]
    {
    }
  }
}
