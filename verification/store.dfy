/** The guideline database (devconfig-cli `agent_guide/db/store.py`): one
    JSON file per category in the database directory, modelled as a map from
    file stem to the blocks that file holds. Every operation loads its
    category, changes it and writes it back whole; a missing file loads as
    an empty category. */
module Store {
  import opened Wrappers
  import opened Models

  /** The database directory: category file stem -> blocks of that file. */
  type Db = map<string, seq<Block>>

  /** The `ValueError`s the store raises. */
  datatype StoreError = DuplicateId(id: string) | NotFound(id: string)

  /** The stem of the reserved file that is not a category. */
  const SchemaStem: string := "schema"

  predicate HasId(bs: seq<Block>, id: string) {
    exists i :: 0 <= i < |bs| && bs[i].id == id
  }

  predicate UniqueIds(bs: seq<Block>) {
    forall i, j :: 0 <= i < j < |bs| ==> bs[i].id != bs[j].id
  }

  /** The store invariant: ids are pairwise distinct within each category. */
  predicate ValidDb(db: Db) {
    forall c :: c in db ==> UniqueIds(db[c])
  }

  /** `order` is a directory listing of the database: it names exactly the
      files present (the order `glob` happens to produce). */
  ghost predicate IsListing(db: Db, order: seq<string>) {
    forall c :: c in db <==> c in order
  }

  /** `_load_category`: the blocks of a category, empty when it has no file. */
  function Load(db: Db, category: string): seq<Block> {
    if category in db then db[category] else []
  }

  /** The position of the first block with the given id, or -1. */
  function IndexOfId(bs: seq<Block>, id: string): (r: int)
    ensures r == -1 <==> !HasId(bs, id)
    ensures r != -1 ==> 0 <= r < |bs| && bs[r].id == id
    ensures r != -1 ==> forall k :: 0 <= k < r ==> bs[k].id != id
  {
    if |bs| == 0 then -1
    else if bs[0].id == id then 0
    else
      var k := IndexOfId(bs[1..], id);
      if k == -1 then -1 else k + 1
  }

  /** Appending blocks does not move the first block with an id the list
      already holds. */
  lemma IndexOfIdAppend(a: seq<Block>, b: seq<Block>, id: string)
    requires HasId(a, id)
    ensures IndexOfId(a + b, id) == IndexOfId(a, id)
  {
    var i := IndexOfId(a, id);
    var j := IndexOfId(a + b, id);
    assert (a + b)[i] == a[i];
    assert j <= i;
    assert a[j] == (a + b)[j];
  }

  /** `add_block`: refuses an id already present in the category, otherwise
      appends the block and leaves every other category alone. */
  function AddBlock(db: Db, b: Block, category: string): (r: Result<Db, StoreError>)
    ensures r.Failure? <==> HasId(Load(db, category), b.id)
    ensures r.Failure? ==> r.error == DuplicateId(b.id)
    ensures r.Success? ==> Load(r.value, category) == Load(db, category) + [b]
    ensures r.Success? ==> r.value.Keys == db.Keys + {category}
    ensures r.Success? ==> forall c :: c != category ==> Load(r.value, c) == Load(db, c)
  {
    var bs := Load(db, category);
    if IndexOfId(bs, b.id) != -1 then Failure(DuplicateId(b.id))
    else Success(db[category := bs + [b]])
  }

  /** `update_block`: replaces the first block carrying the id, stamped with
      the current time, at the same position; an absent id is an error. */
  function UpdateBlock(db: Db, b: Block, category: string, now: Time): (r: Result<Db, StoreError>)
    ensures r.Failure? <==> !HasId(Load(db, category), b.id)
    ensures r.Failure? ==> r.error == NotFound(b.id)
    ensures r.Success? ==>
      var before := Load(db, category);
      var after := Load(r.value, category);
      var i := IndexOfId(before, b.id);
      && |after| == |before|
      && after[i] == b.(updatedAt := now)
      && (forall k :: 0 <= k < |before| && k != i ==> after[k] == before[k])
    ensures r.Success? ==> r.value.Keys == db.Keys
    ensures r.Success? ==> forall c :: c != category ==> Load(r.value, c) == Load(db, c)
  {
    var bs := Load(db, category);
    var i := IndexOfId(bs, b.id);
    if i == -1 then Failure(NotFound(b.id))
    else Success(db[category := bs[i := b.(updatedAt := now)]])
  }

  /** The blocks whose id differs from `id`, in their original order. */
  function RemoveId(bs: seq<Block>, id: string): (r: seq<Block>)
    ensures |r| <= |bs|
    ensures !HasId(r, id)
    ensures forall b :: b in r <==> b in bs && b.id != id
    ensures !HasId(bs, id) ==> r == bs
  {
    if |bs| == 0 then []
    else
      var rest := RemoveId(bs[1..], id);
      if bs[0].id == id then rest
      else
        assert !HasId(bs, id) ==> !HasId(bs[1..], id);
        [bs[0]] + rest
  }

  /** Removing commutes with concatenation, so the surviving blocks keep
      their relative order. */
  lemma {:induction false} RemoveIdAppend(a: seq<Block>, b: seq<Block>, id: string)
    ensures RemoveId(a + b, id) == RemoveId(a, id) + RemoveId(b, id)
    decreases |a|
  {
    if |a| == 0 {
      assert a + b == b;
    } else {
      assert (a + b)[0] == a[0];
      assert (a + b)[1..] == a[1..] + b;
      RemoveIdAppend(a[1..], b, id);
    }
  }

  /** `delete_block`: drops every block with the id and writes the category
      back, creating an empty category file when there was none. */
  function DeleteBlock(db: Db, id: string, category: string): (r: Db)
    ensures Load(r, category) == RemoveId(Load(db, category), id)
    ensures r.Keys == db.Keys + {category}
    ensures forall c :: c != category ==> Load(r, c) == Load(db, c)
  {
    db[category := RemoveId(Load(db, category), id)]
  }

  /** Deleting an absent id changes no category's blocks. */
  lemma DeleteAbsentIsNoop(db: Db, id: string, category: string)
    requires !HasId(Load(db, category), id)
    ensures forall c :: Load(DeleteBlock(db, id, category), c) == Load(db, c)
  {
  }

  /** `add_repo_usage`: records that `repo` uses the first block with the
      id. The repo is appended and the block stamped only when it was not
      already listed; an absent id is an error. */
  function AddRepoUsage(db: Db, id: string, category: string, repo: string, now: Time): (r: Result<Db, StoreError>)
    ensures r.Failure? <==> !HasId(Load(db, category), id)
    ensures r.Failure? ==> r.error == NotFound(id)
    ensures r.Success? ==>
      var before := Load(db, category);
      var after := Load(r.value, category);
      var i := IndexOfId(before, id);
      && |after| == |before|
      && (forall k :: 0 <= k < |before| && k != i ==> after[k] == before[k])
      && repo in after[i].usedByRepos
      && after[i].(usedByRepos := before[i].usedByRepos, updatedAt := before[i].updatedAt) == before[i]
      && (repo in before[i].usedByRepos ==> after[i] == before[i])
      && (repo !in before[i].usedByRepos ==>
            after[i].usedByRepos == before[i].usedByRepos + [repo] && after[i].updatedAt == now)
    ensures r.Success? ==> r.value.Keys == db.Keys
    ensures r.Success? ==> forall c :: c != category ==> Load(r.value, c) == Load(db, c)
  {
    var bs := Load(db, category);
    var i := IndexOfId(bs, id);
    if i == -1 then Failure(NotFound(id))
    else
      var b := bs[i];
      var b' := if repo in b.usedByRepos then b else b.(usedByRepos := b.usedByRepos + [repo], updatedAt := now);
      Success(db[category := bs[i := b']])
  }

  /** How many times `x` occurs in `xs`. */
  function Count(xs: seq<string>, x: string): nat {
    if |xs| == 0 then 0
    else (if xs[0] == x then 1 else 0) + Count(xs[1..], x)
  }

  lemma {:induction false} CountAppend(xs: seq<string>, ys: seq<string>, x: string)
    ensures Count(xs + ys, x) == Count(xs, x) + Count(ys, x)
    decreases |xs|
  {
    if |xs| == 0 {
      assert xs + ys == ys;
    } else {
      assert (xs + ys)[1..] == xs[1..] + ys;
      CountAppend(xs[1..], ys, x);
    }
  }

  lemma {:induction false} CountAbsent(xs: seq<string>, x: string)
    requires x !in xs
    ensures Count(xs, x) == 0
    decreases |xs|
  {
    if |xs| > 0 {
      CountAbsent(xs[1..], x);
    }
  }

  /** After `add_repo_usage`, a repo that was not listed appears exactly
      once, and one that was listed keeps its count. */
  lemma AddRepoUsageCount(db: Db, id: string, category: string, repo: string, now: Time)
    requires HasId(Load(db, category), id)
    ensures var before := Load(db, category);
      var after := Load(AddRepoUsage(db, id, category, repo, now).value, category);
      var i := IndexOfId(before, id);
      Count(after[i].usedByRepos, repo) ==
        if repo in before[i].usedByRepos then Count(before[i].usedByRepos, repo) else 1
  {
    var before := Load(db, category);
    var i := IndexOfId(before, id);
    var used := before[i].usedByRepos;
    if repo !in used {
      CountAbsent(used, repo);
      CountAppend(used, [repo], repo);
      assert Count([repo], repo) == 1;
    }
  }

  /** `add_repo_usage` is idempotent: a second call for the same block and
      repo, at any later time, changes nothing. */
  lemma AddRepoUsageIdempotent(db: Db, id: string, category: string, repo: string, t1: Time, t2: Time)
    requires AddRepoUsage(db, id, category, repo, t1).Success?
    ensures var once := AddRepoUsage(db, id, category, repo, t1).value;
      AddRepoUsage(once, id, category, repo, t2) == Success(once)
  {
    var once := AddRepoUsage(db, id, category, repo, t1).value;
    var bs := Load(db, category);
    var i := IndexOfId(bs, id);
    var b := bs[i];
    var b' := if repo in b.usedByRepos then b else b.(usedByRepos := b.usedByRepos + [repo], updatedAt := t1);
    var after := bs[i := b'];
    assert once == db[category := after];
    assert Load(once, category) == after;
    IndexOfIdSameIds(bs, after, id);
    assert after[i := after[i]] == after;
    assert once[category := after] == once;
  }

  /** Lists with the same ids position by position find an id at the same
      place. */
  lemma {:induction false} IndexOfIdSameIds(a: seq<Block>, b: seq<Block>, id: string)
    requires |a| == |b|
    requires forall k :: 0 <= k < |a| ==> a[k].id == b[k].id
    ensures IndexOfId(a, id) == IndexOfId(b, id)
    decreases |a|
  {
    if |a| > 0 {
      IndexOfIdSameIds(a[1..], b[1..], id);
    }
  }

  /** A category with no file accepts any block. */
  lemma AddToMissingCategory(db: Db, b: Block, category: string)
    requires category !in db
    ensures AddBlock(db, b, category) == Success(db[category := [b]])
  {
    assert Load(db, category) + [b] == [b];
  }

  /** Rewriting one category with an id-unique list keeps the store valid. */
  lemma ValidAfterWrite(db: Db, category: string, bs: seq<Block>)
    requires ValidDb(db) && UniqueIds(bs)
    ensures ValidDb(db[category := bs])
  {
  }

  /** Two lists with the same ids position by position are equally unique. */
  lemma SameIdsUnique(a: seq<Block>, b: seq<Block>)
    requires |a| == |b| && UniqueIds(a)
    requires forall k :: 0 <= k < |a| ==> a[k].id == b[k].id
    ensures UniqueIds(b)
  {
  }

  /** Adding keeps ids unique within every category. */
  lemma AddBlockKeepsValid(db: Db, b: Block, category: string)
    requires ValidDb(db)
    requires AddBlock(db, b, category).Success?
    ensures ValidDb(AddBlock(db, b, category).value)
  {
    var bs := Load(db, category);
    var nbs := bs + [b];
    forall i, j | 0 <= i < j < |nbs|
      ensures nbs[i].id != nbs[j].id
    {
      if j == |bs| {
        assert nbs[i] == bs[i];
      }
    }
    ValidAfterWrite(db, category, nbs);
  }

  /** Updating keeps ids unique within every category. */
  lemma UpdateBlockKeepsValid(db: Db, b: Block, category: string, now: Time)
    requires ValidDb(db)
    requires UpdateBlock(db, b, category, now).Success?
    ensures ValidDb(UpdateBlock(db, b, category, now).value)
  {
    var bs := Load(db, category);
    var i := IndexOfId(bs, b.id);
    SameIdsUnique(bs, bs[i := b.(updatedAt := now)]);
    ValidAfterWrite(db, category, bs[i := b.(updatedAt := now)]);
  }

  /** Removing from an id-unique list leaves it id-unique. */
  lemma {:induction false} RemoveIdKeepsUnique(bs: seq<Block>, id: string)
    requires UniqueIds(bs)
    ensures UniqueIds(RemoveId(bs, id))
    decreases |bs|
  {
    if |bs| > 0 {
      RemoveIdKeepsUnique(bs[1..], id);
      var rest := RemoveId(bs[1..], id);
      if bs[0].id != id {
        var r := [bs[0]] + rest;
        forall j | 0 < j < |r|
          ensures r[0].id != r[j].id
        {
          assert r[j] in bs[1..];
        }
      }
    }
  }

  /** Deleting keeps ids unique within every category. */
  lemma DeleteBlockKeepsValid(db: Db, id: string, category: string)
    requires ValidDb(db)
    ensures ValidDb(DeleteBlock(db, id, category))
  {
    RemoveIdKeepsUnique(Load(db, category), id);
    ValidAfterWrite(db, category, RemoveId(Load(db, category), id));
  }

  /** Recording a repo keeps ids unique within every category. */
  lemma AddRepoUsageKeepsValid(db: Db, id: string, category: string, repo: string, now: Time)
    requires ValidDb(db)
    requires AddRepoUsage(db, id, category, repo, now).Success?
    ensures ValidDb(AddRepoUsage(db, id, category, repo, now).value)
  {
    var bs := Load(db, category);
    var after := Load(AddRepoUsage(db, id, category, repo, now).value, category);
    SameIdsUnique(bs, after);
    ValidAfterWrite(db, category, after);
  }

  /** The blocks of the files named in `order`, file by file, skipping the
      schema file. */
  function BlocksOfFiles(db: Db, order: seq<string>): (r: seq<Block>)
    ensures forall b :: b in r <==>
      exists k :: 0 <= k < |order| && order[k] != SchemaStem && b in Load(db, order[k])
  {
    if |order| == 0 then []
    else
      var head := if order[0] == SchemaStem then [] else Load(db, order[0]);
      var rest := BlocksOfFiles(db, order[1..]);
      assert forall b :: b in rest <==>
        exists k :: 1 <= k < |order| && order[k] != SchemaStem && b in Load(db, order[k]) by {
        forall b | b in rest
          ensures exists k :: 1 <= k < |order| && order[k] != SchemaStem && b in Load(db, order[k])
        {
          var k :| 0 <= k < |order[1..]| && order[1..][k] != SchemaStem && b in Load(db, order[1..][k]);
          assert order[k + 1] == order[1..][k];
        }
        forall b, k | 1 <= k < |order| && order[k] != SchemaStem && b in Load(db, order[k])
          ensures b in rest
        {
          assert order[1..][k - 1] == order[k];
        }
      }
      head + rest
  }

  /** `get_all_blocks()` without a category: every block of every category
      file, and nothing from the schema file. */
  function AllBlocks(db: Db, order: seq<string>): (r: seq<Block>)
    requires IsListing(db, order)
    ensures forall b :: b in r <==> exists c :: c in db && c != SchemaStem && b in db[c]
  {
    var r := BlocksOfFiles(db, order);
    assert forall b :: b in r ==> exists c :: c in db && c != SchemaStem && b in db[c] by {
      forall b | b in r
        ensures exists c :: c in db && c != SchemaStem && b in db[c]
      {
        var k :| 0 <= k < |order| && order[k] != SchemaStem && b in Load(db, order[k]);
        assert order[k] in db;
      }
    }
    assert forall b, c :: c in db && c != SchemaStem && b in db[c] ==> b in r by {
      forall b, c | c in db && c != SchemaStem && b in db[c]
        ensures b in r
      {
        var k :| 0 <= k < |order| && order[k] == c;
        assert b in Load(db, order[k]);
      }
    }
    r
  }

  /** `get_all_blocks(category)`: a non-empty category name loads that one
      file; no category, or the empty name, loads them all. */
  function GetAllBlocks(db: Db, order: seq<string>, category: Option<string>): (r: seq<Block>)
    requires IsListing(db, order)
    ensures category.Some? && category.value != "" ==> r == Load(db, category.value)
    ensures (category.None? || category.value == "") ==>
      forall b :: b in r <==> exists c :: c in db && c != SchemaStem && b in db[c]
  {
    if category.Some? && category.value != "" then Load(db, category.value)
    else AllBlocks(db, order)
  }

  /** `get_block`: the first block, across all categories, with the id. */
  function GetBlock(db: Db, order: seq<string>, id: string): (r: Option<Block>)
    requires IsListing(db, order)
    ensures r.Some? <==> HasId(AllBlocks(db, order), id)
    ensures r.Some? ==> r.value.id == id && r.value in AllBlocks(db, order)
    ensures r.Some? ==> exists i :: (0 <= i < |AllBlocks(db, order)| && AllBlocks(db, order)[i] == r.value
      && forall k :: 0 <= k < i ==> AllBlocks(db, order)[k].id != id)
  {
    var all := AllBlocks(db, order);
    var i := IndexOfId(all, id);
    if i == -1 then None else Some(all[i])
  }

  /** The blocks whose language tag equals `language`, in order. */
  function FilterLanguage(bs: seq<Block>, language: Option<string>): (r: seq<Block>)
    ensures |r| <= |bs|
    ensures forall b :: b in r <==> b in bs && b.tags.language == language
  {
    if |bs| == 0 then []
    else
      var rest := FilterLanguage(bs[1..], language);
      if bs[0].tags.language == language then [bs[0]] + rest else rest
  }

  /** `get_blocks_by_language`: exactly the stored blocks tagged with the
      language; `None` selects the generic blocks and no tagged one. */
  function GetBlocksByLanguage(db: Db, order: seq<string>, language: Option<string>): (r: seq<Block>)
    requires IsListing(db, order)
    ensures forall b :: b in r ==> b.tags.language == language
    ensures forall b :: b in r <==>
      (exists c :: c in db && c != SchemaStem && b in db[c]) && b.tags.language == language
  {
    FilterLanguage(AllBlocks(db, order), language)
  }

  /** A block applies to an architecture when it names it or names none. */
  predicate ArchitectureMatches(b: Block, architecture: string) {
    architecture in b.tags.architecture || |b.tags.architecture| == 0
  }

  /** The blocks applying to the architecture, in order. */
  function FilterArchitecture(bs: seq<Block>, architecture: string): (r: seq<Block>)
    ensures |r| <= |bs|
    ensures forall b :: b in r <==> b in bs && ArchitectureMatches(b, architecture)
  {
    if |bs| == 0 then []
    else
      var rest := FilterArchitecture(bs[1..], architecture);
      if ArchitectureMatches(bs[0], architecture) then [bs[0]] + rest else rest
  }

  /** `get_blocks_by_architecture`: exactly the stored blocks whose
      architecture list is empty or contains the style. */
  function GetBlocksByArchitecture(db: Db, order: seq<string>, architecture: string): (r: seq<Block>)
    requires IsListing(db, order)
    ensures forall b :: b in r <==>
      (exists c :: c in db && c != SchemaStem && b in db[c])
      && (|b.tags.architecture| == 0 || architecture in b.tags.architecture)
  {
    FilterArchitecture(AllBlocks(db, order), architecture)
  }

  /** The names in a listing other than the schema file, in order. */
  function NonSchema(order: seq<string>): (r: seq<string>)
    ensures forall c :: c in r <==> c in order && c != SchemaStem
  {
    if |order| == 0 then []
    else
      var rest := NonSchema(order[1..]);
      if order[0] == SchemaStem then rest else [order[0]] + rest
  }

  /** `get_categories`: the stems of the files present, minus the schema. */
  function GetCategories(db: Db, order: seq<string>): (r: seq<string>)
    requires IsListing(db, order)
    ensures forall c :: c in r <==> c in db && c != SchemaStem
  {
    NonSchema(order)
  }
}
