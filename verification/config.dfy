/** Fixed enumerations and database paths of the agent guide
    (devconfig-cli `agent_guide/config.py`). */
module Config {
  import opened Text

  /** The category files, "generic" first, then the languages. */
  const Categories: seq<string> := ["generic", "python", "typescript", "rust", "go", "java"]

  /** The architecture styles a block can be tagged with. */
  const Architectures: seq<string> := ["rapid-prototype", "clean-architecture", "hexagonal"]

  /** The configuration formats the builder can emit. */
  const OutputFormats: seq<string> := ["claude", "cursor", "windsurf"]

  predicate Distinct(xs: seq<string>) {
    forall i, j :: 0 <= i < j < |xs| ==> xs[i] != xs[j]
  }

  /** The three enumerations hold exactly their listed, pairwise distinct
      names, with "generic" as the first category. */
  lemma EnumerationsWellFormed()
    ensures Distinct(Categories) && |Categories| == 6 && Categories[0] == "generic"
    ensures forall c :: c in Categories <==> c in {"generic", "python", "typescript", "rust", "go", "java"}
    ensures Distinct(Architectures) && |Architectures| == 3
    ensures forall a :: a in Architectures <==> a in {"rapid-prototype", "clean-architecture", "hexagonal"}
    ensures Distinct(OutputFormats) && |OutputFormats| == 3
    ensures forall f :: f in OutputFormats <==> f in {"claude", "cursor", "windsurf"}
  {
  }

  /** `AGENT_GUIDE_DB_DIR / f"{category}.json"` as a string path. */
  function CategoryFilePath(dbDir: string, category: string): string {
    dbDir + "/" + category + ".json"
  }

  /** `PurePath.name`: the text after the last '/'. */
  function FileName(path: string): (r: string)
    ensures '/' !in r
  {
    var i := LastIndexOf(path, '/');
    if i == -1 then path else path[i + 1..]
  }

  /** `PurePath.stem`: the file name without its last suffix; a name whose
      only dot leads it, or ends it, has no suffix. */
  function Stem(path: string): string {
    var name := FileName(path);
    var i := LastIndexOf(name, '.');
    if 0 < i < |name| - 1 then name[..i] else name
  }

  /** The stem of a category file recovers the category, for any non-empty
      category name without a path separator. */
  lemma CategoryFileStem(dbDir: string, category: string)
    requires category != "" && '/' !in category
    ensures Stem(CategoryFilePath(dbDir, category)) == category
  {
    var path := CategoryFilePath(dbDir, category);
    assert path == dbDir + ['/'] + (category + ".json");
    assert '/' !in category + ".json";
    LastIndexOfBefore(dbDir, '/', category + ".json");
    assert path[|dbDir| + 1..] == category + ".json";
    var name := category + ".json";
    assert name == category + ['.'] + "json";
    LastIndexOfBefore(category, '.', "json");
    assert name[..|category|] == category;
  }

  /** Distinct categories live in distinct files. */
  lemma CategoryFilePathInjective(dbDir: string, c1: string, c2: string)
    requires CategoryFilePath(dbDir, c1) == CategoryFilePath(dbDir, c2)
    ensures c1 == c2
  {
    var p1 := CategoryFilePath(dbDir, c1);
    var p2 := CategoryFilePath(dbDir, c2);
    assert |c1| == |c2|;
    assert p1[|dbDir| + 1..|dbDir| + 1 + |c1|] == c1;
    assert p2[|dbDir| + 1..|dbDir| + 1 + |c2|] == c2;
  }
}
