/**
 * The wiki tree: `get_md_files` and its helpers. Every `.md` file directly
 * in `categories` names a category; its entry holds the file, the `.md`
 * files of the directory `categories/<name>`, and the subcategories, each
 * with its optional `index.md` and its own `.md` files.
 *
 * Each helper is a method with the loop of the source, proved equal to a
 * specification function; the properties of the tree are lemmas about those
 * functions. Two folds describe every loop: `Filter` (a list comprehension
 * with a condition) and `Fill` (a loop that assigns `d[key(p)] = val(p)`).
 */
module WikiTree {
  import opened Wrappers
  import opened PyStr
  import opened PyDict
  import opened PosixPath
  import opened Snapshot

  /** A subcategory entry: the `"index"` key when present, and `"files"`. */
  datatype Subcategory = Subcategory(index: Option<string>, files: Dict<string>)

  /** A category entry: its `"path"`, `"files"` and `"subcategories"`. */
  datatype Category = Category(path: string, files: Dict<string>, subcategories: Dict<Subcategory>)

  const CategoriesDir := "categories"

  const IndexName := "index.md"

  /** `os.path.basename(p).replace(".md", "")`: every `.md` goes, not only a suffix. */
  function Stem(p: string): string {
    Replace(Basename(p), ".md", "")
  }

  /** The elements of `ps` that `keep` accepts, in order. */
  function Filter(ps: seq<string>, keep: string -> bool): (r: seq<string>)
    ensures |r| <= |ps|
    decreases |ps|
  {
    if ps == [] then []
    else
      var last := ps[|ps| - 1];
      Filter(ps[..|ps| - 1], keep) + (if keep(last) then [last] else [])
  }

  /** The dict a loop builds by assigning `d[key(p)] = val(p)` for each `p` of `ps` in turn. */
  function Fill<V>(ps: seq<string>, key: string -> string, val: string -> V): Dict<V>
    decreases |ps|
  {
    if ps == [] then Empty()
    else
      var last := ps[|ps| - 1];
      Set(Fill(ps[..|ps| - 1], key, val), key(last), val(last))
  }

  /** The last element of `ps` whose key is `k`: a reference definition for `Fill`. */
  function LastKeyed(ps: seq<string>, key: string -> string, k: string): (r: Option<string>)
    ensures r.None? <==> forall j :: 0 <= j < |ps| ==> key(ps[j]) != k
    ensures r.Some? ==> r.value in ps && key(r.value) == k
    decreases |ps|
  {
    if ps == [] then None
    else if key(ps[|ps| - 1]) == k then Some(ps[|ps| - 1])
    else
      var r := LastKeyed(ps[..|ps| - 1], key, k);
      assert r.Some? ==> r.value in ps by {
        if r.Some? { assert r.value in ps[..|ps| - 1]; }
      }
      r
  }

  /** Does not contain the substring `index.md`. */
  predicate NotIndex(p: string) {
    !In(IndexName, p)
  }

  /** `get_main_categories()` */
  function MainCategories(fs: FileSystem): seq<string> {
    Filter(GlobMd(fs, CategoriesDir), NotIndex)
  }

  /** `os.path.join("categories", category_name)` */
  function CategoryDir(name: string): string {
    Join(CategoriesDir, name)
  }

  /** `get_category_files(category_name)`: no `index.md` exclusion here. */
  function CategoryFiles(fs: FileSystem, name: string): Dict<string> {
    var dir := CategoryDir(name);
    if IsDir(fs, dir) then Fill(GlobMd(fs, dir), Stem, PathOf) else Empty()
  }

  /** The value a file dict holds for a file: its path. */
  function PathOf(p: string): string {
    p
  }

  /** The entries of `ds` that are directories inside directory `dir`, in order. */
  function Subdirs(fs: FileSystem, dir: string, ds: seq<string>): seq<string>
    decreases |ds|
  {
    if ds == [] then []
    else
      var last := ds[|ds| - 1];
      Subdirs(fs, dir, ds[..|ds| - 1]) + (if IsDir(fs, Join(dir, last)) then [last] else [])
  }

  /** `get_subcategories(category_name)` */
  function Subcategories(fs: FileSystem, name: string): seq<string> {
    var dir := CategoryDir(name);
    if IsDir(fs, dir) then Subdirs(fs, dir, ListDir(fs, dir)) else []
  }

  /** `os.path.join("categories", category_name, subcategory)` */
  function SubcategoryPath(name: string, sub: string): string {
    Join(CategoryDir(name), sub)
  }

  /** `get_subcategory_files(subcategory_path)` */
  function SubcategoryFiles(fs: FileSystem, path: string): Dict<string> {
    Fill(Filter(GlobMd(fs, path), NotIndex), Stem, PathOf)
  }

  /** The entry `process_subcategories` makes for the subcategory at `path`. */
  function SubcategoryEntry(fs: FileSystem, path: string): Subcategory {
    var index := Join(path, IndexName);
    Subcategory(if Exists(fs, index) then Some(index) else None, SubcategoryFiles(fs, path))
  }

  /** `process_subcategories(category_name, subcategories)` */
  function SubcategoryMap(fs: FileSystem, name: string, subs: seq<string>): Dict<Subcategory>
    decreases |subs|
  {
    if subs == [] then Empty()
    else
      var last := subs[|subs| - 1];
      Set(SubcategoryMap(fs, name, subs[..|subs| - 1]), last, SubcategoryEntry(fs, SubcategoryPath(name, last)))
  }

  /** The entry `get_md_files` makes for the category file `c`. */
  function CategoryEntry(fs: FileSystem, c: string): Category {
    var name := Stem(c);
    Category(c, CategoryFiles(fs, name), SubcategoryMap(fs, name, Subcategories(fs, name)))
  }

  /** `get_md_files()` */
  function MdFiles(fs: FileSystem): Dict<Category> {
    Fill(MainCategories(fs), Stem, EntryOfCategory(fs))
  }

  /** The entry of each category file. */
  function EntryOfCategory(fs: FileSystem): string -> Category {
    c => CategoryEntry(fs, c)
  }

  // ---------------------------------------------------------------- the loops

  method GetMainCategories(fs: FileSystem) returns (cats: seq<string>)
    ensures cats == MainCategories(fs)
  {
    var found := GlobMd(fs, CategoriesDir);
    cats := [];
    var i := 0;
    while i < |found|
      invariant 0 <= i <= |found|
      invariant cats == Filter(found[..i], NotIndex)
    {
      assert found[..i + 1][..i] == found[..i];
      if !In(IndexName, found[i]) {
        cats := cats + [found[i]];
      }
      i := i + 1;
    }
    assert found[..i] == found;
  }

  method GetCategoryFiles(fs: FileSystem, name: string) returns (files: Dict<string>)
    ensures files == CategoryFiles(fs, name)
  {
    files := Empty();
    var dir := CategoryDir(name);
    if IsDir(fs, dir) {
      var subfiles := GlobMd(fs, dir);
      var i := 0;
      while i < |subfiles|
        invariant 0 <= i <= |subfiles|
        invariant files == Fill(subfiles[..i], Stem, PathOf)
      {
        FillSnoc(subfiles, Stem, PathOf, i);
        files := Set(files, Stem(subfiles[i]), subfiles[i]);
        i := i + 1;
      }
      assert subfiles[..i] == subfiles;
    }
  }

  method GetSubcategories(fs: FileSystem, name: string) returns (subs: seq<string>)
    ensures subs == Subcategories(fs, name)
  {
    subs := [];
    var dir := CategoryDir(name);
    if IsDir(fs, dir) {
      var entries := ListDir(fs, dir);
      var i := 0;
      while i < |entries|
        invariant 0 <= i <= |entries|
        invariant subs == Subdirs(fs, dir, entries[..i])
      {
        assert entries[..i + 1][..i] == entries[..i];
        if IsDir(fs, Join(dir, entries[i])) {
          subs := subs + [entries[i]];
        }
        i := i + 1;
      }
      assert entries[..i] == entries;
    }
  }

  method GetSubcategoryFiles(fs: FileSystem, path: string) returns (files: Dict<string>)
    ensures files == SubcategoryFiles(fs, path)
  {
    var found := GlobMd(fs, path);
    var subcatFiles := [];
    var i := 0;
    while i < |found|
      invariant 0 <= i <= |found|
      invariant subcatFiles == Filter(found[..i], NotIndex)
    {
      assert found[..i + 1][..i] == found[..i];
      if !In(IndexName, found[i]) {
        subcatFiles := subcatFiles + [found[i]];
      }
      i := i + 1;
    }
    assert found[..i] == found;
    files := Empty();
    var j := 0;
    while j < |subcatFiles|
      invariant 0 <= j <= |subcatFiles|
      invariant files == Fill(subcatFiles[..j], Stem, PathOf)
    {
      FillSnoc(subcatFiles, Stem, PathOf, j);
      files := Set(files, Stem(subcatFiles[j]), subcatFiles[j]);
      j := j + 1;
    }
    assert subcatFiles[..j] == subcatFiles;
  }

  method ProcessSubcategories(fs: FileSystem, name: string, subs: seq<string>) returns (result: Dict<Subcategory>)
    ensures result == SubcategoryMap(fs, name, subs)
  {
    result := Empty();
    var i := 0;
    while i < |subs|
      invariant 0 <= i <= |subs|
      invariant result == SubcategoryMap(fs, name, subs[..i])
    {
      assert subs[..i + 1][..i] == subs[..i];
      var entry := ProcessSubcategory(fs, SubcategoryPath(name, subs[i]));
      result := Set(result, subs[i], entry);
      i := i + 1;
    }
    assert subs[..i] == subs;
  }

  /** The body of the loop in `process_subcategories`: the entry of one subcategory. */
  method ProcessSubcategory(fs: FileSystem, path: string) returns (entry: Subcategory)
    ensures entry == SubcategoryEntry(fs, path)
  {
    var index := Join(path, IndexName);
    var files := GetSubcategoryFiles(fs, path);
    entry := Subcategory(if Exists(fs, index) then Some(index) else None, files);
  }

  method GetMdFiles(fs: FileSystem) returns (tree: Dict<Category>)
    ensures tree == MdFiles(fs)
  {
    tree := Empty();
    var categories := GetMainCategories(fs);
    var i := 0;
    while i < |categories|
      invariant 0 <= i <= |categories|
      invariant tree == Fill(categories[..i], Stem, EntryOfCategory(fs))
    {
      var category := categories[i];
      var name := Stem(category);
      var files := GetCategoryFiles(fs, name);
      var subs := GetSubcategories(fs, name);
      var subcategories := ProcessSubcategories(fs, name, subs);
      FillSnoc(categories, Stem, EntryOfCategory(fs), i);
      EntryOfCategoryIs(fs, category);
      tree := Set(tree, name, Category(category, files, subcategories));
      i := i + 1;
    }
    assert categories[..i] == categories;
  }

  // ---------------------------------------------------------------- the folds

  /** A filter keeps exactly the elements it accepts. */
  lemma {:induction false} FilterMembers(ps: seq<string>, keep: string -> bool, p: string)
    ensures p in Filter(ps, keep) <==> p in ps && keep(p)
    decreases |ps|
  {
    if ps != [] {
      var init := ps[..|ps| - 1];
      FilterMembers(init, keep, p);
      assert ps == init + [ps[|ps| - 1]];
    }
  }

  /** The subdirectories are the entries that are directories. */
  lemma {:induction false} SubdirsMembers(fs: FileSystem, dir: string, ds: seq<string>, d: string)
    ensures d in Subdirs(fs, dir, ds) <==> d in ds && IsDir(fs, Join(dir, d))
    decreases |ds|
  {
    if ds != [] {
      var init := ds[..|ds| - 1];
      SubdirsMembers(fs, dir, init, d);
      assert ds == init + [ds[|ds| - 1]];
    }
  }

  /** One more pass of the loop. */
  lemma FillSnoc<V>(ps: seq<string>, key: string -> string, val: string -> V, i: nat)
    requires i < |ps|
    ensures Fill(ps[..i + 1], key, val) == Set(Fill(ps[..i], key, val), key(ps[i]), val(ps[i]))
  {
    assert ps[..i + 1][..i] == ps[..i];
  }

  /** What the loop leaves at key `k` is the value of the last element with that key. */
  lemma {:induction false} FillGet<V>(ps: seq<string>, key: string -> string, val: string -> V, k: string)
    ensures Get(Fill(ps, key, val), k) ==
      match LastKeyed(ps, key, k)
      case None => None
      case Some(p) => Some(val(p))
    decreases |ps|
  {
    if ps != [] {
      var init, last := ps[..|ps| - 1], ps[|ps| - 1];
      FillGet(init, key, val, k);
      GetSet(Fill(init, key, val), key(last), val(last), k);
    }
  }

  /** The keys of the dict are exactly the keys of the elements. */
  lemma FillKeys<V>(ps: seq<string>, key: string -> string, val: string -> V, k: string)
    ensures k in Keys(Fill(ps, key, val)) <==> exists j :: 0 <= j < |ps| && key(ps[j]) == k
  {
    FillGet(ps, key, val, k);
    GetKeys(Fill(ps, key, val), k);
  }

  /** No key is listed twice. */
  lemma {:induction false} FillUnique<V>(ps: seq<string>, key: string -> string, val: string -> V)
    ensures UniqueKeys(Fill(ps, key, val))
    decreases |ps|
  {
    if ps != [] {
      var init, last := ps[..|ps| - 1], ps[|ps| - 1];
      FillUnique(init, key, val);
      SetUnique(Fill(init, key, val), key(last), val(last));
    }
  }

  // ---------------------------------------------------------------- stems

  /**
   * `replace(".md", "")` removes the first `.md` of a text and carries on
   * after it: on `x + ".md" + y`, with no `.md` in `x`, it keeps `x` and goes
   * on with `y`.
   */
  lemma {:induction false} ReplaceMdAfter(x: string, y: string)
    requires !Contains(x, ".md")
    ensures Replace(x + ".md" + y, ".md", "") == x + Replace(y, ".md", "")
    decreases |x|
  {
    var s := x + ".md" + y;
    if x == [] {
      assert s == ".md" + y;
      assert s[3..] == y;
    } else {
      if |x| >= 3 {
        assert !OccursAt(x, ".md", 0);
        assert s[..3] == x[..3];
      }
      assert |x| == 1 ==> s[1] == '.';
      assert |x| == 2 ==> s[2] == '.';
      assert !StartsWith(s, ".md");
      assert s[1..] == x[1..] + ".md" + y;
      forall i | OccursAt(x[1..], ".md", i) ensures OccursAt(x, ".md", i + 1) {
        assert x[i + 1..i + 4] == x[1..][i..i + 3];
      }
      ReplaceMdAfter(x[1..], y);
      assert [x[0]] + x[1..] == x;
    }
  }

  /** The stem of `<dir>/<name>.md` is `name` when the name holds no '/' and no `.md`. */
  lemma StemOfFile(dir: string, name: string)
    requires '/' !in name && !Contains(name, ".md")
    ensures Stem(dir + "/" + name + ".md") == name
  {
    assert dir + "/" + name + ".md" == dir + "/" + (name + ".md");
    assert '/' !in name + ".md";
    BasenameOfComponent(dir, name + ".md");
    ReplaceMdAfter(name, "");
    assert name + ".md" == name + ".md" + "";
  }

  /**
   * Every `.md` goes, not only the suffix: the stem of `<dir>/<a>.md<b>.md` is
   * `a + b`.
   */
  lemma StemRemovesEveryMd(dir: string, a: string, b: string)
    requires '/' !in a && '/' !in b && !Contains(a, ".md") && !Contains(b, ".md")
    ensures Stem(dir + "/" + a + ".md" + b + ".md") == a + b
  {
    var name := a + ".md" + b + ".md";
    assert dir + "/" + a + ".md" + b + ".md" == dir + "/" + name;
    assert '/' !in name by {
      assert forall i :: 0 <= i < |name| ==> name[i] in a || name[i] in ".md" || name[i] in b;
    }
    BasenameOfComponent(dir, name);
    assert name == a + ".md" + (b + ".md");
    ReplaceMdAfter(a, b + ".md");
    ReplaceMdAfter(b, "");
    assert b + ".md" == b + ".md" + "";
  }

  /** The exclusion is a substring test: `categories/reindex.md` is no category. */
  lemma ReindexIsNoCategory(fs: FileSystem)
    ensures "categories/reindex.md" !in MainCategories(fs)
  {
    assert OccursAt("categories/reindex.md", IndexName, 13);
    MainCategoriesExcludeIndex(fs, "categories/reindex.md");
  }

  // ---------------------------------------------------------------- the tree

  /** `get_md_files()` has an entry for name `k` exactly when some main category file has stem `k`. */
  lemma CategoryKeys(fs: FileSystem, k: string)
    ensures k in Keys(MdFiles(fs)) <==>
      exists j :: 0 <= j < |MainCategories(fs)| && Stem(MainCategories(fs)[j]) == k
  {
    FillKeys(MainCategories(fs), Stem, EntryOfCategory(fs), k);
  }

  /**
   * The entry for name `k` is that of the last main category file with stem
   * `k`: its path is that file, which lies in `categories` and has no
   * `index.md` in it, and its files and subcategories are those of category `k`.
   */
  lemma CategoryEntryOf(fs: FileSystem, k: string)
    requires Get(MdFiles(fs), k).Some?
    ensures var e := Get(MdFiles(fs), k).value;
      e.path in GlobMd(fs, CategoriesDir) && !Contains(e.path, IndexName) && Stem(e.path) == k &&
      e.files == CategoryFiles(fs, k) &&
      e.subcategories == SubcategoryMap(fs, k, Subcategories(fs, k))
  {
    var cats := MainCategories(fs);
    FillGetSome(cats, Stem, EntryOfCategory(fs), k);
    var c := LastKeyed(cats, Stem, k).value;
    EntryOfCategoryIs(fs, c);
    EntryPath(fs, c);
    MainCategoryIn(fs, c);
    CategoryEntryFields(fs, c, k);
  }

  /** A key the dict holds is the key of some element, and holds that element's value. */
  lemma FillGetSome<V>(ps: seq<string>, key: string -> string, val: string -> V, k: string)
    requires Get(Fill(ps, key, val), k).Some?
    ensures LastKeyed(ps, key, k).Some?
    ensures Get(Fill(ps, key, val), k).value == val(LastKeyed(ps, key, k).value)
  {
    FillGet(ps, key, val, k);
  }

  lemma EntryPath(fs: FileSystem, c: string)
    ensures CategoryEntry(fs, c).path == c
  {
  }

  lemma MainCategoryIn(fs: FileSystem, c: string)
    requires c in MainCategories(fs)
    ensures c in GlobMd(fs, CategoriesDir) && !Contains(c, IndexName)
  {
    FilterMembers(GlobMd(fs, CategoriesDir), NotIndex, c);
  }

  lemma CategoryEntryFields(fs: FileSystem, c: string, k: string)
    requires Stem(c) == k
    ensures var e := CategoryEntry(fs, c);
      e.path == c && e.files == CategoryFiles(fs, k) &&
      e.subcategories == SubcategoryMap(fs, k, Subcategories(fs, k))
  {
  }

  lemma MdFilesGet(fs: FileSystem, k: string)
    ensures Get(MdFiles(fs), k) ==
      match LastKeyed(MainCategories(fs), Stem, k)
      case None => None
      case Some(c) => Some(CategoryEntry(fs, c))
  {
    CategoriesGet(fs, MainCategories(fs), Stem, k);
  }

  /** `FillGet` for category entries, for any key function. */
  lemma CategoriesGet(fs: FileSystem, cats: seq<string>, key: string -> string, k: string)
    ensures Get(Fill(cats, key, EntryOfCategory(fs)), k) ==
      match LastKeyed(cats, key, k)
      case None => None
      case Some(c) => Some(CategoryEntry(fs, c))
  {
    var r := LastKeyed(cats, key, k);
    var g := Get(Fill(cats, key, EntryOfCategory(fs)), k);
    assert g == if r.None? then None else Some(EntryOfCategory(fs)(r.value)) by {
      FillGet(cats, key, EntryOfCategory(fs), k);
    }
    if r.Some? {
      EntryOfCategoryIs(fs, r.value);
    }
  }

  lemma EntryOfCategoryIs(fs: FileSystem, c: string)
    ensures EntryOfCategory(fs)(c) == CategoryEntry(fs, c)
  {
  }

  /** Every main category file lies in `categories` and has no `index.md` in its path. */
  lemma MainCategoriesExcludeIndex(fs: FileSystem, c: string)
    ensures c in MainCategories(fs) <==> c in GlobMd(fs, CategoriesDir) && !Contains(c, IndexName)
  {
    FilterMembers(GlobMd(fs, CategoriesDir), NotIndex, c);
  }

  /**
   * The files of a category are all the `.md` files of its directory, the
   * `index.md` one included, each under its stem.
   */
  lemma CategoryFilesOf(fs: FileSystem, name: string, k: string)
    ensures !IsDir(fs, CategoryDir(name)) ==> CategoryFiles(fs, name) == Empty()
    ensures IsDir(fs, CategoryDir(name)) ==> Get(CategoryFiles(fs, name), k) == LastKeyed(GlobMd(fs, CategoryDir(name)), Stem, k)
  {
    var dir := CategoryDir(name);
    if IsDir(fs, dir) {
      FillGet(GlobMd(fs, dir), Stem, PathOf, k);
    }
  }

  /** The files of a subcategory are its `.md` files whose paths do not contain `index.md`. */
  lemma SubcategoryFilesOf(fs: FileSystem, path: string, k: string)
    ensures Get(SubcategoryFiles(fs, path), k).Some? <==>
      exists p :: p in GlobMd(fs, path) && !Contains(p, IndexName) && Stem(p) == k
    ensures Get(SubcategoryFiles(fs, path), k).Some? ==>
      var p := Get(SubcategoryFiles(fs, path), k).value;
      p in GlobMd(fs, path) && !Contains(p, IndexName) && Stem(p) == k
  {
    var kept := Filter(GlobMd(fs, path), NotIndex);
    FillGet(kept, Stem, PathOf, k);
    var r := LastKeyed(kept, Stem, k);
    if r.Some? {
      FilterMembers(GlobMd(fs, path), NotIndex, r.value);
    }
    forall p | p in GlobMd(fs, path) && !Contains(p, IndexName) && Stem(p) == k
      ensures r.Some?
    {
      FilterMembers(GlobMd(fs, path), NotIndex, p);
    }
  }

  /**
   * Every listed subcategory has an entry, whose `"index"` is present exactly
   * when `<subcategory path>/index.md` exists, and whose files are those of
   * the subcategory directory.
   */
  lemma SubcategoryEntries(fs: FileSystem, name: string, subs: seq<string>, s: string)
    ensures s in Keys(SubcategoryMap(fs, name, subs)) <==> s in subs
    ensures s in subs ==>
      Get(SubcategoryMap(fs, name, subs), s).Some? &&
      var e := Get(SubcategoryMap(fs, name, subs), s).value;
      var index := Join(SubcategoryPath(name, s), IndexName);
      (e.index.Some? <==> Exists(fs, index)) &&
      (e.index.Some? ==> e.index.value == index) &&
      e.files == SubcategoryFiles(fs, SubcategoryPath(name, s))
  {
    SubcategoryMapGet(fs, name, subs, s);
    GetKeys(SubcategoryMap(fs, name, subs), s);
  }

  /** The map holds the entry of each listed subcategory, and nothing else. */
  lemma {:induction false} SubcategoryMapGet(fs: FileSystem, name: string, subs: seq<string>, s: string)
    ensures Get(SubcategoryMap(fs, name, subs), s) ==
      if s in subs then Some(SubcategoryEntry(fs, SubcategoryPath(name, s))) else None
    decreases |subs|
  {
    if subs != [] {
      var init, last := subs[..|subs| - 1], subs[|subs| - 1];
      SubcategoryMapGet(fs, name, init, s);
      GetSet(SubcategoryMap(fs, name, init), last, SubcategoryEntry(fs, SubcategoryPath(name, last)), s);
      assert subs == init + [last];
    }
  }

  /**
   * When a category directory holds an `index.md`, the category's files have
   * the key `index`, for one of its `.md` files whose stem is `index`: unlike
   * a subcategory, a category does not leave it out.
   */
  lemma CategoryFilesKeepIndex(fs: FileSystem, name: string)
    requires IsDir(fs, CategoryDir(name))
    requires CategoryDir(name) + "/" + IndexName in GlobMd(fs, CategoryDir(name))
    ensures var f := Get(CategoryFiles(fs, name), "index");
      f.Some? && f.value in GlobMd(fs, CategoryDir(name)) && Stem(f.value) == "index"
  {
    StemOfIndex(CategoryDir(name));
    CategoryFilesOf(fs, name, "index");
  }

  lemma StemOfIndex(dir: string)
    ensures Stem(dir + "/" + IndexName) == "index"
  {
    IndexSpelling();
    StemOfFile(dir, "index");
    assert dir + "/" + "index" + ".md" == dir + "/" + IndexName;
  }

  lemma IndexSpelling()
    ensures '/' !in "index" && !Contains("index", ".md") && "index" + ".md" == IndexName
  {
    forall i | 0 <= i ensures !OccursAt("index", ".md", i) {
      if i + 3 <= 5 {
        assert "index"[i..i + 3][0] == "index"[i];
      }
    }
  }

  /** The subcategories are the listed entries of the category directory that are directories. */
  lemma SubcategoriesOf(fs: FileSystem, name: string, d: string)
    ensures d in Subcategories(fs, name) <==>
      IsDir(fs, CategoryDir(name)) && d in ListDir(fs, CategoryDir(name)) && IsDir(fs, Join(CategoryDir(name), d))
  {
    var dir := CategoryDir(name);
    if IsDir(fs, dir) {
      SubdirsMembers(fs, dir, ListDir(fs, dir), d);
    }
  }
}
