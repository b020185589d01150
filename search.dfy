/**
 * Full-text search over the wiki tree: `search_wiki_content` and
 * `extract_snippet`. The search visits the tree's files in a fixed order,
 * keeps those whose lower-cased text contains the lower-cased term, and
 * reports each with a title and a snippet around the first occurrence.
 */
module Search {
  import opened Wrappers
  import opened PyStr
  import opened PyDict
  import opened PosixPath
  import opened Snapshot
  import opened Heading
  import opened WikiTree

  /** The default width of context on each side of a match. */
  const DefaultChars: nat := 50

  const Ellipsis := "..."

  // ---------------------------------------------------------------- snippets

  /**
   * The window `[start, end)` around a match of length `tl` at `pos`: up to
   * `chars` characters on each side, cut at the ends of the text.
   */
  function Window(len: nat, pos: nat, tl: nat, chars: nat): (w: (nat, nat))
    requires pos + tl <= len
    ensures 0 <= w.0 <= pos && pos + tl <= w.1 <= len
    ensures w.0 == 0 || w.0 == pos - chars
    ensures w.1 == len || w.1 == pos + tl + chars
    ensures w.1 - w.0 <= tl + 2 * chars
    ensures w.0 == 0 ==> pos <= chars
    ensures w.1 == len ==> len <= pos + tl + chars
  {
    var start := if pos - chars > 0 then pos - chars else 0;
    var end := if len < pos + tl + chars then len else pos + tl + chars;
    (start, end)
  }

  /** `extract_snippet(content, search_term, chars)` */
  function ExtractSnippet(content: string, term: string, chars: nat): (r: string)
    ensures r == "" <==> !Contains(content, term) || content == ""
  {
    var pos := Find(content, term);
    if pos == -1 then ""
    else
      var w := Window(|content|, pos, |term|, chars);
      var pre := if w.0 > 0 then Ellipsis else "";
      var post := if w.1 < |content| then Ellipsis else "";
      var snippet := pre + content[w.0..w.1] + post;
      assert snippet == "" <==> content == "" by {
        if w.0 == 0 && w.1 == |content| {
          assert content[w.0..w.1] == content;
        } else {
          assert |snippet| >= |Ellipsis| == 3;
        }
      }
      snippet
  }

  /**
   * A snippet is an optional leading "...", the text of the window around the
   * first occurrence, which holds the term where the occurrence was, and an
   * optional trailing "..."; each "..." is there exactly when the window stops
   * short of that end of the text.
   */
  lemma SnippetShape(content: string, term: string, chars: nat)
    requires Contains(content, term)
    ensures var pos := Find(content, term);
      var w := Window(|content|, pos, |term|, chars);
      var body := content[w.0..w.1];
      OccursAt(body, term, pos - w.0) &&
      |body| <= |term| + 2 * chars &&
      ExtractSnippet(content, term, chars) ==
        (if w.0 > 0 then Ellipsis else "") + body + (if w.1 < |content| then Ellipsis else "")
  {
    var pos := Find(content, term);
    var w := Window(|content|, pos, |term|, chars);
    var body := content[w.0..w.1];
    var o := pos - w.0;
    var got, want := body[o..o + |term|], content[pos..pos + |term|];
    forall m | 0 <= m < |term| ensures got[m] == want[m] {
      assert body[o + m] == content[pos + m];
    }
    assert got == want;
  }

  // ---------------------------------------------------------------- titles

  /** A file that `search_file` is called on, with the title it is given ("" for none). */
  datatype Visit = Visit(path: string, title: string)

  /** A search result: its `"path"`, `"title"` and `"snippet"`. */
  datatype Hit = Hit(path: string, title: string, snippet: string)

  /**
   * The title made from a file name: `.md` removed, '-' made a space, then
   * `.title()`. It is no longer than the file name and holds neither a '/'
   * nor a '-'.
   */
  function NameTitle(path: string): (r: string)
    ensures |r| <= |Basename(path)|
    ensures '/' !in r && '-' !in r
  {
    var name := Basename(path);
    var stem := Replace(name, ".md", "");
    var spaced := Replace(stem, "-", " ");
    ReplaceShape(name, ".md", "", '/');
    ReplaceShape(stem, "-", " ", '/');
    ReplaceShape(stem, "-", " ", '-');
    TitleKeepsUncased(spaced, '/');
    TitleKeepsUncased(spaced, '-');
    Title(spaced)
  }

  /**
   * The title of a hit: the given title unless it is empty, else the first
   * heading of the lower-cased text, else the title made from the file name.
   */
  function HitTitle(v: Visit, content: string): (t: string)
    ensures v.title != "" ==> t == v.title
    ensures v.title == "" && FirstHeading(content).Some? ==>
      t != "" && '\n' !in t && exists i, k :: FirstMatch(content, i, k) && t == content[k..LineEnd(content, k)]
    ensures v.title == "" && FirstHeading(content).None? ==> t == NameTitle(v.path)
  {
    if v.title != "" then v.title
    else match FirstHeading(content)
      case Some(h) =>
        FirstHeadingLine(content);
        h
      case None => NameTitle(v.path)
  }

  /** `search_file(file_path, title)`: the hit it appends, if any. */
  function SearchFile(fs: FileSystem, term: string, v: Visit): (r: Option<Hit>)
    ensures r.Some? <==> ReadText(fs, v.path).Some? && Contains(Lower(ReadText(fs, v.path).value), term)
    ensures r.Some? ==>
      var content := Lower(ReadText(fs, v.path).value);
      r.value == Hit(v.path, HitTitle(v, content), ExtractSnippet(content, term, DefaultChars))
  {
    match ReadText(fs, v.path)
    case None => None
    case Some(text) =>
      var content := Lower(text);
      if In(term, content) then Some(Hit(v.path, HitTitle(v, content), ExtractSnippet(content, term, DefaultChars)))
      else None
  }

  // ---------------------------------------------------------------- traversal

  /** The files of a dict's items, in its order, with no title. */
  function FileVisits(items: seq<(string, string)>): seq<Visit>
    decreases |items|
  {
    if items == [] then []
    else FileVisits(items[..|items| - 1]) + [Visit(items[|items| - 1].1, "")]
  }

  /** A subcategory's index, titled `<Name> Index`, when it has one, then its files. */
  function SubcategoryVisits(name: string, s: Subcategory): seq<Visit> {
    (if s.index.Some? then [Visit(s.index.value, Capitalize(name) + " Index")] else []) + FileVisits(s.files.items)
  }

  /** The visits of each entry in turn. */
  function Visits<E>(entries: seq<E>, visit: E -> seq<Visit>): seq<Visit>
    decreases |entries|
  {
    if entries == [] then []
    else Visits(entries[..|entries| - 1], visit) + visit(entries[|entries| - 1])
  }

  function SubcategoryVisitsOf(): ((string, Subcategory)) -> seq<Visit> {
    (e: (string, Subcategory)) => SubcategoryVisits(e.0, e.1)
  }

  /** The visits of a category's subcategories, in the dict's order. */
  function SubcategoriesVisits(items: seq<(string, Subcategory)>): seq<Visit> {
    Visits(items, SubcategoryVisitsOf())
  }

  /** A category's main file, titled with its capitalised name, then its files, then its subcategories. */
  function CategoryVisits(name: string, c: Category): seq<Visit> {
    [Visit(c.path, Capitalize(name))] + FileVisits(c.files.items) + SubcategoriesVisits(c.subcategories.items)
  }

  function CategoryVisitsOf(): ((string, Category)) -> seq<Visit> {
    (e: (string, Category)) => CategoryVisits(e.0, e.1)
  }

  /** Every file `search_wiki_content` looks at, in the order it looks. */
  function TreeVisits(items: seq<(string, Category)>): seq<Visit> {
    Visits(items, CategoryVisitsOf())
  }

  /** The visits of the first `i + 1` entries: those of the first `i`, then those of entry `i`. */
  lemma VisitsSnoc<E>(entries: seq<E>, visit: E -> seq<Visit>, i: nat)
    requires i < |entries|
    ensures Visits(entries[..i + 1], visit) == Visits(entries[..i], visit) + visit(entries[i])
  {
    assert entries[..i + 1][..i] == entries[..i];
  }

  lemma {:induction false} VisitsAppend<E>(a: seq<E>, b: seq<E>, visit: E -> seq<Visit>)
    ensures Visits(a + b, visit) == Visits(a, visit) + Visits(b, visit)
    decreases |b|
  {
    if b != [] {
      var init := b[..|b| - 1];
      assert (a + b)[..|a + b| - 1] == a + init;
      VisitsAppend(a, init, visit);
    } else {
      assert a + b == a;
    }
  }

  /** The visits around entry `i`. */
  lemma VisitsSplit<E>(entries: seq<E>, visit: E -> seq<Visit>, i: nat)
    requires i < |entries|
    ensures Visits(entries, visit) ==
      Visits(entries[..i], visit) + visit(entries[i]) + Visits(entries[i + 1..], visit)
  {
    VisitsTakeDrop(entries, visit, i + 1);
    VisitsSnoc(entries, visit, i);
  }

  lemma VisitsTakeDrop<E>(entries: seq<E>, visit: E -> seq<Visit>, j: nat)
    requires j <= |entries|
    ensures Visits(entries, visit) == Visits(entries[..j], visit) + Visits(entries[j..], visit)
  {
    var front, back := entries[..j], entries[j..];
    assert front + back == entries;
    VisitsAppend(front, back, visit);
  }

  lemma TreeVisitsSnoc(items: seq<(string, Category)>, i: nat)
    requires i < |items|
    ensures TreeVisits(items[..i + 1]) == TreeVisits(items[..i]) + CategoryVisits(items[i].0, items[i].1)
  {
    VisitsSnoc(items, CategoryVisitsOf(), i);
    assert CategoryVisitsOf()(items[i]) == CategoryVisits(items[i].0, items[i].1);
  }

  lemma SubcategoriesVisitsSnoc(items: seq<(string, Subcategory)>, k: nat)
    requires k < |items|
    ensures SubcategoriesVisits(items[..k + 1]) == SubcategoriesVisits(items[..k]) + SubcategoryVisits(items[k].0, items[k].1)
  {
    VisitsSnoc(items, SubcategoryVisitsOf(), k);
    assert SubcategoryVisitsOf()(items[k]) == SubcategoryVisits(items[k].0, items[k].1);
  }

  /** The results a call of `search_file` appends. */
  function Option2Seq(h: Option<Hit>): (s: seq<Hit>)
    ensures h.None? ==> s == []
    ensures h.Some? ==> s == [h.value]
  {
    if h.Some? then [h.value] else []
  }

  /**
   * `search_file`, the closure `search_wiki_content` defines over the
   * lower-cased term: the hit it appends for a visit, if any.
   */
  function SearchFileFor(fs: FileSystem, term: string): Visit -> Option<Hit> {
    v => SearchFile(fs, term, v)
  }

  lemma SearchFileForIs(fs: FileSystem, term: string, v: Visit)
    ensures SearchFileFor(fs, term)(v) == SearchFile(fs, term, v)
  {
  }

  /** The hits `search` gives for the visits, in order. */
  function Hits(search: Visit -> Option<Hit>, vs: seq<Visit>): seq<Hit>
    decreases |vs|
  {
    if vs == [] then []
    else
      Hits(search, vs[..|vs| - 1]) + Option2Seq(search(vs[|vs| - 1]))
  }

  /** `search_wiki_content(search_term, md_files)` */
  method SearchWikiContent(fs: FileSystem, searchTerm: string, tree: Dict<Category>) returns (results: seq<Hit>)
    ensures results == Hits(SearchFileFor(fs, Lower(searchTerm)), TreeVisits(tree.items))
  {
    var search := SearchFileFor(fs, Lower(searchTerm));
    var items := tree.items;
    results := [];
    var i := 0;
    while i < |items|
      invariant 0 <= i <= |items|
      invariant results == Hits(search, TreeVisits(items[..i]))
    {
      assert items[..i + 1][..i] == items[..i];
      var (name, category) := items[i];
      results := SearchCategory(search, name, category, results);
      HitsAppend(search, TreeVisits(items[..i]), CategoryVisits(name, category));
      TreeVisitsSnoc(items, i);
      i := i + 1;
    }
    assert items[..i] == items;
  }

  /** One pass of the outer loop: the category's main file, its files, its subcategories. */
  method SearchCategory(search: Visit -> Option<Hit>, name: string, category: Category, results: seq<Hit>)
    returns (out: seq<Hit>)
    ensures out == results + Hits(search, CategoryVisits(name, category))
  {
    var main := Visit(category.path, Capitalize(name));
    ghost var fv, sv := FileVisits(category.files.items), SubcategoriesVisits(category.subcategories.items);
    var found := Option2Seq(search(main));
    out := SearchFiles(search, category.files, results + found);
    ConcatAssoc(results, found, Hits(search, fv));
    out := SearchSubcategories(search, category.subcategories.items, out);
    ConcatAssoc(results, found + Hits(search, fv), Hits(search, sv));
    assert CategoryVisits(name, category) == [main] + fv + sv;
    CategoryHits(search, main, fv, sv);
  }

  lemma CategoryHits(search: Visit -> Option<Hit>, main: Visit, fv: seq<Visit>, sv: seq<Visit>)
    ensures Hits(search, [main] + fv + sv) == Option2Seq(search(main)) + Hits(search, fv) + Hits(search, sv)
  {
    assert Hits(search, [main]) == Option2Seq(search(main)) by {
      assert [main][..0] == [];
    }
    HitsAppend(search, [main], fv);
    HitsAppend(search, [main] + fv, sv);
  }

  /** The loop over a file dict, each file searched with no title. */
  method SearchFiles(search: Visit -> Option<Hit>, files: Dict<string>, results: seq<Hit>) returns (out: seq<Hit>)
    ensures out == results + Hits(search, FileVisits(files.items))
  {
    var items := files.items;
    out := results;
    var j := 0;
    while j < |items|
      invariant 0 <= j <= |items|
      invariant out == results + Hits(search, FileVisits(items[..j]))
    {
      assert items[..j + 1][..j] == items[..j];
      var v := Visit(items[j].1, "");
      ghost var vs := FileVisits(items[..j]);
      out := out + Option2Seq(search(v));
      assert FileVisits(items[..j + 1]) == vs + [v];
      assert (vs + [v])[..|vs|] == vs;
      j := j + 1;
    }
    assert items[..j] == items;
  }

  /** The loop over the subcategories: each one's index, if any, then its files. */
  method SearchSubcategories(search: Visit -> Option<Hit>, subs: seq<(string, Subcategory)>, results: seq<Hit>)
    returns (out: seq<Hit>)
    ensures out == results + Hits(search, SubcategoriesVisits(subs))
  {
    out := results;
    var k := 0;
    while k < |subs|
      invariant 0 <= k <= |subs|
      invariant out == results + Hits(search, SubcategoriesVisits(subs[..k]))
    {
      assert subs[..k + 1][..k] == subs[..k];
      var (subName, sub) := subs[k];
      ghost var before := SubcategoriesVisits(subs[..k]);
      ghost var mid := out;
      out := SearchSubcategory(search, subName, sub, out);
      SubcategoriesVisitsSnoc(subs, k);
      HitsAppend(search, before, SubcategoryVisits(subName, sub));
      ConcatAssoc(results, Hits(search, before), Hits(search, SubcategoryVisits(subName, sub)));
      k := k + 1;
    }
    assert subs[..k] == subs;
  }

  /** One subcategory: its index, if it has one, titled `<Name> Index`, then its files. */
  method SearchSubcategory(search: Visit -> Option<Hit>, name: string, sub: Subcategory, results: seq<Hit>)
    returns (out: seq<Hit>)
    ensures out == results + Hits(search, SubcategoryVisits(name, sub))
  {
    SubcategoryHits(search, name, sub);
    if sub.index.Some? {
      var found := Option2Seq(search(Visit(sub.index.value, Capitalize(name) + " Index")));
      out := SearchFiles(search, sub.files, results + found);
      ConcatAssoc(results, found, Hits(search, FileVisits(sub.files.items)));
    } else {
      out := SearchFiles(search, sub.files, results);
    }
  }

  lemma SubcategoryHits(search: Visit -> Option<Hit>, name: string, sub: Subcategory)
    ensures Hits(search, SubcategoryVisits(name, sub)) ==
      (if sub.index.Some? then Option2Seq(search(Visit(sub.index.value, Capitalize(name) + " Index"))) else []) +
      Hits(search, FileVisits(sub.files.items))
  {
    var head: seq<Visit> := if sub.index.Some? then [Visit(sub.index.value, Capitalize(name) + " Index")] else [];
    if sub.index.Some? {
      assert head[..0] == [];
    }
    HitsAppend(search, head, FileVisits(sub.files.items));
  }

  lemma ConcatAssoc<T>(a: seq<T>, b: seq<T>, c: seq<T>)
    ensures a + b + c == a + (b + c)
  {
  }

  // ---------------------------------------------------------------- properties

  /** The hits of consecutive runs of visits are the hits of each run, in order. */
  lemma {:induction false} HitsAppend(search: Visit -> Option<Hit>, a: seq<Visit>, b: seq<Visit>)
    ensures Hits(search, a + b) == Hits(search, a) + Hits(search, b)
    decreases |b|
  {
    if b != [] {
      var init := b[..|b| - 1];
      assert (a + b)[..|a + b| - 1] == a + init;
      HitsAppend(search, a, init);
    } else {
      assert a + b == a;
    }
  }

  /**
   * A file whose read fails contributes nothing and does not stop the
   * search: the visits around it give their hits as if it were not there.
   */
  lemma FailedReadSkipped(fs: FileSystem, term: string, a: seq<Visit>, v: Visit, b: seq<Visit>)
    requires ReadText(fs, v.path).None?
    ensures var search := SearchFileFor(fs, term);
      Hits(search, a + [v] + b) == Hits(search, a) + Hits(search, b)
  {
    var search := SearchFileFor(fs, term);
    assert Hits(search, [v]) == [] by {
      assert [v][..0] == [];
      SearchFileForIs(fs, term, v);
    }
    assert Hits(search, a + [v]) == Hits(search, a) by {
      HitsAppend(search, a, [v]);
    }
    HitsAppend(search, a + [v], b);
  }

  /** Every hit comes from a visit that `search` finds, and every such visit gives a hit. */
  lemma {:induction false} HitsMembers(search: Visit -> Option<Hit>, vs: seq<Visit>, h: Hit)
    ensures h in Hits(search, vs) <==> exists v :: v in vs && search(v) == Some(h)
    decreases |vs|
  {
    if vs != [] {
      var init := vs[..|vs| - 1];
      HitsMembers(search, init, h);
      assert vs == init + [vs[|vs| - 1]];
    }
  }

  /**
   * A result of the search is a visited file that can be read, whose
   * lower-cased text holds the term, with the snippet of that text; and every
   * visited file that can be read and holds the term is a result.
   */
  lemma HitIsMatch(fs: FileSystem, term: string, vs: seq<Visit>, h: Hit)
    requires h in Hits(SearchFileFor(fs, term), vs)
    ensures ReadText(fs, h.path).Some? && Contains(Lower(ReadText(fs, h.path).value), term)
    ensures h.snippet == ExtractSnippet(Lower(ReadText(fs, h.path).value), term, DefaultChars)
    ensures exists v :: v in vs && v.path == h.path
  {
    HitsMembers(SearchFileFor(fs, term), vs, h);
    var v :| v in vs && SearchFileFor(fs, term)(v) == Some(h);
    SearchFileForIs(fs, term, v);
  }

  /** Every visited file that can be read and whose lower-cased text holds the term gives a result. */
  lemma MatchIsHit(fs: FileSystem, term: string, vs: seq<Visit>, v: Visit)
    requires v in vs && ReadText(fs, v.path).Some? && Contains(Lower(ReadText(fs, v.path).value), term)
    ensures SearchFile(fs, term, v).value in Hits(SearchFileFor(fs, term), vs)
  {
    SearchFileForIs(fs, term, v);
    HitsMembers(SearchFileFor(fs, term), vs, SearchFile(fs, term, v).value);
  }

  /**
   * The order of the results: the hits of the categories before category `i`,
   * then those of category `i`, then those of the categories after it.
   */
  lemma TreeHitsOrder(search: Visit -> Option<Hit>, items: seq<(string, Category)>, i: nat)
    requires i < |items|
    ensures Hits(search, TreeVisits(items)) ==
      Hits(search, TreeVisits(items[..i])) +
      Hits(search, CategoryVisits(items[i].0, items[i].1)) +
      Hits(search, TreeVisits(items[i + 1..]))
  {
    var before, here, after := TreeVisits(items[..i]), CategoryVisits(items[i].0, items[i].1), TreeVisits(items[i + 1..]);
    VisitsSplit(items, CategoryVisitsOf(), i);
    assert CategoryVisitsOf()(items[i]) == here;
    HitsAppend(search, before + here, after);
    HitsAppend(search, before, here);
  }

  /** The files of a dict are visited with no title, so each hit's title comes from its text or name. */
  lemma {:induction false} FileVisitsUntitled(items: seq<(string, string)>, v: Visit)
    requires v in FileVisits(items)
    ensures v.title == "" && exists i :: 0 <= i < |items| && v.path == items[i].1
    decreases |items|
  {
    var init := items[..|items| - 1];
    if v in FileVisits(init) {
      FileVisitsUntitled(init, v);
      var i :| 0 <= i < |init| && v.path == init[i].1;
      assert items[i] == init[i];
    }
  }

  /** A subcategory visit is an index, titled `<Name> Index`, or a file with no title. */
  lemma {:induction false} SubcategoryTitles(items: seq<(string, Subcategory)>, v: Visit)
    requires v in SubcategoriesVisits(items)
    ensures v.title == "" ||
      exists j :: 0 <= j < |items| && items[j].1.index == Some(v.path) && v.title == Capitalize(items[j].0) + " Index"
    decreases |items|
  {
    var init, last := items[..|items| - 1], items[|items| - 1];
    SubcategoriesVisitsSnoc(items, |items| - 1);
    assert items[..|items|] == items;
    if v in SubcategoriesVisits(init) {
      SubcategoryTitles(init, v);
      if v.title != "" {
        var j :| 0 <= j < |init| && init[j].1.index == Some(v.path) && v.title == Capitalize(init[j].0) + " Index";
        assert items[j] == init[j];
      }
    } else {
      assert v in SubcategoryVisits(last.0, last.1);
      if v in FileVisits(last.1.files.items) {
        FileVisitsUntitled(last.1.files.items, v);
      }
    }
  }

  /**
   * Within a category the main file comes first, under the capitalised
   * category name; every subcategory index is titled `<Name> Index`; every
   * other file is given no title, so its hit takes its first heading or its
   * file name.
   */
  lemma CategoryTitles(name: string, c: Category, v: Visit)
    requires v in CategoryVisits(name, c)
    ensures CategoryVisits(name, c)[0] == Visit(c.path, Capitalize(name))
    ensures v == Visit(c.path, Capitalize(name)) || v.title == "" ||
      exists j :: 0 <= j < |c.subcategories.items| &&
        c.subcategories.items[j].1.index == Some(v.path) && v.title == Capitalize(c.subcategories.items[j].0) + " Index"
  {
    var head, fv, sv := [Visit(c.path, Capitalize(name))], FileVisits(c.files.items), SubcategoriesVisits(c.subcategories.items);
    assert CategoryVisits(name, c) == head + fv + sv;
    if v in sv {
      SubcategoryTitles(c.subcategories.items, v);
    } else if v in fv {
      FileVisitsUntitled(c.files.items, v);
    }
  }
}
