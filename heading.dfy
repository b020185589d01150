/**
 * `extract_title` and `get_category_from_path`: the two pure string
 * functions of the wiki.
 */
module Heading {
  import opened Wrappers
  import opened PyStr

  /** What `\s` matches in a Python str pattern: the characters for which `str.isspace()` holds. */
  predicate IsSpace(c: char) {
    var n := c as int;
    (9 <= n <= 13) || (28 <= n <= 32) || n == 0x85 || n == 0xA0 || n == 0x1680
    || (0x2000 <= n <= 0x200A) || n == 0x2028 || n == 0x2029 || n == 0x202F
    || n == 0x205F || n == 0x3000
  }

  /** Where `^` matches under MULTILINE: the start of the text or just after a newline. */
  predicate LineStart(s: string, i: int) {
    i == 0 || (0 < i <= |s| && s[i - 1] == '\n')
  }

  /**
   * `^#\s+(.+)$` under MULTILINE can match at `i` with its group starting at
   * `k`: a '#' at a line start, whitespace (newlines included) up to `k`, at
   * least one of it, and then a character other than a newline.
   */
  ghost predicate HeadingAt(s: string, i: int, k: int) {
    && 0 <= i && i + 2 <= k < |s|
    && LineStart(s, i) && s[i] == '#'
    && (forall j :: i + 1 <= j < k ==> IsSpace(s[j]))
    && s[k] != '\n'
  }

  /**
   * The match `re.search` finds: the leftmost position, and there the
   * greediest `\s+`, which backtracks only as far as it must.
   */
  ghost predicate FirstMatch(s: string, i: int, k: int) {
    && HeadingAt(s, i, k)
    && (forall i', k' :: 0 <= i' < i ==> !HeadingAt(s, i', k'))
    && (forall k' :: k < k' ==> !HeadingAt(s, i, k'))
  }

  /** Where the line holding offset `k` ends: at a newline or at the end of the text. */
  function LineEnd(s: string, k: nat): (e: nat)
    requires k <= |s|
    ensures k <= e <= |s|
    ensures e == |s| || s[e] == '\n'
    ensures forall j :: k <= j < e ==> s[j] != '\n'
    decreases |s| - k
  {
    if k == |s| || s[k] == '\n' then k else LineEnd(s, k + 1)
  }

  /** The end of the run of whitespace starting at `j`. */
  function SpaceRunEnd(s: string, j: nat): (e: nat)
    requires j <= |s|
    ensures j <= e <= |s|
    ensures e == |s| || !IsSpace(s[e])
    ensures forall m :: j <= m < e ==> IsSpace(s[m])
    decreases |s| - j
  {
    if j == |s| || !IsSpace(s[j]) then j else SpaceRunEnd(s, j + 1)
  }

  /** The largest offset in `lo..hi` that does not hold a newline. */
  function LastNonNewline(s: string, lo: nat, hi: int): (r: Option<nat>)
    requires hi < |s|
    ensures r.Some? ==> lo <= r.value <= hi && s[r.value] != '\n'
    ensures r.Some? ==> forall k :: r.value < k <= hi ==> s[k] == '\n'
    ensures r.None? ==> forall k :: lo <= k <= hi ==> s[k] == '\n'
    decreases hi - lo + 1
  {
    if hi < lo then None
    else if s[hi] != '\n' then Some(hi)
    else LastNonNewline(s, lo, hi - 1)
  }

  /** Where the group starts when the pattern matches at `i`. */
  function GroupStart(s: string, i: nat): (r: Option<nat>)
    requires i < |s|
    ensures r.None? <==> forall k :: !HeadingAt(s, i, k)
    ensures r.Some? ==> HeadingAt(s, i, r.value) && forall k :: r.value < k ==> !HeadingAt(s, i, k)
  {
    if !LineStart(s, i) || s[i] != '#' then None
    else
      var j := SpaceRunEnd(s, i + 1);
      var hi := if j < |s| then j else |s| - 1;
      var r := LastNonNewline(s, i + 2, hi);
      assert forall k :: HeadingAt(s, i, k) ==> k <= hi by {
        forall k | HeadingAt(s, i, k) ensures k <= hi {
          assert j < |s| ==> !IsSpace(s[j]);
        }
      }
      assert r.Some? ==> HeadingAt(s, i, r.value) by {
        if r.Some? {
          assert forall m :: i + 1 <= m < r.value ==> IsSpace(s[m]);
        }
      }
      r
  }

  function FirstHeadingFrom(s: string, i: nat): (r: Option<string>)
    requires i <= |s|
    requires forall i', k :: 0 <= i' < i ==> !HeadingAt(s, i', k)
    ensures r.None? <==> forall i', k :: !HeadingAt(s, i', k)
    ensures r.Some? ==> exists i', k :: FirstMatch(s, i', k) && r.value == s[k..LineEnd(s, k)]
    decreases |s| - i
  {
    if i == |s| then
      assert forall i', k :: HeadingAt(s, i', k) ==> i' < i;
      None
    else
      match GroupStart(s, i)
      case Some(k) =>
        assert FirstMatch(s, i, k);
        Some(s[k..LineEnd(s, k)])
      case None => FirstHeadingFrom(s, i + 1)
  }

  /** The group of the first match of `^#\s+(.+)$` under MULTILINE, if any. */
  function FirstHeading(s: string): (r: Option<string>)
    ensures r.None? <==> forall i, k :: !HeadingAt(s, i, k)
    ensures r.Some? ==> exists i, k :: FirstMatch(s, i, k) && r.value == s[k..LineEnd(s, k)]
  {
    FirstHeadingFrom(s, 0)
  }

  /**
   * `extract_title(md_content)`: "Untitled" when the pattern matches nowhere;
   * otherwise the group of the first match, a non-empty piece of one line
   * without its newline.
   */
  function ExtractTitle(md: string): (r: string)
    ensures (forall i, k :: !HeadingAt(md, i, k)) ==> r == "Untitled"
    ensures (exists i, k :: HeadingAt(md, i, k)) ==>
      (exists i, k :: FirstMatch(md, i, k) && r == md[k..LineEnd(md, k)]) &&
      r != "" && '\n' !in r
  {
    match FirstHeading(md)
    case None => "Untitled"
    case Some(h) =>
      FirstHeadingLine(md);
      h
  }

  /** The group of the first match is a non-empty piece of one line, without its newline. */
  lemma FirstHeadingLine(md: string)
    requires FirstHeading(md).Some?
    ensures FirstHeading(md).value != "" && '\n' !in FirstHeading(md).value
  {
    var r := FirstHeading(md);
    var i, k :| FirstMatch(md, i, k) && r.value == md[k..LineEnd(md, k)];
    LineGroup(md, k);
  }

  /** The rest of a line from a character that is not a newline: non-empty, with no newline. */
  lemma LineGroup(s: string, k: nat)
    requires k < |s| && s[k] != '\n'
    ensures var g := s[k..LineEnd(s, k)]; g != "" && '\n' !in g
  {
    var e := LineEnd(s, k);
    var g := s[k..e];
    assert g[0] == s[k];
    assert forall m :: 0 <= m < |g| ==> g[m] == s[k + m];
  }

  /** A line that starts with "##" gives no match at its start: the second character must be whitespace. */
  lemma DoubleHashLine(md: string, i: nat)
    requires i + 1 < |md| && md[i] == '#' && md[i + 1] == '#'
    ensures forall k :: !HeadingAt(md, i, k)
  {
    assert !IsSpace('#');
  }

  /**
   * `get_category_from_path(file_path)`, on POSIX where `os.sep` is '/': a
   * non-empty category is the second component of a path
   * `categories/<c>/<rest>`.
   */
  function CategoryFromPath(p: string): (r: string)
    ensures r != "" ==> '/' !in r && exists rest :: p == "categories/" + r + "/" + rest
  {
    if p == "" || p == "index.md" then ""
    else
      var parts := Split(p, '/');
      if |parts| > 1 && parts[0] == "categories" && |parts| > 2 then
        SecondComponent(p);
        parts[1]
      else ""
  }

  /** A path of three or more components, the first "categories", is `categories/<second>/<rest>`. */
  lemma SecondComponent(p: string)
    requires var parts := Split(p, '/'); |parts| > 2 && parts[0] == "categories"
    ensures var parts := Split(p, '/');
      '/' !in parts[1] && p == "categories/" + parts[1] + "/" + JoinWith(parts[2..], "/")
  {
    var parts := Split(p, '/');
    JoinSplit(p, '/');
    var rest := JoinWith(parts[2..], "/");
    assert JoinWith(parts, "/") == parts[0] + "/" + (parts[1] + "/" + rest);
  }

  /** A path `categories/<c>/<rest>` belongs to category `c`, whatever `rest` is. */
  lemma CategoryOfNested(c: string, rest: string)
    requires '/' !in c
    ensures CategoryFromPath("categories/" + c + "/" + rest) == c
  {
    var p := "categories/" + c + "/" + rest;
    assert p == "categories" + ['/'] + (c + ['/'] + rest);
    SplitAfterComponent("categories", '/', c + ['/'] + rest);
    SplitAfterComponent(c, '/', rest);
  }

  /** A file directly under `categories/` has no category. */
  lemma CategoryOfTopLevel(name: string)
    requires '/' !in name
    ensures CategoryFromPath("categories/" + name) == ""
  {
    var p := "categories/" + name;
    assert p == "categories" + ['/'] + name;
    SplitAfterComponent("categories", '/', name);
    SplitWithoutSeparator(name, '/');
  }
}
