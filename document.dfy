/**
 * The rewriting passes the wiki applies to a rendered page before display:
 * `process_links`, `process_images` and `clean_code_blocks`. A page is an
 * array of its elements in document order, each with its tag and attribute
 * map; a `pre` element also records the first `code` element inside it, by
 * its attributes and its text content. Each pass changes the elements in
 * place, as the source changes the parsed tree.
 */
module Document {
  import opened Wrappers
  import opened PyStr
  import opened PosixPath
  import opened Base64
  import opened HtmlEscape
  import opened Snapshot

  /** A `code` element: its attributes and the text `get_text()` gives. */
  datatype Code = Code(attrs: map<string, string>, text: string)

  /** An element: its tag, its attributes and, for a `pre`, the `code` inside it. */
  datatype Node = Node(tag: string, attrs: map<string, string>, code: Option<Code>)

  /** `element.get(name, "")` */
  function Attr(n: Node, name: string): string {
    if name in n.attrs then n.attrs[name] else ""
  }

  /** A reference to another file relative to the page: it starts with `./`. */
  predicate IsRelative(ref: string) {
    StartsWith(ref, "./")
  }

  /** A `pre` element that `pre.code` finds a `code` element in. */
  predicate HasCode(n: Node) {
    n.tag == "pre" && n.code.Some?
  }

  // ---------------------------------------------------------------- code blocks

  /**
   * The fix-up at the start of `process_links`: the `code` of a `pre` is
   * replaced by a fresh `code` element holding the same text and no attribute.
   */
  function FixCode(n: Node): (r: Node)
    ensures r.tag == n.tag && r.attrs == n.attrs
    ensures !HasCode(n) ==> r == n
    ensures HasCode(n) ==> r.code == Some(Code(map[], n.code.value.text))
  {
    if HasCode(n) then n.(code := Some(Code(map[], n.code.value.text))) else n
  }

  /**
   * `clean_code_blocks` on one element: the `code` of a `pre` is replaced by
   * a fresh `code` element holding the escaped text, in which no '<', '>' or
   * quote is left.
   */
  function CleanCode(n: Node): (r: Node)
    ensures r.tag == n.tag && r.attrs == n.attrs
    ensures !HasCode(n) ==> r == n
    ensures HasCode(n) ==>
      r.code.Some? && r.code.value.attrs == map[] &&
      forall i :: 0 <= i < |r.code.value.text| ==> r.code.value.text[i] !in "<>\"'"
  {
    if HasCode(n) then n.(code := Some(Code(map[], Escape(n.code.value.text)))) else n
  }

  /** The escaped text of a cleaned code block stands for exactly the original text. */
  lemma CleanCodeKeepsText(n: Node)
    requires HasCode(n)
    ensures Unescape(CleanCode(n).code.value.text) == n.code.value.text
  {
    UnescapeEscape(n.code.value.text);
  }

  /** Cleaning is the fix-up followed by escaping: it keeps the text the fix-up keeps. */
  lemma CleanAfterFix(n: Node)
    ensures CleanCode(FixCode(n)) == CleanCode(n)
  {
  }

  // ---------------------------------------------------------------- links

  /** Where `process_links` sends a relative link found on page `current`. */
  function LinkTarget(current: string, href: string): (t: string)
    requires IsRelative(href)
    ensures StartsWith(t, "?file=") && !IsRelative(t)
  {
    var t := "?file=" + NormPath(Join(Dirname(current), href[2..]));
    assert t[0] == '?';
    t
  }

  /**
   * `process_links` on one element: an element changes exactly when it is an
   * anchor with a relative `href`; it then gets the `?file=` target as `href`
   * and `target="_self"`, and keeps every other attribute, its tag and its
   * content.
   */
  function RewriteLink(n: Node, current: string): (r: Node)
    ensures r.tag == n.tag && r.code == n.code
    ensures r != n <==> n.tag == "a" && IsRelative(Attr(n, "href"))
    ensures r != n ==>
      Attr(r, "href") == LinkTarget(current, Attr(n, "href")) && Attr(r, "target") == "_self" &&
      forall k :: k != "href" && k != "target" ==> (k in r.attrs <==> k in n.attrs) && (k in n.attrs ==> r.attrs[k] == n.attrs[k])
  {
    var href := Attr(n, "href");
    if n.tag == "a" && IsRelative(href) then
      var r := n.(attrs := n.attrs["href" := LinkTarget(current, href)]["target" := "_self"]);
      assert Attr(r, "href") != href;
      r
    else n
  }

  /** A rewritten link is not rewritten again. */
  lemma RewriteLinkIdempotent(n: Node, current: string)
    ensures RewriteLink(RewriteLink(n, current), current) == RewriteLink(n, current)
  {
  }

  /**
   * A link `./<name>` on page `<dir>/<file>` goes to `<dir>/<name>`, for a
   * normal relative directory and a plain name.
   */
  lemma LinkToSibling(dir: seq<string>, file: string, name: string)
    requires dir != [] && Normal(dir, false) && '/' !in file
    requires name != "" && name != "." && name != ".." && '/' !in name
    ensures LinkTarget(JoinWith(dir, "/") + "/" + file, "./" + name) == "?file=" + (JoinWith(dir, "/") + "/" + name)
  {
    var d := JoinWith(dir, "/");
    JoinEnd(dir);
    assert !StartsWith(name, "/") by { assert name[0] in name; }
    LinkTargetFrom(d, file, name);
    SiblingNormal(dir, name);
  }

  /** A relative link on page `<d>/<file>` is `<d>/<rest>` normalised. */
  lemma LinkTargetFrom(d: string, file: string, rest: string)
    requires d != "" && d[|d| - 1] != '/' && '/' !in file && !StartsWith(rest, "/")
    ensures LinkTarget(d + "/" + file, "./" + rest) == "?file=" + NormPath(d + "/" + rest)
  {
    DirnameOfComponent(d, file);
    assert ("./" + rest)[2..] == rest;
  }

  /** A normal directory followed by a plain name is already normal. */
  lemma SiblingNormal(dir: seq<string>, name: string)
    requires dir != [] && Normal(dir, false)
    requires name != "" && name != "." && name != ".." && '/' !in name
    ensures var j := JoinWith(dir, "/") + "/" + name; NormPath(j) == j
  {
    var cs := dir + [name];
    JoinWithSnoc(dir, "/", name);
    assert Normal(cs, false) by {
      assert forall i :: 0 <= i < |dir| ==> cs[i] == dir[i];
    }
    NormPathOfRelative(cs);
  }

  /** A join of parts whose last part is non-empty and has no '/' does not end with '/'. */
  lemma JoinEnd(dir: seq<string>)
    requires dir != [] && dir[|dir| - 1] != "" && '/' !in dir[|dir| - 1]
    ensures var d := JoinWith(dir, "/"); d != "" && d[|d| - 1] != '/'
  {
    var last := dir[|dir| - 1];
    if |dir| > 1 {
      JoinWithSnoc(dir[..|dir| - 1], "/", last);
      assert dir[..|dir| - 1] + [last] == dir;
    }
    assert last[|last| - 1] in last;
  }

  /**
   * No root check: on a page one directory deep, the link `./../../<x>`
   * climbs above the wiki's root and is emitted as `../<x>`, a path outside it.
   */
  lemma LinkAboveRoot(a: string, file: string, x: string)
    requires a != "" && a != "." && a != ".." && '/' !in a && '/' !in file
    requires x != "" && x != "." && x != ".." && '/' !in x
    ensures LinkTarget(a + "/" + file, "./../../" + x) == "?file=../" + x
  {
    assert a[|a| - 1] in a;
    var rest := "../../" + x;
    assert !StartsWith(rest, "/") by { assert rest[..1] == "."; }
    LinkTargetFrom(a, file, rest);
    AboveRootNorm(a, x);
    AboveRootSpelling(x);
  }

  lemma AboveRootSpelling(x: string)
    ensures "./" + ("../../" + x) == "./../../" + x
    ensures "?file=" + ("../" + x) == "?file=../" + x
  {
    assert "./" + ("../../" + x) == ("./" + "../../") + x;
    assert "?file=" + ("../" + x) == ("?file=" + "../") + x;
  }

  /** `<a>/../../<x>` normalises to `../<x>`. */
  lemma AboveRootNorm(a: string, x: string)
    requires a != "" && a != "." && a != ".." && '/' !in a
    requires x != "" && x != "." && x != ".." && '/' !in x
    ensures NormPath(a + "/" + ("../../" + x)) == "../" + x
  {
    var p := a + "/" + ("../../" + x);
    var parts := [a, "..", "..", x];
    AboveRootParts(a, x);
    assert '/' !in ".." by { assert ".." == ['.', '.']; }
    SplitJoin(parts, '/');
    assert p[0] == a[0] && a[0] in a;
    assert LeadingSlashes(p) == 0;
    AboveRootFold(a, x);
    NormPathRelative(p);
  }

  lemma AboveRootParts(a: string, x: string)
    ensures JoinWith([a, "..", "..", x], "/") == a + "/" + ("../../" + x)
    ensures JoinWith(["..", x], "/") == "../" + x
  {
    assert JoinWith([x], "/") == x;
    assert JoinWith(["..", x], "/") == ".." + "/" + x;
    assert ".." + "/" + x == "../" + x;
    assert JoinWith(["..", "..", x], "/") == ".." + "/" + ("../" + x);
    assert ".." + "/" + ("../" + x) == "../../" + x;
  }

  lemma AboveRootFold(a: string, x: string)
    requires a != "" && a != "." && a != ".." && x != "" && x != "." && x != ".."
    ensures Fold([], [a, "..", "..", x], false) == ["..", x]
  {
    var parts := [a, "..", "..", x];
    assert Step([], a, false) == [a];
    assert Fold([], parts, false) == Fold([a], ["..", "..", x], false) by { assert parts[1..] == ["..", "..", x]; }
    assert Step([a], "..", false) == [];
    assert Fold([a], ["..", "..", x], false) == Fold([], ["..", x], false) by { assert ["..", "..", x][1..] == ["..", x]; }
    assert Step([], "..", false) == [".."];
    assert Fold([], ["..", x], false) == Fold([".."], [x], false) by { assert ["..", x][1..] == [x]; }
    assert Step([".."], x, false) == ["..", x];
    assert Fold([".."], [x], false) == Fold(["..", x], [], false) by { assert [x][1..] == []; }
  }

  // ---------------------------------------------------------------- images

  const DataUriPrefix := "data:image/png;base64,"

  /** Where `process_images` looks for the image `src` of page `base`. */
  function ImagePath(base: string, src: string): string
    requires IsRelative(src)
  {
    Join(Dirname(base), src[2..])
  }

  /**
   * `process_images` on one element: an image with a relative `src` whose
   * file exists gets the file inlined as a base64 `data:` URI; a file that
   * exists but cannot be read raises, and its path is the error.
   */
  function InlineImage(n: Node, base: string, fs: FileSystem): (r: Result<Node, string>)
    ensures r.Err? <==>
      n.tag == "img" && IsRelative(Attr(n, "src")) && Exists(fs, ImagePath(base, Attr(n, "src"))) &&
      ReadBytes(fs, ImagePath(base, Attr(n, "src"))).None?
    ensures r.Ok? ==> r.value.tag == n.tag && r.value.code == n.code
    ensures r.Ok? ==> (r.value != n <==>
      n.tag == "img" && IsRelative(Attr(n, "src")) && Exists(fs, ImagePath(base, Attr(n, "src"))))
    ensures r.Ok? && r.value != n ==>
      r.value.attrs == n.attrs["src" := DataUriPrefix + Encode(ReadBytes(fs, ImagePath(base, Attr(n, "src"))).value)]
  {
    var src := Attr(n, "src");
    if n.tag == "img" && IsRelative(src) && Exists(fs, ImagePath(base, src)) then
      match ReadBytes(fs, ImagePath(base, src))
      case None => Err(ImagePath(base, src))
      case Some(bytes) =>
        var uri := DataUriPrefix + Encode(bytes);
        assert uri[0] == 'd';
        Ok(n.(attrs := n.attrs["src" := uri]))
    else Ok(n)
  }

  /** An inlined image carries exactly the bytes of its file. */
  lemma InlinedBytes(n: Node, base: string, fs: FileSystem)
    requires InlineImage(n, base, fs).Ok? && InlineImage(n, base, fs).value != n
    ensures var src := Attr(InlineImage(n, base, fs).value, "src");
      StartsWith(src, DataUriPrefix) &&
      Decode(src[|DataUriPrefix|..]) == ReadBytes(fs, ImagePath(base, Attr(n, "src")))
  {
    var bytes := ReadBytes(fs, ImagePath(base, Attr(n, "src"))).value;
    var src := DataUriPrefix + Encode(bytes);
    assert src[|DataUriPrefix|..] == Encode(bytes);
    DecodeEncode(bytes);
  }

  /**
   * `process_images` over a whole page: the first image that cannot be read
   * stops it. The page is processed exactly when every element is, and then
   * each element of the result is the processed element.
   */
  function InlineAll(ns: seq<Node>, base: string, fs: FileSystem): (r: Result<seq<Node>, string>)
    ensures r.Ok? <==> forall i :: 0 <= i < |ns| ==> InlineImage(ns[i], base, fs).Ok?
    ensures r.Ok? ==> |r.value| == |ns| && forall i :: 0 <= i < |ns| ==> r.value[i] == InlineImage(ns[i], base, fs).value
    decreases |ns|
  {
    if ns == [] then Ok([])
    else
      var init := ns[..|ns| - 1];
      assert forall i :: 0 <= i < |init| ==> init[i] == ns[i];
      match InlineAll(init, base, fs)
      case Err(e) => Err(e)
      case Ok(done) =>
        match InlineImage(ns[|ns| - 1], base, fs)
        case Err(e) => Err(e)
        case Ok(m) => Ok(done + [m])
  }

  // ---------------------------------------------------------------- the passes

  /** The code-block fix-up of `process_links`. */
  method FixCodeBlocks(doc: array<Node>)
    modifies doc
    ensures forall i :: 0 <= i < doc.Length ==> doc[i] == FixCode(old(doc[i]))
  {
    var i := 0;
    while i < doc.Length
      invariant 0 <= i <= doc.Length
      invariant forall j :: 0 <= j < i ==> doc[j] == FixCode(old(doc[j]))
      invariant forall j :: i <= j < doc.Length ==> doc[j] == old(doc[j])
    {
      if HasCode(doc[i]) {
        doc[i] := doc[i].(code := Some(Code(map[], doc[i].code.value.text)));
      }
      i := i + 1;
    }
  }

  /** The link rewrite of `process_links`, and all of `process_links` in `streamlit_utils.py`. */
  method RewriteLinks(doc: array<Node>, current: string)
    modifies doc
    ensures forall i :: 0 <= i < doc.Length ==> doc[i] == RewriteLink(old(doc[i]), current)
  {
    ghost var orig := doc[..];
    var i := 0;
    while i < doc.Length
      invariant 0 <= i <= doc.Length
      invariant forall j :: 0 <= j < i ==> doc[j] == RewriteLink(orig[j], current)
      invariant forall j :: i <= j < doc.Length ==> doc[j] == orig[j]
    {
      RewriteLinkAt(doc, i, current);
      i := i + 1;
    }
  }

  /** The body of the link loop: the anchor at `i`, if it is one with a relative `href`, is rewritten. */
  method RewriteLinkAt(doc: array<Node>, i: nat, current: string)
    requires i < doc.Length
    modifies doc
    ensures doc[i] == RewriteLink(old(doc[i]), current)
    ensures forall j :: 0 <= j < doc.Length && j != i ==> doc[j] == old(doc[j])
  {
    var href := Attr(doc[i], "href");
    if doc[i].tag == "a" && StartsWith(href, "./") {
      var target := LinkTarget(current, href);
      doc[i] := doc[i].(attrs := doc[i].attrs["href" := target]["target" := "_self"]);
    }
  }

  /** `process_links(html, current_file)`: the code-block fix-up, then the link rewrite. */
  method ProcessLinks(doc: array<Node>, current: string)
    modifies doc
    ensures forall i :: 0 <= i < doc.Length ==> doc[i] == RewriteLink(FixCode(old(doc[i])), current)
  {
    FixCodeBlocks(doc);
    RewriteLinks(doc, current);
  }

  /** `clean_code_blocks(html)` */
  method CleanCodeBlocks(doc: array<Node>)
    modifies doc
    ensures forall i :: 0 <= i < doc.Length ==> doc[i] == CleanCode(old(doc[i]))
  {
    var i := 0;
    while i < doc.Length
      invariant 0 <= i <= doc.Length
      invariant forall j :: 0 <= j < i ==> doc[j] == CleanCode(old(doc[j]))
      invariant forall j :: i <= j < doc.Length ==> doc[j] == old(doc[j])
    {
      if HasCode(doc[i]) {
        doc[i] := doc[i].(code := Some(Code(map[], Escape(doc[i].code.value.text))));
      }
      i := i + 1;
    }
  }

  /**
   * `process_images(html, base_path)`. It returns the path of the first image
   * file that exists but cannot be read, where the source raises; the
   * elements before it are then already processed.
   */
  method ProcessImages(doc: array<Node>, base: string, fs: FileSystem) returns (err: Option<string>)
    modifies doc
    ensures err.None? ==> InlineAll(old(doc[..]), base, fs) == Ok(doc[..])
    ensures err.Some? ==> InlineAll(old(doc[..]), base, fs) == Err(err.value)
  {
    ghost var orig := doc[..];
    var i := 0;
    while i < doc.Length
      invariant 0 <= i <= doc.Length
      invariant InlineAll(orig[..i], base, fs) == Ok(doc[..i])
      invariant doc[i..] == orig[i..]
    {
      assert orig[..i + 1][..i] == orig[..i];
      assert doc[i] == orig[i] by { assert doc[i..][0] == orig[i..][0]; }
      ghost var before := doc[..];
      err := InlineImageAt(doc, i, base, fs);
      if err.Some? {
        InlineAllPrefix(orig, i + 1, base, fs);
        return;
      }
      assert doc[..i] == before[..i];
      assert doc[i + 1..] == before[i + 1..];
      assert doc[..i + 1] == doc[..i] + [doc[i]];
      i := i + 1;
    }
    assert orig[..i] == orig && doc[..i] == doc[..];
    return None;
  }

  /**
   * The body of the image loop: the image at `i`, if it is one with a
   * relative `src` whose file exists, is inlined; a file that cannot be read
   * is the error, and the element is then left as it was.
   */
  method InlineImageAt(doc: array<Node>, i: nat, base: string, fs: FileSystem) returns (err: Option<string>)
    requires i < doc.Length
    modifies doc
    ensures err.None? ==> InlineImage(old(doc[i]), base, fs) == Ok(doc[i])
    ensures err.Some? ==> InlineImage(old(doc[i]), base, fs) == Err(err.value)
    ensures forall j :: 0 <= j < doc.Length && j != i ==> doc[j] == old(doc[j])
  {
    err := None;
    var src := Attr(doc[i], "src");
    if doc[i].tag == "img" && StartsWith(src, "./") {
      var path := Join(Dirname(base), src[2..]);
      if Exists(fs, path) {
        var bytes := ReadBytes(fs, path);
        if bytes.None? {
          return Some(path);
        }
        doc[i] := doc[i].(attrs := doc[i].attrs["src" := DataUriPrefix + Encode(bytes.value)]);
      }
    }
  }

  /** An error in a prefix of the page is the error of the whole page. */
  lemma {:induction false} InlineAllPrefix(ns: seq<Node>, k: nat, base: string, fs: FileSystem)
    requires k <= |ns| && InlineAll(ns[..k], base, fs).Err?
    ensures InlineAll(ns, base, fs) == InlineAll(ns[..k], base, fs)
    decreases |ns| - k
  {
    if k < |ns| {
      assert ns[..k + 1][..k] == ns[..k];
      InlineAllPrefix(ns, k + 1, base, fs);
    } else {
      assert ns[..k] == ns;
    }
  }
}
