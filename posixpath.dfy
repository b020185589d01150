/**
 * The POSIX path arithmetic of Python's `os.path` (module `posixpath`) used by
 * the wiki: `basename`, `dirname`, two-argument `join` and `normpath`.
 */
module PosixPath {
  import opened PyStr

  /** The offset just after the last '/' of `p`, or 0 when `p` has none. */
  function AfterLastSlash(p: string): (i: nat)
    ensures i <= |p|
    ensures i > 0 ==> p[i - 1] == '/'
    ensures '/' !in p[i..]
  {
    if p == [] then 0
    else if p[|p| - 1] == '/' then |p|
    else
      var i := AfterLastSlash(p[..|p| - 1]);
      assert p[i..] == p[..|p| - 1][i..] + [p[|p| - 1]];
      i
  }

  /** `os.path.basename(p)`: what follows the last '/'. */
  function Basename(p: string): (r: string)
    ensures '/' !in r
    ensures |r| <= |p| && p == p[..|p| - |r|] + r
  {
    p[AfterLastSlash(p)..]
  }

  /**
   * The basename is the whole last component: what precedes it is empty or
   * ends with '/'.
   */
  lemma BasenameIsLastComponent(p: string)
    ensures var r := Basename(p);
      '/' !in r && |r| <= |p| && p == p[..|p| - |r|] + r &&
      (|r| == |p| || p[|p| - |r| - 1] == '/')
  {
  }

  /** In `a/b` with no '/' in `b`, the last '/' is the one after `a`. */
  lemma {:induction false} LastSlashOfComponent(a: string, b: string)
    requires '/' !in b
    ensures AfterLastSlash(a + "/" + b) == |a| + 1
    decreases |b|
  {
    var p := a + "/" + b;
    if b != [] {
      assert p[|p| - 1] == b[|b| - 1];
      assert p[..|p| - 1] == a + "/" + b[..|b| - 1];
      LastSlashOfComponent(a, b[..|b| - 1]);
    }
  }

  /** The basename of a path is its last component. */
  lemma BasenameOfComponent(a: string, b: string)
    requires '/' !in b
    ensures Basename(a + "/" + b) == b
  {
    LastSlashOfComponent(a, b);
    assert (a + "/" + b)[|a| + 1..] == b;
  }

  /** The dirname of a path is what precedes its last component. */
  lemma DirnameOfComponent(a: string, b: string)
    requires '/' !in b && a != "" && a[|a| - 1] != '/'
    ensures Dirname(a + "/" + b) == a
  {
    LastSlashOfComponent(a, b);
    var head := (a + "/" + b)[..|a| + 1];
    assert head == a + "/";
    assert head[|a| - 1] != '/';
    assert !AllSlashes(head);
    assert head[..|head| - 1] == a;
    assert RStripSlashes(head) == RStripSlashes(a) == a;
  }

  predicate AllSlashes(s: string) {
    forall i :: 0 <= i < |s| ==> s[i] == '/'
  }

  /** `s.rstrip('/')` */
  function RStripSlashes(s: string): (r: string)
    ensures |r| <= |s| && r == s[..|r|]
    ensures r == [] || r[|r| - 1] != '/'
    ensures AllSlashes(s[|r|..])
  {
    if s != [] && s[|s| - 1] == '/' then RStripSlashes(s[..|s| - 1]) else s
  }

  /**
   * `os.path.dirname(p)`: everything up to the last '/', with trailing
   * slashes removed unless it consists of slashes only.
   */
  function Dirname(p: string): string {
    var head := p[..AfterLastSlash(p)];
    if head != "" && !AllSlashes(head) then RStripSlashes(head) else head
  }

  /** `os.path.join(a, b)`: an absolute `b` replaces `a`. */
  function Join(a: string, b: string): (r: string)
    ensures StartsWith(b, "/") ==> r == b
    ensures !StartsWith(b, "/") ==> r == a + (if a == "" || a[|a| - 1] == '/' then "" else "/") + b
  {
    if StartsWith(b, "/") then b
    else if a == "" || a[|a| - 1] == '/' then a + b
    else a + "/" + b
  }

  /**
   * What `join` builds: it ends with `b`; a relative `b` is appended to `a`
   * behind exactly one separating '/' (none when `a` is empty or already ends
   * with one); an absolute `b` discards `a`.
   */
  lemma JoinShape(a: string, b: string)
    ensures |b| <= |Join(a, b)| && Join(a, b)[|Join(a, b)| - |b|..] == b
    ensures !StartsWith(b, "/") ==> StartsWith(Join(a, b), a)
    ensures !StartsWith(b, "/") && a != "" ==>
      |Join(a, b)| == |a| + |b| + (if a[|a| - 1] == '/' then 0 else 1) &&
      Join(a, b)[|Join(a, b)| - |b| - 1] == '/'
    ensures Join("", b) == b
    ensures StartsWith(b, "/") ==> Join(a, b) == b
  {
    var r := Join(a, b);
    if !StartsWith(b, "/") {
      assert r[..|a|] == a;
      if a != "" && a[|a| - 1] != '/' {
        assert r[|r| - |b| - 1] == '/';
      }
    }
    assert r[|r| - |b|..] == b;
  }

  /** A path without a doubled slash is its dirname joined with its basename. */
  lemma DirnameJoinBasename(p: string)
    requires !Contains(p, "//")
    ensures Join(Dirname(p), Basename(p)) == p
  {
    var i := AfterLastSlash(p);
    var head := p[..i];
    assert p == head + p[i..];
    assert Basename(p) != [] ==> Basename(p)[0] in Basename(p);
    if i > 1 {
      assert !OccursAt(p, "//", i - 2);
      assert p[i - 2..i] == [p[i - 2], p[i - 1]];
      assert !AllSlashes(head) by { assert head[i - 2] != '/'; }
      assert RStripSlashes(head) == p[..i - 1] by {
        assert head[..i - 1] == p[..i - 1];
      }
      assert p == p[..i - 1] + "/" + p[i..];
    }
  }

  /** How many leading slashes `normpath` keeps: POSIX gives exactly two a meaning of their own. */
  function LeadingSlashes(p: string): nat {
    if StartsWith(p, "//") && !StartsWith(p, "///") then 2
    else if StartsWith(p, "/") then 1
    else 0
  }

  function Slashes(n: nat): string {
    if n == 0 then "" else "/" + Slashes(n - 1)
  }

  /**
   * One step of `normpath` over a component: empty and "." components are
   * dropped, ".." removes a preceding real component, and a ".." that has
   * nothing to remove is kept for a relative path and dropped for an
   * absolute one.
   */
  function Step(acc: seq<string>, c: string, absolute: bool): seq<string> {
    if c == "" || c == "." then acc
    else if c != ".." || (!absolute && acc == []) || (acc != [] && acc[|acc| - 1] == "..") then acc + [c]
    else if acc != [] then acc[..|acc| - 1]
    else acc
  }

  function Fold(acc: seq<string>, cs: seq<string>, absolute: bool): seq<string>
    decreases |cs|
  {
    if cs == [] then acc else Fold(Step(acc, cs[0], absolute), cs[1..], absolute)
  }

  /** `os.path.normpath(p)` */
  function NormPath(p: string): string {
    if p == "" then "."
    else
      var n := LeadingSlashes(p);
      var out := Slashes(n) + JoinWith(Fold([], Split(p, '/'), n > 0), "/");
      if out == "" then "." else out
  }

  /** `normpath` of a relative path is its folded components, or "." when none is left. */
  lemma NormPathRelative(p: string)
    requires p != "" && LeadingSlashes(p) == 0
    ensures NormPath(p) == var out := JoinWith(Fold([], Split(p, '/'), false), "/"); if out == "" then "." else out
  {
    assert Slashes(0) == "";
  }

  /**
   * The components `normpath` leaves behind: none empty, none ".", none
   * holding a slash; every ".." stands before every real component; an
   * absolute path keeps no "..".
   */
  ghost predicate Normal(cs: seq<string>, absolute: bool) {
    && (forall i :: 0 <= i < |cs| ==> cs[i] != "" && cs[i] != "." && '/' !in cs[i])
    && (forall i, j :: 0 <= i < j < |cs| && cs[j] == ".." ==> cs[i] == "..")
    && (absolute ==> forall i :: 0 <= i < |cs| ==> cs[i] != "..")
  }

  lemma StepNormal(acc: seq<string>, c: string, absolute: bool)
    requires Normal(acc, absolute) && '/' !in c
    ensures Normal(Step(acc, c, absolute), absolute)
  {
    var r := Step(acc, c, absolute);
    if c != "" && c != "." && acc != [] && c == ".." && acc[|acc| - 1] != ".." {
      assert r == acc[..|acc| - 1];
      assert forall i :: 0 <= i < |r| ==> r[i] == acc[i];
    }
  }

  lemma {:induction false} FoldNormal(acc: seq<string>, cs: seq<string>, absolute: bool)
    requires Normal(acc, absolute)
    requires forall i :: 0 <= i < |cs| ==> '/' !in cs[i]
    ensures Normal(Fold(acc, cs, absolute), absolute)
    decreases |cs|
  {
    if cs != [] {
      StepNormal(acc, cs[0], absolute);
      FoldNormal(Step(acc, cs[0], absolute), cs[1..], absolute);
    }
  }

  /** Normalising components that are already normal changes nothing. */
  lemma {:induction false} FoldOfNormal(acc: seq<string>, cs: seq<string>, absolute: bool)
    requires Normal(acc + cs, absolute)
    ensures Fold(acc, cs, absolute) == acc + cs
    decreases |cs|
  {
    if cs != [] {
      var all := acc + cs;
      assert all[|acc|] == cs[0];
      if cs[0] == ".." && acc != [] {
        assert all[|acc| - 1] == acc[|acc| - 1];
      }
      assert Step(acc, cs[0], absolute) == acc + [cs[0]];
      assert (acc + [cs[0]]) + cs[1..] == all;
      FoldOfNormal(acc + [cs[0]], cs[1..], absolute);
    }
  }

  /** Splitting a join of separator-free parts gives the parts back. */
  lemma {:induction false} SplitJoin(parts: seq<string>, sep: char)
    requires |parts| >= 1
    requires forall i :: 0 <= i < |parts| ==> sep !in parts[i]
    ensures Split(JoinWith(parts, [sep]), sep) == parts
    decreases |parts|
  {
    if |parts| == 1 {
      SplitWithoutSeparator(parts[0], sep);
    } else {
      SplitJoin(parts[1..], sep);
      SplitAfterComponent(parts[0], sep, JoinWith(parts[1..], [sep]));
      assert [parts[0]] + parts[1..] == parts;
    }
  }

  /** A join of non-empty parts starts with the first character of the first part. */
  lemma {:induction false} JoinHead(parts: seq<string>, sep: string)
    requires |parts| >= 1 && parts[0] != ""
    ensures JoinWith(parts, sep) != "" && JoinWith(parts, sep)[0] == parts[0][0]
  {
  }

  /**
   * `normpath` resolves every "." and ".." it can: the components of its
   * result are normal, and the result starts with the leading slashes of its
   * argument.
   */
  lemma NormPathShape(p: string)
    ensures NormPath(p) == "." ||
      var n := LeadingSlashes(p);
      var cs := Fold([], Split(p, '/'), n > 0);
      Normal(cs, n > 0) && NormPath(p) == Slashes(n) + JoinWith(cs, "/")
  {
    if p != "" {
      FoldNormal([], Split(p, '/'), LeadingSlashes(p) > 0);
    }
  }

  lemma NormPathDot()
    ensures NormPath(".") == "."
  {
    SplitWithoutSeparator(".", '/');
  }

  /** A normal relative path is its own normal form. */
  lemma NormPathOfRelative(cs: seq<string>)
    requires cs != [] && Normal(cs, false)
    ensures NormPath(JoinWith(cs, "/")) == JoinWith(cs, "/")
  {
    var body := JoinWith(cs, "/");
    JoinHead(cs, "/");
    assert LeadingSlashes(body) == 0;
    SplitJoin(cs, '/');
    assert Split(body, '/') == cs;
    FoldOfNormal([], cs, false);
    assert [] + cs == cs;
    assert Slashes(0) == "";
    assert Slashes(0) + JoinWith(Fold([], Split(body, '/'), false), "/") == body;
  }

  /** A normal path with one leading slash is its own normal form. */
  lemma NormPathOfRooted(cs: seq<string>)
    requires Normal(cs, true)
    ensures NormPath("/" + JoinWith(cs, "/")) == "/" + JoinWith(cs, "/")
  {
    RootedFold(cs);
    RootedLeading(cs);
    assert Slashes(1) == "/";
  }

  lemma RootedFold(cs: seq<string>)
    requires Normal(cs, true)
    ensures Fold([], Split("/" + JoinWith(cs, "/"), '/'), true) == cs
  {
    var body := JoinWith(cs, "/");
    var r := "/" + body;
    SplitAfterComponent("", '/', body);
    assert "" + ['/'] + body == r;
    assert Split(r, '/') == [""] + Split(body, '/');
    assert Fold([], Split(r, '/'), true) == Fold([], Split(body, '/'), true);
    NormalFold(cs);
  }

  /** Folding the components of a join of normal components gives them back. */
  lemma NormalFold(cs: seq<string>)
    requires Normal(cs, true)
    ensures Fold([], Split(JoinWith(cs, "/"), '/'), true) == cs
  {
    if cs == [] {
      assert Split("", '/') == [""];
      assert Fold([], [""], true) == Fold([], [], true) == [];
    } else {
      SplitJoin(cs, '/');
      FoldOfNormal([], cs, true);
      assert [] + cs == cs;
    }
  }

  lemma RootedLeading(cs: seq<string>)
    requires Normal(cs, true)
    ensures LeadingSlashes("/" + JoinWith(cs, "/")) == 1
  {
    var body := JoinWith(cs, "/");
    var r := "/" + body;
    if cs != [] {
      JoinHead(cs, "/");
      assert cs[0][0] in cs[0];
      assert r[1] == body[0];
    }
    assert !StartsWith(r, "//");
  }

  /** A normal path with two leading slashes is its own normal form. */
  lemma NormPathOfDoubleRooted(cs: seq<string>)
    requires Normal(cs, true)
    ensures NormPath("//" + JoinWith(cs, "/")) == "//" + JoinWith(cs, "/")
  {
    DoubleRootedFold(cs);
    DoubleRootedLeading(cs);
    assert Slashes(2) == "//";
  }

  lemma DoubleRootedFold(cs: seq<string>)
    requires Normal(cs, true)
    ensures Fold([], Split("//" + JoinWith(cs, "/"), '/'), true) == cs
  {
    var body := JoinWith(cs, "/");
    var r := "//" + body;
    SplitAfterComponent("", '/', "/" + body);
    SplitAfterComponent("", '/', body);
    assert "" + ['/'] + ("/" + body) == r;
    assert "" + ['/'] + body == "/" + body;
    assert Split(r, '/') == [""] + ([""] + Split(body, '/'));
    assert Fold([], Split(r, '/'), true) == Fold([], [""] + Split(body, '/'), true);
    assert Fold([], [""] + Split(body, '/'), true) == Fold([], Split(body, '/'), true);
    NormalFold(cs);
  }

  lemma DoubleRootedLeading(cs: seq<string>)
    requires Normal(cs, true)
    ensures LeadingSlashes("//" + JoinWith(cs, "/")) == 2
  {
    var body := JoinWith(cs, "/");
    var r := "//" + body;
    if cs != [] {
      JoinHead(cs, "/");
      assert cs[0][0] in cs[0];
      assert r[2] == body[0];
    }
    assert StartsWith(r, "//") && !StartsWith(r, "///");
  }

  /** `normpath` is idempotent. */
  lemma NormPathIdempotent(p: string)
    ensures NormPath(NormPath(p)) == NormPath(p)
  {
    NormPathDot();
    if p != "" {
      var n := LeadingSlashes(p);
      var cs := Fold([], Split(p, '/'), n > 0);
      FoldNormal([], Split(p, '/'), n > 0);
      if n == 0 {
        assert Slashes(0) == "";
        if cs != [] {
          JoinHead(cs, "/");
          assert NormPath(p) == JoinWith(cs, "/");
          NormPathOfRelative(cs);
        }
      } else if n == 1 {
        assert Slashes(1) == "/";
        NormPathOfRooted(cs);
      } else {
        assert Slashes(2) == "//";
        NormPathOfDoubleRooted(cs);
      }
    }
  }
}
