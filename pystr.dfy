/**
 * The handful of Python `str` operations the wiki relies on. Case mapping is
 * modelled over ASCII letters only; every other character is left as it is.
 */
module PyStr {

  /** `s.startswith(p)` */
  predicate StartsWith(s: string, p: string) {
    |p| <= |s| && s[..|p|] == p
  }

  /** `t` occurs in `s` at offset `i`. */
  predicate OccursAt(s: string, t: string, i: int) {
    0 <= i && i + |t| <= |s| && s[i..i + |t|] == t
  }

  /** `t in s` */
  ghost predicate Contains(s: string, t: string) {
    exists i :: OccursAt(s, t, i)
  }

  /** `s.find(t)`: the first offset at which `t` occurs, or -1. */
  function Find(s: string, t: string): (r: int)
    ensures r == -1 <==> !Contains(s, t)
    ensures r != -1 ==> OccursAt(s, t, r) && forall j :: 0 <= j < r ==> !OccursAt(s, t, j)
  {
    FindFrom(s, t, 0)
  }

  function FindFrom(s: string, t: string, k: nat): (r: int)
    requires forall j :: 0 <= j < k ==> !OccursAt(s, t, j)
    ensures r == -1 <==> !Contains(s, t)
    ensures r != -1 ==> k <= r && OccursAt(s, t, r) && forall j :: 0 <= j < r ==> !OccursAt(s, t, j)
    decreases |s| - k
  {
    if k + |t| > |s| then
      assert forall j :: k <= j ==> !OccursAt(s, t, j);
      -1
    else if s[k..k + |t|] == t then
      assert OccursAt(s, t, k);
      k
    else FindFrom(s, t, k + 1)
  }

  /** The compiled form of `t in s`. */
  function In(t: string, s: string): (b: bool)
    ensures b <==> Contains(s, t)
  {
    Find(s, t) != -1
  }

  function LowerChar(c: char): char {
    if 'A' <= c <= 'Z' then (c as int + 32) as char else c
  }

  function UpperChar(c: char): char {
    if 'a' <= c <= 'z' then (c as int - 32) as char else c
  }

  predicate IsCased(c: char) {
    'A' <= c <= 'Z' || 'a' <= c <= 'z'
  }

  /** `s.lower()` over ASCII: no capital letter is left. */
  function Lower(s: string): (r: string)
    ensures |r| == |s|
    ensures forall i :: 0 <= i < |s| ==> r[i] == LowerChar(s[i])
    ensures forall i :: 0 <= i < |r| ==> !('A' <= r[i] <= 'Z')
  {
    seq(|s|, i requires 0 <= i < |s| => LowerChar(s[i]))
  }

  /** Lower-casing twice is lower-casing once. */
  lemma LowerIdempotent(s: string)
    ensures Lower(Lower(s)) == Lower(s)
  {
    assert forall i :: 0 <= i < |s| ==> LowerChar(LowerChar(s[i])) == LowerChar(s[i]);
  }

  /** `c` is `d`, or `d` in the other ASCII case. */
  predicate SameLetter(c: char, d: char) {
    c == d || c == UpperChar(d) || c == LowerChar(d)
  }

  lemma LowerChars(c: char)
    ensures LowerChar(UpperChar(c)) == LowerChar(c) && LowerChar(LowerChar(c)) == LowerChar(c)
  {
  }

  /**
   * Texts that differ only in ASCII case lower-case alike: the search's
   * comparison of lower-cased texts is insensitive to case.
   */
  lemma LowerIgnoresCase(s: string, t: string)
    requires |s| == |t| && forall i :: 0 <= i < |s| ==> SameLetter(s[i], t[i])
    ensures Lower(s) == Lower(t)
  {
    forall i | 0 <= i < |s| ensures Lower(s)[i] == Lower(t)[i] {
      LowerChars(t[i]);
    }
  }

  /**
   * `s.capitalize()` over ASCII: the first character upper-cased, the rest
   * lower-cased.
   */
  function Capitalize(s: string): (r: string)
    ensures |r| == |s|
    ensures s != [] ==> r[0] == UpperChar(s[0]) && r[1..] == Lower(s[1..])
  {
    if s == [] then [] else [UpperChar(s[0])] + Lower(s[1..])
  }

  /** Capitalising changes only case. */
  lemma CapitalizeIgnoresCase(s: string)
    ensures Lower(Capitalize(s)) == Lower(s)
  {
    if s != [] {
      LowerIgnoresCase(Capitalize(s), s);
    }
  }

  /** A character of `title()`: a letter upper-cased or lower-cased as `upper` says; any other character kept. */
  function TitleChar(c: char, upper: bool): char {
    if !IsCased(c) then c else if upper then UpperChar(c) else LowerChar(c)
  }

  /**
   * `s.title()` over ASCII: a letter is upper-cased when it comes first or
   * the character before it is not a letter, and lower-cased otherwise;
   * every other character is kept.
   */
  function Title(s: string): (r: string)
    ensures |r| == |s|
    ensures forall i :: 0 <= i < |s| ==> r[i] == TitleChar(s[i], i == 0 || !IsCased(s[i - 1]))
  {
    TitleAfter(s, false)
  }

  /** `Title` of the rest of a text, after a character that was cased or not. */
  function TitleAfter(s: string, prevCased: bool): (r: string)
    ensures |r| == |s|
    ensures forall i :: 0 <= i < |s| ==>
      r[i] == TitleChar(s[i], if i == 0 then !prevCased else !IsCased(s[i - 1]))
    decreases |s|
  {
    if s == [] then []
    else
      var rest := TitleAfter(s[1..], IsCased(s[0]));
      assert forall i :: 1 <= i < |s| ==> s[1..][i - 1] == s[i];
      [TitleChar(s[0], !prevCased)] + rest
  }

  /** `title()` keeps every character that is not a letter where it was, and brings in no other. */
  lemma TitleKeepsUncased(s: string, c: char)
    requires !IsCased(c)
    ensures c in Title(s) <==> c in s
  {
    if c in Title(s) {
      var i :| 0 <= i < |s| && Title(s)[i] == c;
      assert Title(s)[i] == TitleChar(s[i], i == 0 || !IsCased(s[i - 1]));
    }
    if c in s {
      var i :| 0 <= i < |s| && s[i] == c;
      assert Title(s)[i] == TitleChar(s[i], i == 0 || !IsCased(s[i - 1]));
    }
  }

  /** Title-casing changes only case. */
  lemma TitleIgnoresCase(s: string)
    ensures Lower(Title(s)) == Lower(s)
  {
    forall i | 0 <= i < |s| ensures SameLetter(Title(s)[i], s[i]) {
      assert Title(s)[i] == TitleChar(s[i], i == 0 || !IsCased(s[i - 1]));
    }
    LowerIgnoresCase(Title(s), s);
  }

  /**
   * `s.replace(pat, sub)`: every non-overlapping occurrence of `pat`, scanning
   * from the left, is replaced by `sub`.
   */
  function Replace(s: string, pat: string, sub: string): (r: string)
    requires pat != []
    decreases |s|
  {
    if s == [] then []
    else if StartsWith(s, pat) then sub + Replace(s[|pat|..], pat, sub)
    else [s[0]] + Replace(s[1..], pat, sub)
  }

  /**
   * `replace` leaves a text without the pattern as it is, and otherwise
   * replaces the first occurrence that `find` gives and carries on after it.
   */
  lemma {:induction false} ReplaceAtFind(s: string, pat: string, sub: string)
    requires pat != []
    ensures !Contains(s, pat) ==> Replace(s, pat, sub) == s
    ensures Contains(s, pat) ==>
      var i := Find(s, pat);
      Replace(s, pat, sub) == s[..i] + sub + Replace(s[i + |pat|..], pat, sub)
    decreases |s|
  {
    if s == [] {
    } else if StartsWith(s, pat) {
      ReplaceAtStart(s, pat, sub);
    } else {
      var t := s[1..];
      ReplaceAtFind(t, pat, sub);
      FindTail(s, pat);
      if Contains(t, pat) {
        ReplacePastFind(s, pat, sub, Find(t, pat));
      } else {
        ReplacePastNone(s, pat, sub);
      }
    }
  }

  /** `ReplaceAtFind` for a text that starts with the pattern. */
  lemma ReplaceAtStart(s: string, pat: string, sub: string)
    requires pat != [] && s != [] && StartsWith(s, pat)
    ensures Contains(s, pat) && Find(s, pat) == 0
    ensures Replace(s, pat, sub) == s[..0] + sub + Replace(s[0 + |pat|..], pat, sub)
  {
    FindAtStart(s, pat);
    assert s[..0] + sub == sub;
  }

  /** `find` of a pattern the text starts with. */
  lemma FindAtStart(s: string, pat: string)
    requires StartsWith(s, pat)
    ensures Contains(s, pat) && Find(s, pat) == 0
  {
    assert OccursAt(s, pat, 0);
  }

  /** The step of `ReplaceAtFind` past a first character when the tail holds no occurrence. */
  lemma ReplacePastNone(s: string, pat: string, sub: string)
    requires pat != [] && s != [] && !StartsWith(s, pat)
    requires Replace(s[1..], pat, sub) == s[1..]
    ensures Replace(s, pat, sub) == s
  {
    assert [s[0]] + s[1..] == s;
  }

  /** The step of `ReplaceAtFind` past a first character that starts no occurrence, when the tail has one at `g`. */
  lemma ReplacePastFind(s: string, pat: string, sub: string, g: nat)
    requires pat != [] && s != [] && !StartsWith(s, pat) && g + |pat| <= |s| - 1
    requires Replace(s[1..], pat, sub) == s[1..][..g] + sub + Replace(s[1..][g + |pat|..], pat, sub)
    ensures Replace(s, pat, sub) == s[..g + 1] + sub + Replace(s[g + 1 + |pat|..], pat, sub)
  {
    var t := s[1..];
    var rest := Replace(t[g + |pat|..], pat, sub);
    calc {
      Replace(s, pat, sub);
      [s[0]] + Replace(t, pat, sub);
      [s[0]] + (t[..g] + sub + rest);
      ([s[0]] + t[..g]) + sub + rest;
      { assert [s[0]] + t[..g] == s[..g + 1]; }
      s[..g + 1] + sub + rest;
      { assert t[g + |pat|..] == s[g + 1 + |pat|..]; }
      s[..g + 1] + sub + Replace(s[g + 1 + |pat|..], pat, sub);
    }
  }

  /**
   * `replace` brings in no character that neither the text nor `sub` holds,
   * removes every one-character pattern that `sub` does not hold, and never
   * lengthens the text when `sub` is no longer than `pat`.
   */
  lemma {:induction false} ReplaceShape(s: string, pat: string, sub: string, c: char)
    requires pat != []
    ensures c in Replace(s, pat, sub) ==> c in s || c in sub
    ensures |pat| == 1 && c == pat[0] && c !in sub ==> c !in Replace(s, pat, sub)
    ensures |sub| <= |pat| ==> |Replace(s, pat, sub)| <= |s|
    decreases |s|
  {
    if s == [] {
    } else if StartsWith(s, pat) {
      var t := s[|pat|..];
      ReplaceShape(t, pat, sub, c);
      assert c in t ==> c in s;
      if |pat| == 1 {
        assert s[0] == pat[0];
      }
    } else {
      var t := s[1..];
      ReplaceShape(t, pat, sub, c);
      assert c in t ==> c in s;
      assert |pat| == 1 ==> s[..1] == [s[0]] && pat == [pat[0]];
    }
  }

  /** Without an occurrence at the start, the occurrences are those of the tail, one further on. */
  lemma FindTail(s: string, pat: string)
    requires s != [] && !StartsWith(s, pat)
    ensures Contains(s, pat) <==> Contains(s[1..], pat)
    ensures Contains(s, pat) ==> Find(s, pat) == Find(s[1..], pat) + 1
  {
    var t := s[1..];
    assert !OccursAt(s, pat, 0);
    forall j | OccursAt(s, pat, j) ensures OccursAt(t, pat, j - 1) {
      assert t[j - 1..j - 1 + |pat|] == s[j..j + |pat|];
    }
    forall j | OccursAt(t, pat, j) ensures OccursAt(s, pat, j + 1) {
      assert t[j..j + |pat|] == s[j + 1..j + 1 + |pat|];
    }
    if Contains(t, pat) {
      var g, f := Find(t, pat), Find(s, pat);
      assert OccursAt(s, pat, g + 1);
      assert OccursAt(t, pat, f - 1);
    }
  }

  /** `s.split(sep)` for a one-character separator. */
  function Split(s: string, sep: char): (parts: seq<string>)
    ensures |parts| >= 1
    ensures forall i :: 0 <= i < |parts| ==> sep !in parts[i]
  {
    if s == [] then [""]
    else
      var rest := Split(s[1..], sep);
      if s[0] == sep then [""] + rest else [[s[0]] + rest[0]] + rest[1..]
  }

  /** `sep.join(parts)` */
  function JoinWith(parts: seq<string>, sep: string): string {
    if parts == [] then ""
    else if |parts| == 1 then parts[0]
    else parts[0] + sep + JoinWith(parts[1..], sep)
  }

  /** Joining one more part appends the separator and the part. */
  lemma {:induction false} JoinWithSnoc(parts: seq<string>, sep: string, x: string)
    requires parts != []
    ensures JoinWith(parts + [x], sep) == JoinWith(parts, sep) + sep + x
    decreases |parts|
  {
    if |parts| > 1 {
      JoinWithSnoc(parts[1..], sep, x);
      assert (parts + [x])[1..] == parts[1..] + [x];
    }
  }

  /** Splitting on `sep` and joining with `sep` gives the string back. */
  lemma {:induction false} JoinSplit(s: string, sep: char)
    ensures JoinWith(Split(s, sep), [sep]) == s
  {
    if s != [] {
      JoinSplit(s[1..], sep);
      var rest := Split(s[1..], sep);
      if s[0] == sep {
        assert s == [sep] + s[1..];
      } else {
        if |rest| == 1 {
          assert JoinWith(Split(s, sep), [sep]) == [s[0]] + rest[0];
        } else {
          assert JoinWith(Split(s, sep), [sep]) == [s[0]] + rest[0] + [sep] + JoinWith(rest[1..], [sep]);
        }
      }
    }
  }

  /** A component without the separator, followed by the separator, splits off as one part. */
  lemma {:induction false} SplitAfterComponent(x: string, sep: char, y: string)
    requires sep !in x
    ensures Split(x + [sep] + y, sep) == [x] + Split(y, sep)
  {
    if x == [] {
      assert x + [sep] + y == [sep] + y;
      assert ([sep] + y)[1..] == y;
    } else {
      assert (x + [sep] + y)[1..] == x[1..] + [sep] + y;
      SplitAfterComponent(x[1..], sep, y);
      assert [x[0]] + x[1..] == x;
    }
  }

  /** A string without the separator splits into itself alone. */
  lemma {:induction false} SplitWithoutSeparator(x: string, sep: char)
    requires sep !in x
    ensures Split(x, sep) == [x]
  {
    if x != [] {
      SplitWithoutSeparator(x[1..], sep);
      assert [x[0]] + x[1..] == x;
    }
  }
}
