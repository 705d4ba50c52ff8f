/**
 * `clean_visible` (app.py:72-84): turns the visible part of a reply into a
 * single display line without markdown bold, backticks or list prefixes.
 */
module Sanitizer {
  import opened Text

  /** No two adjacent asterisks, i.e. no "**" left. */
  predicate NoDoubleStar(s: string) {
    forall i :: 0 < i < |s| ==> !(s[i - 1] == '*' && s[i] == '*')
  }

  /** No two adjacent whitespace characters. */
  predicate NoSpaceRun(s: string) {
    forall i :: 0 < i < |s| ==> !(IsSpace(s[i - 1]) && IsSpace(s[i]))
  }

  /** The characters of `s` other than '*', in order. */
  function NonStar(s: string): string {
    if s == [] then [] else (if s[0] == '*' then [] else [s[0]]) + NonStar(s[1..])
  }

  /**
   * `s.replace("**", "")`: scanning left to right, every non-overlapping
   * "**" is dropped. Only asterisks go, and no "**" is left.
   */
  function RemoveBold(s: string): (r: string)
    ensures NonStar(r) == NonStar(s)
    ensures NoDoubleStar(r)
    ensures s != [] && s[0] != '*' ==> r != [] && r[0] == s[0]
    ensures forall c :: c in r ==> c in s
  {
    if |s| >= 2 && s[0] == '*' && s[1] == '*' then
      BoldPairDropped(s);
      RemoveBold(s[2..])
    else if s == [] then []
    else
      var rest := RemoveBold(s[1..]);
      BoldKeepsChar(s, rest);
      [s[0]] + rest
  }

  /** A leading `**` contributes nothing to the non-star text and no character. */
  lemma BoldPairDropped(s: string)
    requires |s| >= 2 && s[0] == '*' && s[1] == '*'
    ensures NonStar(s) == NonStar(s[2..])
    ensures forall c :: c in s[2..] ==> c in s
  {
    assert s[1..][1..] == s[2..];
  }

  /**
   * A leading character that does not start `**` is kept in front of the
   * cleaned rest, and the result still has no `**`.
   */
  lemma BoldKeepsChar(s: string, rest: string)
    requires s != [] && !(|s| >= 2 && s[0] == '*' && s[1] == '*')
    requires NonStar(rest) == NonStar(s[1..]) && NoDoubleStar(rest)
    requires s[1..] != [] && s[1..][0] != '*' ==> rest != [] && rest[0] == s[1..][0]
    requires forall c :: c in rest ==> c in s[1..]
    ensures NonStar([s[0]] + rest) == NonStar(s)
    ensures NoDoubleStar([s[0]] + rest)
    ensures forall c :: c in [s[0]] + rest ==> c in s
  {
    assert ([s[0]] + rest)[1..] == rest;
    assert forall i :: 0 < i < |rest| + 1 ==> ([s[0]] + rest)[i] == rest[i - 1];
    if rest != [] {
      assert rest[0] in s[1..];
      assert !(s[0] == '*' && rest[0] == '*');
    }
  }

  /** `re.sub(r"`+", "", s)`: every backtick is dropped, nothing else. */
  function RemoveBackticks(s: string): (r: string)
    ensures forall c :: c in r <==> c in s && c != '`'
  {
    if s == [] then [] else (if s[0] == '`' then [] else [s[0]]) + RemoveBackticks(s[1..])
  }

  /**
   * The backtick pass works character by character: it distributes over
   * concatenation, and on one character (`RemoveBackticksChar`) it drops a
   * backtick and keeps anything else.
   */
  lemma {:induction false} RemoveBackticksConcat(a: string, b: string)
    ensures RemoveBackticks(a + b) == RemoveBackticks(a) + RemoveBackticks(b)
    decreases |a|
  {
    if a == [] {
      assert a + b == b;
    } else {
      assert (a + b)[0] == a[0] && (a + b)[1..] == a[1..] + b;
      RemoveBackticksConcat(a[1..], b);
      var h := if a[0] == '`' then [] else [a[0]];
      var x, y := RemoveBackticks(a[1..]), RemoveBackticks(b);
      assert RemoveBackticks(a + b) == h + (x + y);
      assert RemoveBackticks(a) == h + x;
      ConcatAssoc(h, x, y);
    }
  }

  lemma RemoveBackticksChar(c: char)
    ensures RemoveBackticks([c]) == if c == '`' then [] else [c]
  {
    assert [c][1..] == [];
  }

  /**
   * No "**" straddles the boundary after a part that does not end with a
   * star, so the "**" pass works on each side separately.
   */
  lemma {:induction false} RemoveBoldConcat(a: string, b: string)
    requires a == [] || a[|a| - 1] != '*'
    ensures RemoveBold(a + b) == RemoveBold(a) + RemoveBold(b)
    decreases |a|
  {
    if a == [] {
      assert a + b == b;
    } else if |a| >= 2 && a[0] == '*' && a[1] == '*' {
      assert (a + b)[2..] == a[2..] + b;
      RemoveBoldConcat(a[2..], b);
    } else {
      assert a[1..] == [] || a[1..][|a[1..]| - 1] == a[|a| - 1];
      RemoveBoldConcat(a[1..], b);
      RemoveBoldKeepsFirst(a, b);
      ConcatAssoc([a[0]], RemoveBold(a[1..]), RemoveBold(b));
    }
  }

  /** A first character that starts no "**" of `a + b` is kept, and the pass goes on after it. */
  lemma RemoveBoldKeepsFirst(a: string, b: string)
    requires a != [] && a[|a| - 1] != '*' && !(|a| >= 2 && a[0] == '*' && a[1] == '*')
    ensures RemoveBold(a + b) == [a[0]] + RemoveBold(a[1..] + b)
    ensures RemoveBold(a) == [a[0]] + RemoveBold(a[1..])
  {
    var ab := a + b;
    assert ab[0] == a[0] && ab[1..] == a[1..] + b;
    assert !(|ab| >= 2 && ab[0] == '*' && ab[1] == '*') by {
      if |a| == 1 {
        assert a[0] != '*';
      } else {
        assert ab[1] == a[1];
      }
    }
  }

  /** The characters `^[\-\*\d\.\)\s]+` strips from the front of a line. */
  predicate IsListPrefixChar(c: char) {
    c == '-' || c == '*' || ('0' <= c <= '9') || c == '.' || c == ')' || IsSpace(c)
  }

  /** `re.sub(r"^[\-\*\d\.\)\s]+", "", line)`: drops the longest prefix of list-prefix characters. */
  function StripListPrefix(line: string): (r: string)
    ensures |r| <= |line| && r == line[|line| - |r|..]
    ensures r == [] || !IsListPrefixChar(r[0])
    ensures forall k :: 0 <= k < |line| - |r| ==> IsListPrefixChar(line[k])
  {
    line[ListPrefixEnd(line, 0)..]
  }

  /** The first index at or after `i` that holds no list-prefix character, or `|line|`. */
  function ListPrefixEnd(line: string, i: nat): (k: nat)
    requires i <= |line|
    ensures i <= k <= |line|
    ensures forall j :: i <= j < k ==> IsListPrefixChar(line[j])
    ensures k < |line| ==> !IsListPrefixChar(line[k])
    decreases |line| - i
  {
    if i < |line| && IsListPrefixChar(line[i]) then ListPrefixEnd(line, i + 1) else i
  }

  /** One line of the loop: stripped, then its list prefix removed. */
  function CleanLine(line: string): string {
    StripListPrefix(Strip(line))
  }

  /** The characters of `s` other than whitespace, in order. */
  function NonSpace(s: string): string {
    if s == [] then [] else (if IsSpace(s[0]) then [] else [s[0]]) + NonSpace(s[1..])
  }

  /** Dropping leading whitespace leaves the non-whitespace characters alone. */
  lemma {:induction false} NonSpaceAfterRun(t: string, n: nat)
    requires n <= |t| && forall k :: 0 <= k < n ==> IsSpace(t[k])
    ensures NonSpace(t[n..]) == NonSpace(t)
    decreases n
  {
    if n > 0 {
      assert t[1..][n - 1..] == t[n..];
      NonSpaceAfterRun(t[1..], n - 1);
    }
  }

  /** The length of the run of whitespace that `t` starts with. */
  function SpaceRun(t: string): (n: nat)
    ensures n <= |t| && (n < |t| ==> !IsSpace(t[n]))
    ensures forall k :: 0 <= k < n ==> IsSpace(t[k])
  {
    if t != [] && IsSpace(t[0]) then 1 + SpaceRun(t[1..]) else 0
  }

  /**
   * `re.sub(r"\s{2,}", " ", t)`: every run of two or more whitespace
   * characters becomes one space; a lone whitespace character stays.
   */
  function CollapseSpaces(t: string): (r: string)
    ensures r == [] <==> t == []
    ensures t != [] ==> (IsSpace(r[0]) <==> IsSpace(t[0]))
    ensures t != [] && !IsSpace(t[0]) ==> r[0] == t[0]
    ensures NoSpaceRun(r)
    ensures forall c :: c in r ==> c == ' ' || c in t
    ensures NonSpace(r) == NonSpace(t)
    decreases |t|
  {
    if t == [] then []
    else
      var n := SpaceRun(t);
      if n >= 2 then
        var rest := CollapseSpaces(t[n..]);
        NonSpaceAfterRun(t, n);
        CollapseStep(t, n, ' ', rest);
        [' '] + rest
      else
        var rest := CollapseSpaces(t[1..]);
        CollapseStep(t, 1, t[0], rest);
        [t[0]] + rest
  }

  /**
   * Putting `c` in front of the collapsed rest of `t` after `k` characters
   * keeps the shape `CollapseSpaces` promises.
   */
  lemma CollapseStep(t: string, k: nat, c: char, rest: string)
    requires 1 <= k <= |t| && (c == ' ' || c == t[0])
    requires NoSpaceRun(rest) && forall x :: x in rest ==> x == ' ' || x in t[k..]
    requires rest == [] || !(IsSpace(c) && IsSpace(rest[0]))
    ensures NoSpaceRun([c] + rest)
    ensures forall x :: x in [c] + rest ==> x == ' ' || x in t
    ensures ([c] + rest)[1..] == rest
  {
    var r := [c] + rest;
    forall i | 0 < i < |r| ensures !(IsSpace(r[i - 1]) && IsSpace(r[i])) {
      assert r[i] == rest[i - 1];
      if i > 1 {
        assert r[i - 1] == rest[i - 2];
      }
    }
    forall x | x in rest ensures x == ' ' || x in t {
      if x != ' ' {
        var j :| 0 <= j < |t| - k && t[k..][j] == x;
        assert t[k + j] == x;
      }
    }
  }

  /**
   * A whitespace run on its own: two or more characters become one space,
   * and a lone whitespace character (or nothing) stays as it is.
   */
  lemma CollapseSpacesOfRun(w: string)
    requires AllSpace(w)
    ensures CollapseSpaces(w) == (if |w| >= 2 then " " else w)
  {
    if w != [] {
      SpaceRunOfAllSpace(w);
      assert w[|w|..] == [];
      if |w| == 1 {
        assert w[1..] == [];
        assert w == [w[0]];
      }
    }
  }

  /** All of an all-whitespace text is its leading run. */
  lemma {:induction false} SpaceRunOfAllSpace(w: string)
    requires AllSpace(w)
    ensures SpaceRun(w) == |w|
  {
    if w != [] {
      assert AllSpace(w[1..]) by {
        forall k | 0 <= k < |w| - 1 ensures IsSpace(w[1..][k]) { assert w[1..][k] == w[k + 1]; }
      }
      SpaceRunOfAllSpace(w[1..]);
    }
  }

  /**
   * The collapse works on each side of a cut that follows a non-whitespace
   * character: no run straddles such a cut.
   */
  lemma {:induction false} CollapseSpacesConcat(x: string, y: string)
    requires x == [] || !IsSpace(x[|x| - 1])
    ensures CollapseSpaces(x + y) == CollapseSpaces(x) + CollapseSpaces(y)
    decreases |x|
  {
    if x == [] {
      assert x + y == y;
    } else {
      var c, z := ConcatHead(x, y);
      CollapseSpacesConcat(z, y);
      ConcatAssoc([c], CollapseSpaces(z), CollapseSpaces(y));
    }
  }

  /** `x` and `x + y` take the same first step, leaving `z` and `z + y`. */
  lemma ConcatHead(x: string, y: string) returns (c: char, z: string)
    requires x != [] && !IsSpace(x[|x| - 1])
    ensures |z| < |x| && (z == [] || !IsSpace(z[|z| - 1]))
    ensures CollapseSpaces(x) == [c] + CollapseSpaces(z)
    ensures CollapseSpaces(x + y) == [c] + CollapseSpaces(z + y)
  {
    SpaceRunConcat(x, y);
    var k;
    c, k := CollapseHead(x);
    z := x[k..];
    SameHead(x, y, c, k, z);
    DropConcat(x, y, k);
  }

  /** With the same leading run, `x + y` steps as `x` does. */
  lemma SameHead(x: string, y: string, c: char, k: nat, z: string)
    requires x != [] && SpaceRun(x + y) == SpaceRun(x) && 1 <= k <= |x| && z == x[k..]
    requires k == (if SpaceRun(x) >= 2 then SpaceRun(x) else 1)
    requires c == (if SpaceRun(x) >= 2 then ' ' else x[0])
    ensures CollapseSpaces(x + y) == [c] + CollapseSpaces(z + y)
  {
    var c', k' := CollapseHead(x + y);
    DropConcat(x, y, k);
  }

  lemma DropConcat<T>(x: seq<T>, y: seq<T>, k: nat)
    requires 1 <= k <= |x|
    ensures (x + y)[0] == x[0] && (x + y)[k..] == x[k..] + y
    ensures x[k..] == [] || x[k..][|x[k..]| - 1] == x[|x| - 1]
  {
  }

  /** Nor does a run straddle a cut between whitespace and a non-whitespace character. */
  lemma CollapseSpacesAfterRun(x: string, y: string)
    requires AllSpace(x) && (y == [] || !IsSpace(y[0]))
    ensures CollapseSpaces(x + y) == CollapseSpaces(x) + CollapseSpaces(y)
  {
    if x != [] {
      RunBeforeNonSpace(x, y);
      CollapseSpacesOfRun(x);
      if |x| >= 2 {
        LongRunThenText(x, y);
      } else {
        SpaceThenText(x, y);
      }
    } else {
      assert x + y == y;
    }
  }

  lemma LongRunThenText(x: string, y: string)
    requires |x| >= 2 && SpaceRun(x + y) == |x|
    ensures CollapseSpaces(x + y) == " " + CollapseSpaces(y)
  {
    var c, k := CollapseHead(x + y);
    DropWhole(x, y);
  }

  lemma SpaceThenText(x: string, y: string)
    requires |x| == 1 && SpaceRun(x + y) == 1
    ensures CollapseSpaces(x + y) == x + CollapseSpaces(y)
  {
    var c, k := CollapseHead(x + y);
    DropWhole(x, y);
    assert (x + y)[0] == x[0] && x == [x[0]];
  }

  lemma DropWhole<T>(x: seq<T>, y: seq<T>)
    ensures (x + y)[|x|..] == y
  {
  }

  /** The leading run of `x + y` is all of `x` when `y` starts with a non-space. */
  lemma {:induction false} RunBeforeNonSpace(x: string, y: string)
    requires AllSpace(x) && (y == [] || !IsSpace(y[0]))
    ensures SpaceRun(x + y) == |x|
  {
    if x != [] {
      assert (x + y)[1..] == x[1..] + y;
      assert AllSpace(x[1..]) by {
        forall k | 0 <= k < |x| - 1 ensures IsSpace(x[1..][k]) { assert x[1..][k] == x[k + 1]; }
      }
      RunBeforeNonSpace(x[1..], y);
    } else {
      assert x + y == y;
    }
  }

  /** One step of the collapse: a run of two or more, or a single character. */
  lemma CollapseHead(t: string) returns (c: char, k: nat)
    requires t != []
    ensures k == (if SpaceRun(t) >= 2 then SpaceRun(t) else 1)
    ensures c == (if SpaceRun(t) >= 2 then ' ' else t[0])
    ensures 1 <= k <= |t| && CollapseSpaces(t) == [c] + CollapseSpaces(t[k..])
  {
    var n := SpaceRun(t);
    k := if n >= 2 then n else 1;
    c := if n >= 2 then ' ' else t[0];
  }

  /** The leading run of `x + y` is that of `x` when `x` ends in a non-space. */
  lemma {:induction false} SpaceRunConcat(x: string, y: string)
    requires x != [] && !IsSpace(x[|x| - 1])
    ensures SpaceRun(x + y) == SpaceRun(x) < |x|
  {
    if IsSpace(x[0]) {
      assert (x + y)[1..] == x[1..] + y;
      SpaceRunConcat(x[1..], y);
    }
  }

  /** Each source line, stripped and with its list prefix removed. */
  function CleanAll(src: seq<string>): seq<string> {
    seq(|src|, i requires 0 <= i < |src| => CleanLine(src[i]))
  }

  /** The non-empty entries of `xs`, in order. */
  function NonEmpty(xs: seq<string>): (r: seq<string>)
    ensures forall k :: 0 <= k < |r| ==> r[k] != "" && r[k] in xs
  {
    if xs == [] then []
    else
      var x := xs[|xs| - 1];
      NonEmpty(xs[..|xs| - 1]) + (if x != "" then [x] else [])
  }

  /** The `lines` list that the loop of `clean_visible` builds from `src`. */
  function KeptLines(src: seq<string>): seq<string> {
    NonEmpty(CleanAll(src))
  }

  lemma KeptLinesStep(src: seq<string>, i: nat)
    requires i < |src|
    ensures KeptLines(src[..i + 1])
      == KeptLines(src[..i]) + (if CleanLine(src[i]) != "" then [CleanLine(src[i])] else [])
  {
    var xs := CleanAll(src[..i + 1]);
    assert xs[..i] == CleanAll(src[..i]);
    assert xs[i] == CleanLine(src[i]);
  }

  /** Every kept line is the cleaned form of some source line. */
  lemma KeptLinesFromSource(src: seq<string>, k: nat)
    requires k < |KeptLines(src)|
    ensures KeptLines(src)[k] != ""
    ensures exists j :: 0 <= j < |src| && KeptLines(src)[k] == CleanLine(src[j])
  {
    var x := KeptLines(src)[k];
    assert x in CleanAll(src);
    var j :| 0 <= j < |src| && CleanAll(src)[j] == x;
  }

  /** What `clean_visible` returns. */
  function Cleaned(text: string): string {
    var t := RemoveBackticks(RemoveBold(text));
    Strip(CollapseSpaces(Join(" ", KeptLines(SplitLines(t)))))
  }

  /** Neither a line break nor a backtick. */
  predicate Plain(c: char) {
    !IsLineBreak(c) && c != '`'
  }

  predicate AllPlain(s: string) {
    forall c :: c in s ==> Plain(c)
  }

  /** The shape of every line the loop keeps. */
  predicate GoodLine(line: string) {
    line != [] && !IsListPrefixChar(line[0]) && !IsSpace(line[|line| - 1]) && AllPlain(line)
  }

  lemma CleanLineShape(line: string)
    requires AllPlain(line)
    ensures CleanLine(line) == [] || GoodLine(CleanLine(line))
  {
    var s := Strip(line);
    InfixPlain(line, StripStart(line), StripStart(line) + |s|);
    StrippedListLineShape(s);
  }

  /** Dropping the list prefix of a stripped plain line leaves nothing or a good line. */
  lemma StrippedListLineShape(s: string)
    requires Stripped(s) && AllPlain(s)
    ensures StripListPrefix(s) == [] || GoodLine(StripListPrefix(s))
  {
    var r := StripListPrefix(s);
    InfixPlain(s, |s| - |r|, |s|);
    assert r == s[|s| - |r|..|s|];
    if r != [] {
      assert r[|r| - 1] == s[|s| - 1];
    }
  }

  lemma InfixPlain(line: string, i: nat, j: nat)
    requires AllPlain(line) && i <= j <= |line|
    ensures AllPlain(line[i..j])
  {
    forall c | c in line[i..j] ensures Plain(c) {
      var k :| 0 <= k < j - i && line[i..j][k] == c;
      assert line[i + k] in line;
    }
  }

  lemma KeptLinesGood(src: seq<string>)
    requires forall k :: 0 <= k < |src| ==> AllPlain(src[k])
    ensures forall k :: 0 <= k < |KeptLines(src)| ==> GoodLine(KeptLines(src)[k])
  {
    forall k | 0 <= k < |KeptLines(src)| ensures GoodLine(KeptLines(src)[k]) {
      KeptLinesFromSource(src, k);
      var j :| 0 <= j < |src| && KeptLines(src)[k] == CleanLine(src[j]);
      CleanLineShape(src[j]);
    }
  }

  lemma SplitLinesPlain(t: string)
    requires '`' !in t
    ensures forall k :: 0 <= k < |SplitLines(t)| ==> AllPlain(SplitLines(t)[k])
  {
    forall k | 0 <= k < |SplitLines(t)| ensures AllPlain(SplitLines(t)[k]) {
      var line := SplitLines(t)[k];
      LinesOccurInText(t, k);
      var a :| OccursAt(t, line, a);
      assert line == t[a..a + |line|];
      forall c | c in line ensures Plain(c) {
        var i :| 0 <= i < |line| && line[i] == c;
        assert !IsLineBreak(line[i]);
      }
    }
  }

  lemma {:induction false} JoinGood(lines: seq<string>)
    requires forall k :: 0 <= k < |lines| ==> GoodLine(lines[k])
    ensures var j := Join(" ", lines);
      AllPlain(j) && (j == [] <==> lines == []) && (lines != [] ==> GoodLine(lines[0]) && j[0] == lines[0][0])
  {
    if |lines| > 1 {
      JoinGood(lines[1..]);
    }
  }

  lemma NoSpaceRunInfix(s: string, r: string, o: nat)
    requires NoSpaceRun(s) && o + |r| <= |s| && r == s[o..o + |r|]
    ensures NoSpaceRun(r)
  {
    forall i | 0 < i < |r| ensures !(IsSpace(r[i - 1]) && IsSpace(r[i])) {
      assert r[i - 1] == s[o + i - 1] && r[i] == s[o + i];
    }
  }

  /** The lines the loop keeps, joined with spaces, are plain and start well. */
  lemma JoinedKeptLinesShape(t: string)
    requires '`' !in t
    ensures var j := Join(" ", KeptLines(SplitLines(t)));
      AllPlain(j) && (j == [] || !IsListPrefixChar(j[0]))
  {
    SplitLinesPlain(t);
    KeptLinesGood(SplitLines(t));
    JoinGood(KeptLines(SplitLines(t)));
  }

  lemma StripPlain(c: string)
    requires AllPlain(c)
    ensures AllPlain(Strip(c))
  {
    var r := Strip(c);
    assert r == c[StripStart(c)..StripStart(c) + |r|];
  }

  lemma StripNoSpaceRun(c: string)
    requires NoSpaceRun(c)
    ensures NoSpaceRun(Strip(c))
  {
    NoSpaceRunInfix(c, Strip(c), StripStart(c));
  }

  /** Stripping text that starts with a non-whitespace character keeps that character first. */
  lemma StripKeepsFirst(c: string)
    requires c != [] && !IsSpace(c[0])
    ensures Strip(c) != [] && Strip(c)[0] == c[0]
  {
    StripKeepsPrefix(c, [c[0]]);
  }

  lemma CollapseStripPlain(j: string)
    requires AllPlain(j)
    ensures AllPlain(Strip(CollapseSpaces(j)))
  {
    var c := CollapseSpaces(j);
    assert AllPlain(c);
    StripPlain(c);
  }

  lemma CollapseStripFirst(j: string)
    requires j == [] || !IsListPrefixChar(j[0])
    ensures var r := Strip(CollapseSpaces(j)); r == [] || !IsListPrefixChar(r[0])
  {
    if j != [] {
      StripKeepsFirst(CollapseSpaces(j));
    }
  }

  /**
   * A display line: no line break or backtick, no whitespace run, no
   * leading or trailing whitespace, no list-prefix character first.
   */
  predicate DisplayLine(r: string) {
    AllPlain(r) && NoSpaceRun(r) && Stripped(r) && (r == [] || !IsListPrefixChar(r[0]))
  }

  /** Collapsing and stripping plain text that starts well gives a display line. */
  lemma CollapseStripShape(j: string)
    requires AllPlain(j) && (j == [] || !IsListPrefixChar(j[0]))
    ensures DisplayLine(Strip(CollapseSpaces(j)))
  {
    var c := CollapseSpaces(j);
    var r := Strip(c);
    CollapseStripPlain(j);
    CollapseStripFirst(j);
    StripNoSpaceRun(c);
    assert AllPlain(r) && NoSpaceRun(r) && Stripped(r);
  }

  /**
   * The output of `clean_visible` holds no backtick and no line break, never
   * two whitespace characters in a row, has no leading or trailing
   * whitespace, and does not start with a list-prefix character.
   */
  lemma CleanedShape(text: string)
    ensures DisplayLine(Cleaned(text))
    ensures '`' !in Cleaned(text) && NoLineBreak(Cleaned(text))
  {
    var t := RemoveBackticks(RemoveBold(text));
    JoinedKeptLinesShape(t);
    CollapseStripShape(Join(" ", KeptLines(SplitLines(t))));
    var r := Cleaned(text);
    forall i | 0 <= i < |r| ensures !IsLineBreak(r[i]) {
      assert r[i] in r;
    }
  }

  lemma {:induction false} RemoveBoldWithoutDoubleStar(s: string)
    requires NoDoubleStar(s)
    ensures RemoveBold(s) == s
  {
    if s != [] {
      RemoveBoldWithoutDoubleStar(s[1..]);
    }
  }

  lemma {:induction false} RemoveBackticksWithoutBacktick(s: string)
    requires '`' !in s
    ensures RemoveBackticks(s) == s
  {
    if s != [] {
      RemoveBackticksWithoutBacktick(s[1..]);
    }
  }

  lemma {:induction false} CollapseWithoutSpaceRun(t: string)
    requires NoSpaceRun(t)
    ensures CollapseSpaces(t) == t
  {
    if t != [] {
      assert SpaceRun(t) < 2 by {
        if |t| >= 2 && IsSpace(t[0]) {
          assert !IsSpace(t[1]);
        }
      }
      CollapseWithoutSpaceRun(t[1..]);
    }
  }

  /** A display line without "**" is left as it is by `clean_visible`. */
  lemma CleanedFixesDisplayLine(t: string)
    requires DisplayLine(t) && NoDoubleStar(t)
    ensures Cleaned(t) == t
  {
    if t == [] {
      assert SplitLines(t) == [];
      StrippedIsFixed(t);
    } else {
      CleanedJoinsDisplayLines([t]);
    }
  }

  /** A display line is its own cleaned line: nothing to strip, no list prefix. */
  lemma CleanLineFixesDisplayLine(t: string)
    requires DisplayLine(t)
    ensures CleanLine(t) == t && NoLineBreak(t)
  {
    StrippedIsFixed(t);
    assert ListPrefixEnd(t, 0) == 0;
    forall i | 0 <= i < |t| ensures !IsLineBreak(t[i]) {
      assert t[i] in t;
    }
  }

  lemma CleanAllFixes(lines: seq<string>)
    requires forall k :: 0 <= k < |lines| ==> CleanLine(lines[k]) == lines[k]
    ensures CleanAll(lines) == lines
  {
  }

  /** When no entry is empty, the non-empty entries are all of them. */
  lemma {:induction false} NonEmptyKeepsAll(xs: seq<string>)
    requires forall k :: 0 <= k < |xs| ==> xs[k] != ""
    ensures NonEmpty(xs) == xs
    decreases |xs|
  {
    if xs != [] {
      var init := xs[..|xs| - 1];
      NonEmptyKeepsAll(init);
      assert init + [xs[|xs| - 1]] == xs;
    }
  }

  /** When every line cleans to something non-empty, the loop keeps every cleaned line, in order. */
  lemma KeptAllLines(src: seq<string>)
    requires forall k :: 0 <= k < |src| ==> CleanLine(src[k]) != ""
    ensures KeptLines(src) == CleanAll(src)
  {
    NonEmptyKeepsAll(CleanAll(src));
  }

  /** Two non-empty display lines joined by one space form a display line. */
  lemma JoinTwoDisplayLines(a: string, b: string)
    requires a != "" && b != "" && DisplayLine(a) && DisplayLine(b)
    ensures DisplayLine(a + " " + b)
  {
    var j := a + " " + b;
    forall i | 0 < i < |j| ensures !(IsSpace(j[i - 1]) && IsSpace(j[i])) {
      if i < |a| {
        assert j[i - 1] == a[i - 1] && j[i] == a[i];
      } else if i == |a| {
        assert j[i - 1] == a[|a| - 1];
      } else if i == |a| + 1 {
        assert j[i] == b[0];
      } else {
        assert j[i - 1] == b[i - 2 - |a|] && j[i] == b[i - 1 - |a|];
      }
    }
    forall c | c in j ensures Plain(c) {
      assert c in a || c == ' ' || c in b;
    }
    assert j[0] == a[0] && j[|j| - 1] == b[|b| - 1];
  }

  /** Non-empty display lines joined by single spaces form a display line. */
  lemma {:induction false} JoinDisplayLines(lines: seq<string>)
    requires forall k :: 0 <= k < |lines| ==> lines[k] != "" && DisplayLine(lines[k])
    ensures DisplayLine(Join(" ", lines))
    ensures lines != [] ==> Join(" ", lines) != ""
    decreases |lines|
  {
    if |lines| > 1 {
      JoinDisplayLines(lines[1..]);
      JoinTwoDisplayLines(lines[0], Join(" ", lines[1..]));
    }
  }

  lemma {:induction false} JoinNoBacktick(sep: string, parts: seq<string>)
    requires '`' !in sep && forall k :: 0 <= k < |parts| ==> '`' !in parts[k]
    ensures '`' !in Join(sep, parts)
    decreases |parts|
  {
    if |parts| > 1 {
      JoinNoBacktick(sep, parts[1..]);
    }
  }

  /**
   * What `clean_visible` keeps: when the text, after the "**" and backtick
   * passes, is lines that each clean to a non-empty line without whitespace
   * runs, the result is exactly those cleaned lines, in order, joined by
   * single spaces.
   */
  lemma CleanedJoinsCleanLines(text: string, lines: seq<string>)
    requires RemoveBackticks(RemoveBold(text)) == Join("\n", lines)
    requires forall k :: 0 <= k < |lines| ==> NoLineBreak(lines[k])
    requires forall k :: 0 <= k < |lines| ==> CleanLine(lines[k]) != "" && NoSpaceRun(CleanLine(lines[k]))
    ensures Cleaned(text) == Join(" ", CleanAll(lines))
  {
    var u := RemoveBackticks(RemoveBold(text));
    assert lines != [] ==> lines[|lines| - 1] != "";
    SplitLinesOfJoin(lines);
    KeptAllLines(lines);
    var cs := CleanAll(lines);
    assert '`' !in u;
    SplitLinesPlain(u);
    forall k | 0 <= k < |cs| ensures cs[k] != "" && DisplayLine(cs[k]) {
      CleanLineShape(lines[k]);
    }
    JoinDisplayLines(cs);
    var j := Join(" ", cs);
    CollapseWithoutSpaceRun(j);
    StrippedIsFixed(j);
  }

  /**
   * Display lines without "**", one per line of the text, come out as the
   * same lines joined by single spaces: line breaks become spaces and no
   * word is lost.
   */
  lemma CleanedJoinsDisplayLines(lines: seq<string>)
    requires forall k :: 0 <= k < |lines| ==> lines[k] != "" && DisplayLine(lines[k]) && NoDoubleStar(lines[k])
    ensures Cleaned(Join("\n", lines)) == Join(" ", lines)
  {
    var t := Join("\n", lines);
    JoinKeepsNoDoubleStar("\n", lines);
    RemoveBoldWithoutDoubleStar(t);
    JoinNoBacktick("\n", lines);
    RemoveBackticksWithoutBacktick(t);
    forall k | 0 <= k < |lines| ensures NoLineBreak(lines[k]) && CleanLine(lines[k]) == lines[k] {
      CleanLineFixesDisplayLine(lines[k]);
    }
    CleanAllFixes(lines);
    CleanedJoinsCleanLines(t, lines);
  }

  lemma NoDoubleStarInfix(s: string, r: string, o: nat)
    requires NoDoubleStar(s) && o + |r| <= |s| && r == s[o..o + |r|]
    ensures NoDoubleStar(r)
  {
    forall i | 0 < i < |r| ensures !(r[i - 1] == '*' && r[i] == '*') {
      assert r[i - 1] == s[o + i - 1] && r[i] == s[o + i];
    }
  }

  lemma {:induction false} CollapseKeepsNoDoubleStar(t: string)
    requires NoDoubleStar(t)
    ensures NoDoubleStar(CollapseSpaces(t))
    decreases |t|
  {
    if t != [] {
      var n := SpaceRun(t);
      if n >= 2 {
        NoDoubleStarInfix(t, t[n..], n);
        CollapseKeepsNoDoubleStar(t[n..]);
        var rest := CollapseSpaces(t[n..]);
        assert forall i :: 0 < i < |rest| + 1 ==> ([' '] + rest)[i] == rest[i - 1];
      } else {
        NoDoubleStarInfix(t, t[1..], 1);
        CollapseKeepsNoDoubleStar(t[1..]);
        var rest := CollapseSpaces(t[1..]);
        assert forall i :: 0 < i < |rest| + 1 ==> ([t[0]] + rest)[i] == rest[i - 1];
      }
    }
  }

  lemma {:induction false} JoinKeepsNoDoubleStar(sep: string, lines: seq<string>)
    requires sep == " " || sep == "\n"
    requires forall k :: 0 <= k < |lines| ==> NoDoubleStar(lines[k])
    ensures NoDoubleStar(Join(sep, lines))
  {
    if |lines| > 1 {
      JoinKeepsNoDoubleStar(sep, lines[1..]);
      var a := lines[0];
      var b := Join(sep, lines[1..]);
      var j := a + sep + b;
      forall i | 0 < i < |j| ensures !(j[i - 1] == '*' && j[i] == '*') {
        if i < |a| {
          assert j[i - 1] == a[i - 1] && j[i] == a[i];
        } else if i > |a| + 1 {
          assert j[i - 1] == b[i - 2 - |a|] && j[i] == b[i - 1 - |a|];
        }
      }
    }
  }

  lemma KeptLinesKeepNoDoubleStar(src: seq<string>)
    requires forall k :: 0 <= k < |src| ==> NoDoubleStar(src[k])
    ensures forall k :: 0 <= k < |KeptLines(src)| ==> NoDoubleStar(KeptLines(src)[k])
  {
    forall k | 0 <= k < |KeptLines(src)| ensures NoDoubleStar(KeptLines(src)[k]) {
      KeptLinesFromSource(src, k);
      var j :| 0 <= j < |src| && KeptLines(src)[k] == CleanLine(src[j]);
      CleanLineKeepsNoDoubleStar(src[j]);
    }
  }

  lemma CleanLineKeepsNoDoubleStar(line: string)
    requires NoDoubleStar(line)
    ensures NoDoubleStar(CleanLine(line))
  {
    var s := Strip(line);
    NoDoubleStarInfix(line, s, StripStart(line));
    var r := StripListPrefix(s);
    NoDoubleStarInfix(s, r, |s| - |r|);
  }

  lemma LinesKeepNoDoubleStar(t: string)
    requires NoDoubleStar(t)
    ensures forall k :: 0 <= k < |SplitLines(t)| ==> NoDoubleStar(SplitLines(t)[k])
  {
    forall k | 0 <= k < |SplitLines(t)| ensures NoDoubleStar(SplitLines(t)[k]) {
      LinesOccurInText(t, k);
      var a :| OccursAt(t, SplitLines(t)[k], a);
      NoDoubleStarInfix(t, SplitLines(t)[k], a);
    }
  }

  lemma JoinedKeptLinesNoDoubleStar(b: string)
    requires NoDoubleStar(b)
    ensures NoDoubleStar(Join(" ", KeptLines(SplitLines(b))))
  {
    LinesKeepNoDoubleStar(b);
    KeptLinesKeepNoDoubleStar(SplitLines(b));
    JoinKeepsNoDoubleStar(" ", KeptLines(SplitLines(b)));
  }

  lemma CollapseStripNoDoubleStar(j: string)
    requires NoDoubleStar(j)
    ensures NoDoubleStar(Strip(CollapseSpaces(j)))
  {
    var c := CollapseSpaces(j);
    CollapseKeepsNoDoubleStar(j);
    NoDoubleStarInfix(c, Strip(c), StripStart(c));
  }

  /** On backtick-free text "**" never reappears, so the output has none. */
  lemma CleanedHasNoDoubleStar(text: string)
    requires '`' !in text
    ensures NoDoubleStar(Cleaned(text))
  {
    var b := RemoveBold(text);
    RemoveBackticksWithoutBacktick(b);
    JoinedKeptLinesNoDoubleStar(b);
    CollapseStripNoDoubleStar(Join(" ", KeptLines(SplitLines(b))));
  }

  /** `clean_visible` is idempotent on text without backticks. */
  lemma CleanedIdempotentWithoutBackticks(text: string)
    requires '`' !in text
    ensures Cleaned(Cleaned(text)) == Cleaned(text)
  {
    CleanedShape(text);
    CleanedHasNoDoubleStar(text);
    CleanedFixesDisplayLine(Cleaned(text));
  }

  /**
   * The "**" pass runs before the backtick pass, so removing a backtick can
   * put two stars side by side again.
   */
  lemma BacktickJoinsStars()
    ensures RemoveBold("*`*") == "*`*" && RemoveBackticks("*`*") == "**"
  {
  }

  /**
   * Whenever the cleaned text still holds a "**", cleaning it again changes
   * it: idempotence fails exactly there.
   */
  lemma NotIdempotentWhenStarsRemain(text: string)
    requires !NoDoubleStar(Cleaned(text))
    ensures Cleaned(Cleaned(text)) != Cleaned(text)
  {
    CleanedShape(text);
    CleanedHasNoDoubleStar(Cleaned(text));
  }

  /**
   * A word, as the example lemmas below use it: non-empty, with no
   * list-prefix character (no whitespace, `-`, `*`, digit, `.` or `)`) and
   * no backtick anywhere, so "v2" or "3.5" is not one.
   */
  predicate Word(w: string) {
    w != "" && forall c :: c in w ==> !IsListPrefixChar(c) && c != '`'
  }

  lemma WordIsDisplayLine(w: string)
    requires Word(w)
    ensures DisplayLine(w) && NoDoubleStar(w)
  {
    forall i | 0 <= i < |w| ensures !IsListPrefixChar(w[i]) {
      assert w[i] in w;
    }
  }

  /**
   * A bold first word, then a list: "**h** w\n- a\n- b" cleans to
   * "h w a b". The bold markers and the list dashes go, the words stay in
   * order, and each line break becomes one space; with h, w, a, b set to
   * "Hi", "there", "item one", "item two" the input is
   * "**Hi** there\n- item one\n- item two".
   */
  lemma BoldWordAndListItems(h: string, w: string, a: string, b: string)
    requires Word(h) && Word(w)
    requires a != "" && DisplayLine(a) && '*' !in a
    requires b != "" && DisplayLine(b) && '*' !in b
    ensures Cleaned("**" + h + "** " + w + "\n- " + a + "\n- " + b) == h + " " + w + " " + a + " " + b
  {
    var text := "**" + h + "** " + w + "\n- " + a + "\n- " + b;
    assert RemoveBackticks(RemoveBold(text)) == (h + " " + w) + "\n" + ("- " + a) + "\n" + ("- " + b) by {
      BoldPassOfBoldWord(h, w, a, b);
      ListWithoutBacktick(h, w, a, b);
      LinesOfList(h, w, a, b);
      JoinFromThree("\n", h + " " + w, "- " + a, "- " + b);
    }
    DisplayPair(h, w);
    CleanLineFixesDisplayLine(h + " " + w);
    DashedLine(a);
    DashedLine(b);
    CleanedThreeLines(text, h + " " + w, "- " + a, "- " + b);
  }

  /** A text whose two passes leave three lines, each kept by the loop, cleans to their cleaned forms. */
  lemma CleanedThreeLines(text: string, x: string, y: string, z: string)
    requires RemoveBackticks(RemoveBold(text)) == x + "\n" + y + "\n" + z
    requires NoLineBreak(x) && NoLineBreak(y) && NoLineBreak(z)
    requires CleanLine(x) != "" && NoSpaceRun(CleanLine(x))
    requires CleanLine(y) != "" && NoSpaceRun(CleanLine(y))
    requires CleanLine(z) != "" && NoSpaceRun(CleanLine(z))
    ensures Cleaned(text) == CleanLine(x) + " " + CleanLine(y) + " " + CleanLine(z)
  {
    var lines := [x, y, z];
    JoinFromThree("\n", x, y, z);
    ThreeLinesKept(x, y, z);
    CleanedJoinsCleanLines(text, lines);
    CleanAllThree(x, y, z);
    JoinFromThree(" ", CleanLine(x), CleanLine(y), CleanLine(z));
  }

  lemma ThreeLinesKept(x: string, y: string, z: string)
    requires NoLineBreak(x) && NoLineBreak(y) && NoLineBreak(z)
    requires CleanLine(x) != "" && NoSpaceRun(CleanLine(x))
    requires CleanLine(y) != "" && NoSpaceRun(CleanLine(y))
    requires CleanLine(z) != "" && NoSpaceRun(CleanLine(z))
    ensures forall k :: 0 <= k < |[x, y, z]| ==> NoLineBreak([x, y, z][k])
    ensures forall k :: 0 <= k < |[x, y, z]| ==>
      CleanLine([x, y, z][k]) != "" && NoSpaceRun(CleanLine([x, y, z][k]))
  {
    var lines := [x, y, z];
    forall k | 0 <= k < |lines|
      ensures NoLineBreak(lines[k]) && CleanLine(lines[k]) != "" && NoSpaceRun(CleanLine(lines[k]))
    {
      if k == 0 {
        assert lines[k] == x;
      } else if k == 1 {
        assert lines[k] == y;
      } else {
        assert lines[k] == z;
      }
    }
  }

  lemma CleanAllThree(x: string, y: string, z: string)
    ensures CleanAll([x, y, z]) == [CleanLine(x), CleanLine(y), CleanLine(z)]
  {
    var c := CleanAll([x, y, z]);
    var d := [CleanLine(x), CleanLine(y), CleanLine(z)];
    forall k | 0 <= k < 3 ensures c[k] == d[k] {
      if k == 0 {
      } else if k == 1 {
      } else {
      }
    }
  }

  /** The "**" pass on "**h** w\n- a\n- b" removes the one pair of markers. */
  lemma BoldPassOfBoldWord(h: string, w: string, a: string, b: string)
    requires Word(h) && Word(w) && a != "" && '*' !in a && '*' !in b
    ensures RemoveBold("**" + h + "** " + w + "\n- " + a + "\n- " + b)
         == h + " " + w + "\n- " + a + "\n- " + b
  {
    BoldHead(h, w);
    var p := "**" + h + "** " + w;
    assert p[|p| - 1] == w[|w| - 1] && w[|w| - 1] in w;
    BoldTail(p, a, b);
  }

  /** "**h** w" loses its markers. */
  lemma BoldHead(h: string, w: string)
    requires Word(h) && '*' !in w
    ensures RemoveBold("**" + h + "** " + w) == h + " " + w
  {
    var p := "**" + h + "** ";
    BoldWord(h, p);
    RemoveBoldConcat(p, w);
    NoStarNoDoubleStar(w);
    RemoveBoldWithoutDoubleStar(w);
  }

  /** A bold word followed by a space loses its markers and ends in the space. */
  lemma BoldWord(h: string, p: string)
    requires Word(h) && p == "**" + h + "** "
    ensures RemoveBold(p) == h + " " && p[|p| - 1] == ' '
  {
    var q := "**" + h;
    assert p == q + "** ";
    assert q[|q| - 1] == h[|h| - 1] && h[|h| - 1] in h;
    RemoveBoldDropsPair(h);
    NoStarNoDoubleStar(h);
    RemoveBoldWithoutDoubleStar(h);
    RemoveBoldConcat(q, "** ");
    assert RemoveBold("** ") == " ";
  }

  /** Two star-free list items after a text that does not end in a star pass unchanged. */
  lemma BoldTail(p: string, a: string, b: string)
    requires p == [] || p[|p| - 1] != '*'
    requires a != "" && '*' !in a && '*' !in b
    ensures RemoveBold(p + "\n- " + a + "\n- " + b) == RemoveBold(p) + "\n- " + a + "\n- " + b
  {
    NoStarNoDoubleStar("\n- ");
    RemoveBoldWithoutDoubleStar("\n- ");
    NoStarNoDoubleStar(a);
    RemoveBoldWithoutDoubleStar(a);
    NoStarNoDoubleStar(b);
    RemoveBoldWithoutDoubleStar(b);
    RemoveBoldConcat(p, "\n- ");
    RemoveBoldConcat(p + "\n- ", a);
    assert a[|a| - 1] in a;
    RemoveBoldConcat(p + "\n- " + a, "\n- ");
    RemoveBoldConcat(p + "\n- " + a + "\n- ", b);
  }

  /** A leading "**" is dropped. */
  lemma RemoveBoldDropsPair(x: string)
    ensures RemoveBold("**" + x) == RemoveBold(x)
  {
    assert ("**" + x)[2..] == x;
  }

  /** The lines of the bold-and-list text. */
  lemma LinesOfList(h: string, w: string, a: string, b: string)
    ensures Join("\n", [h + " " + w, "- " + a, "- " + b]) == h + " " + w + "\n- " + a + "\n- " + b
  {
    JoinFromThree("\n", h + " " + w, "- " + a, "- " + b);
    ConcatAssoc(h + " " + w + "\n", "- ", a);
    ConcatAssoc(h + " " + w + "\n- " + a + "\n", "- ", b);
    ConcatAssoc(h + " " + w, "\n", "- ");
    ConcatAssoc(h + " " + w + "\n- " + a, "\n", "- ");
  }

  /** The bold-and-list text holds no backtick. */
  lemma ListWithoutBacktick(h: string, w: string, a: string, b: string)
    requires Word(h) && Word(w) && AllPlain(a) && AllPlain(b)
    ensures RemoveBackticks(h + " " + w + "\n- " + a + "\n- " + b) == h + " " + w + "\n- " + a + "\n- " + b
  {
    RemoveBackticksWithoutBacktick(h + " " + w + "\n- " + a + "\n- " + b);
  }

  /**
   * "a *`* b" for words a and b: the "**" pass finds no pair and the
   * backtick pass then makes one, so the text cleans to "a ** b". With a, b
   * set to "a", "b" this is the input "a *`* b".
   */
  lemma BacktickMakesDoubleStar(a: string, b: string)
    requires Word(a) && Word(b)
    ensures Cleaned(a + " *`* " + b) == a + " ** " + b
  {
    BacktickBoldPass(a, b);
    BacktickTickPass(a, b);
    BacktickLine(a, b);
    CleanedOneLine(a + " *`* " + b, a + " ** " + b);
  }

  /** A text whose two passes leave one line that the loop keeps as it is cleans to that line. */
  lemma CleanedOneLine(text: string, u: string)
    requires RemoveBackticks(RemoveBold(text)) == u
    requires NoLineBreak(u) && CleanLine(u) == u && u != "" && NoSpaceRun(u) && Stripped(u)
    ensures Cleaned(text) == u
  {
    OneLineKept(u);
    assert Join(" ", [u]) == u;
    CollapseWithoutSpaceRun(u);
    StrippedIsFixed(u);
  }

  /**
   * An inner run of whitespace between two words becomes one space when it
   * is two or more characters long; a single whitespace character stays.
   */
  lemma CleanedInnerRun(a: string, w: string, b: string)
    requires Word(a) && Word(b) && w != "" && AllSpace(w) && NoLineBreak(w)
    ensures Cleaned(a + w + b) == a + (if |w| >= 2 then " " else w) + b
  {
    var u := a + w + b;
    var v := a + (if |w| >= 2 then " " else w) + b;
    InnerRunPasses(a, w, b);
    InnerRunLine(a, w, b);
    InnerRunCollapse(a, w, b);
    WordsAroundStripped(a, if |w| >= 2 then " " else w, b);
    CleanedOneCollapsedLine(u, u, v);
  }

  /** "Hi  there" cleans to "Hi there": the double space becomes one. */
  lemma InnerRunExample()
    ensures Cleaned("Hi  there") == "Hi there"
  {
    ListWords();
    DoubleSpace();
    InnerRunExampleText();
    CleanedInnerRun("Hi", "  ", "there");
  }

  lemma DoubleSpace()
    ensures AllSpace("  ") && NoLineBreak("  ") && |"  "| == 2
  {
  }

  lemma InnerRunExampleText()
    ensures "Hi  there" == "Hi" + "  " + "there" && "Hi there" == "Hi" + " " + "there"
  {
  }

  /** Neither pass touches two words around whitespace. */
  lemma InnerRunPasses(a: string, w: string, b: string)
    requires Word(a) && Word(b) && AllSpace(w)
    ensures RemoveBackticks(RemoveBold(a + w + b)) == a + w + b
  {
    var u := a + w + b;
    assert forall i :: 0 <= i < |u| ==> u[i] != '*' && u[i] != '`' by {
      forall i | 0 <= i < |u| ensures u[i] != '*' && u[i] != '`' {
        if i < |a| { assert u[i] == a[i] && a[i] in a; }
        else if i < |a| + |w| { assert u[i] == w[i - |a|]; }
        else { assert u[i] == b[i - |a| - |w|] && b[i - |a| - |w|] in b; }
      }
    }
    NoStarNoDoubleStar(u);
    RemoveBoldWithoutDoubleStar(u);
    RemoveBackticksWithoutBacktick(u);
  }

  /** Two words around whitespace without a line break are one line the loop keeps as it is. */
  lemma InnerRunLine(a: string, w: string, b: string)
    requires Word(a) && Word(b) && AllSpace(w) && NoLineBreak(w)
    ensures NoLineBreak(a + w + b) && CleanLine(a + w + b) == a + w + b && a + w + b != ""
  {
    var u := a + w + b;
    WordsAroundStripped(a, w, b);
    forall i | 0 <= i < |u| ensures !IsLineBreak(u[i]) {
      if i < |a| { assert u[i] == a[i] && a[i] in a; }
      else if i < |a| + |w| { assert u[i] == w[i - |a|]; }
      else { assert u[i] == b[i - |a| - |w|] && b[i - |a| - |w|] in b; }
    }
    StrippedIsFixed(u);
    assert ListPrefixEnd(u, 0) == 0;
  }

  /** Words around any middle: stripped, and no list-prefix character first. */
  lemma WordsAroundStripped(a: string, m: string, b: string)
    requires Word(a) && Word(b)
    ensures Stripped(a + m + b) && !IsListPrefixChar((a + m + b)[0])
  {
    var u := a + m + b;
    assert u[0] == a[0] && a[0] in a;
    assert u[|u| - 1] == b[|b| - 1] && b[|b| - 1] in b;
  }

  /** The collapse turns the middle run into one space or keeps a lone character. */
  lemma InnerRunCollapse(a: string, w: string, b: string)
    requires Word(a) && Word(b) && w != "" && AllSpace(w)
    ensures CollapseSpaces(a + w + b) == a + (if |w| >= 2 then " " else w) + b
  {
    WordIsDisplayLine(a);
    WordIsDisplayLine(b);
    assert a[|a| - 1] in a && b[0] in b;
    ConcatAssoc(a, w, b);
    CollapseSpacesConcat(a, w + b);
    CollapseSpacesAfterRun(w, b);
    CollapseSpacesOfRun(w);
    CollapseWithoutSpaceRun(a);
    CollapseWithoutSpaceRun(b);
    ConcatAssoc(a, if |w| >= 2 then " " else w, b);
  }

  /**
   * A text whose two passes leave one line that the loop keeps as it is
   * cleans to that line collapsed, when the collapse leaves it stripped.
   */
  lemma CleanedOneCollapsedLine(text: string, u: string, v: string)
    requires RemoveBackticks(RemoveBold(text)) == u
    requires NoLineBreak(u) && CleanLine(u) == u && u != ""
    requires CollapseSpaces(u) == v && Stripped(v)
    ensures Cleaned(text) == v
  {
    OneLineKept(u);
    assert Join(" ", [u]) == u;
    StrippedIsFixed(v);
  }

  /** A line without line breaks that cleaning keeps as it is is the only line the loop keeps. */
  lemma OneLineKept(u: string)
    requires NoLineBreak(u) && CleanLine(u) == u && u != ""
    ensures KeptLines(SplitLines(u)) == [u]
  {
    assert SplitLines(u) == [u] by {
      LineEndWithoutBreak(u);
    }
    assert CleanAll([u]) == [u];
    assert NonEmpty([u]) == NonEmpty([]) + [u];
  }

  /** Cleaning "a *`* b" a second time changes it: `clean_visible` is not idempotent. */
  lemma BacktickTextNotIdempotent(a: string, b: string)
    requires Word(a) && Word(b)
    ensures Cleaned(Cleaned(a + " *`* " + b)) != Cleaned(a + " *`* " + b)
  {
    var u := a + " ** " + b;
    BacktickMakesDoubleStar(a, b);
    assert !NoDoubleStar(u) by {
      assert u[|a| + 1] == '*' && u[|a| + 2] == '*';
    }
    NotIdempotentWhenStarsRemain(a + " *`* " + b);
  }

  /** The bold-and-list reply cleans to its words on one line. */
  lemma ListExample()
    ensures Cleaned("**Hi** there\n- item one\n- item two") == "Hi there item one item two"
  {
    ExampleWords();
    ExampleItem("item one");
    ExampleItem("item two");
    ListExampleText();
    ListExampleResult();
    BoldWordAndListItems("Hi", "there", "item one", "item two");
  }

  /** "a *`* b" cleans to "a ** b", and cleaning that again changes it. */
  lemma BacktickExample()
    ensures Cleaned("a *`* b") == "a ** b"
    ensures Cleaned(Cleaned("a *`* b")) != Cleaned("a *`* b")
  {
    ExampleWords();
    BacktickExampleText();
    BacktickMakesDoubleStar("a", "b");
    BacktickTextNotIdempotent("a", "b");
  }

  lemma ExampleWords()
    ensures Word("Hi") && Word("there") && Word("a") && Word("b")
  {
    ListWords();
    assert forall c :: c in "a" ==> c == 'a';
    assert forall c :: c in "b" ==> c == 'b';
  }

  lemma ListWords()
    ensures Word("Hi") && Word("there")
  {
    assert forall c :: c in "Hi" ==> c == 'H' || c == 'i';
    assert forall c :: c in "there" ==> c == 't' || c == 'h' || c == 'e' || c == 'r';
  }

  lemma ExampleItem(a: string)
    requires a == "item one" || a == "item two"
    ensures a != "" && DisplayLine(a) && '*' !in a
  {
    assert forall i :: 0 <= i < |a| ==>
      a[i] != '*' && a[i] != '`' && !IsLineBreak(a[i]) && (i != 4 ==> !IsSpace(a[i]));
  }

  lemma ListExampleText()
    ensures "**Hi** there\n- item one\n- item two" ==
      "**" + "Hi" + "** " + "there" + "\n- " + "item one" + "\n- " + "item two"
  {
  }

  lemma ListExampleResult()
    ensures "Hi there item one item two" == "Hi" + " " + "there" + " " + "item one" + " " + "item two"
  {
  }

  lemma BacktickExampleText()
    ensures "a *`* b" == "a" + " *`* " + "b" && "a ** b" == "a" + " ** " + "b"
  {
  }

  /** The "**" pass keeps "a *`* b": no two stars are adjacent in it. */
  lemma BacktickBoldPass(a: string, b: string)
    requires '*' !in a && '*' !in b
    ensures RemoveBold(a + " *`* " + b) == a + " *`* " + b
  {
    NoStarNoDoubleStar(a);
    NoStarNoDoubleStar(b);
    assert NoDoubleStar(" *`* ");
    NoDoubleStarConcat(a, " *`* ");
    NoDoubleStarConcat(a + " *`* ", b);
    RemoveBoldWithoutDoubleStar(a + " *`* " + b);
  }

  /** The backtick pass then joins the two stars of "a *`* b". */
  lemma BacktickTickPass(a: string, b: string)
    requires '`' !in a && '`' !in b
    ensures RemoveBackticks(a + " *`* " + b) == a + " ** " + b
  {
    RemoveBackticksConcat(a, " *`* ");
    RemoveBackticksConcat(a + " *`* ", b);
    RemoveBackticksWithoutBacktick(a);
    RemoveBackticksWithoutBacktick(b);
    assert RemoveBackticks(" *`* ") == " ** ";
  }

  /** Two texts without "**" keep that when no pair forms where they meet. */
  lemma NoDoubleStarConcat(x: string, y: string)
    requires NoDoubleStar(x) && NoDoubleStar(y)
    requires x == [] || y == [] || x[|x| - 1] != '*' || y[0] != '*'
    ensures NoDoubleStar(x + y)
  {
    var j := x + y;
    forall i | 0 < i < |j| ensures !(j[i - 1] == '*' && j[i] == '*') {
      if i < |x| {
        assert j[i - 1] == x[i - 1] && j[i] == x[i];
      } else if i == |x| {
        assert j[i - 1] == x[|x| - 1] && j[i] == y[0];
      } else {
        assert j[i - 1] == y[i - 1 - |x|] && j[i] == y[i - |x|];
      }
    }
  }

  /** "a ** b" is one line that the loop keeps as it is. */
  lemma BacktickLine(a: string, b: string)
    requires Word(a) && Word(b)
    ensures NoLineBreak(a + " ** " + b) && CleanLine(a + " ** " + b) == a + " ** " + b
    ensures NoSpaceRun(a + " ** " + b) && Stripped(a + " ** " + b)
  {
    BacktickLineSpaces(a, b);
    BacktickLinePlain(a, b);
    CleanLineFixesDisplayLine(a + " ** " + b);
  }

  /** "a ** b" has no whitespace run, no outer whitespace and starts with a word character. */
  lemma BacktickLineSpaces(a: string, b: string)
    requires Word(a) && Word(b)
    ensures NoSpaceRun(a + " ** " + b) && Stripped(a + " ** " + b)
    ensures !IsListPrefixChar((a + " ** " + b)[0])
  {
    var u := a + " ** " + b;
    WordIsDisplayLine(a);
    WordIsDisplayLine(b);
    assert a[0] in a && a[|a| - 1] in a && b[0] in b;
    assert NoSpaceRun(" ** ");
    NoSpaceRunConcat(a, " ** ");
    NoSpaceRunConcat(a + " ** ", b);
    assert u[0] == a[0] && u[|u| - 1] == b[|b| - 1] && b[|b| - 1] in b;
  }

  /** "a ** b" holds no line break and no backtick. */
  lemma BacktickLinePlain(a: string, b: string)
    requires Word(a) && Word(b)
    ensures AllPlain(a + " ** " + b)
  {
    forall c | c in a + " ** " + b ensures Plain(c) {
      assert c in a || c in " ** " || c in b;
    }
  }

  /** Two texts without whitespace runs keep that when no run forms where they meet. */
  lemma NoSpaceRunConcat(x: string, y: string)
    requires NoSpaceRun(x) && NoSpaceRun(y)
    requires x == [] || y == [] || !IsSpace(x[|x| - 1]) || !IsSpace(y[0])
    ensures NoSpaceRun(x + y)
  {
    var j := x + y;
    forall i | 0 < i < |j| ensures !(IsSpace(j[i - 1]) && IsSpace(j[i])) {
      if i < |x| {
        assert j[i - 1] == x[i - 1] && j[i] == x[i];
      } else if i == |x| {
        assert j[i - 1] == x[|x| - 1] && j[i] == y[0];
      } else {
        assert j[i - 1] == y[i - 1 - |x|] && j[i] == y[i - |x|];
      }
    }
  }

  /** Two words joined by one space form a display line without "**". */
  lemma DisplayPair(a: string, b: string)
    requires Word(a) && Word(b)
    ensures DisplayLine(a + " " + b) && NoDoubleStar(a + " " + b)
  {
    WordIsDisplayLine(a);
    WordIsDisplayLine(b);
    JoinTwoDisplayLines(a, b);
    JoinKeepsNoDoubleStar(" ", [a, b]);
    assert Join(" ", [a, b]) == a + " " + b;
  }

  /** A "- " list item whose text is a display line cleans to that text. */
  lemma DashedLine(t: string)
    requires t != "" && DisplayLine(t)
    ensures NoLineBreak("- " + t) && CleanLine("- " + t) == t && NoSpaceRun(t)
  {
    DashedLineBreaks(t);
    DashedLineCleans(t);
  }

  lemma DashedLineBreaks(t: string)
    requires AllPlain(t)
    ensures NoLineBreak("- " + t)
  {
    var line := "- " + t;
    forall i | 0 <= i < |line| ensures !IsLineBreak(line[i]) {
      if i >= 2 {
        assert line[i] == t[i - 2] && t[i - 2] in t;
      }
    }
  }

  lemma DashedLineCleans(t: string)
    requires t != "" && Stripped(t) && !IsListPrefixChar(t[0])
    ensures CleanLine("- " + t) == t
  {
    var line := "- " + t;
    assert line[0] == '-' && line[1] == ' ' && line[2] == t[0] && line[2..] == t;
    assert Stripped(line) by {
      assert line[|line| - 1] == t[|t| - 1];
    }
    StrippedIsFixed(line);
    assert ListPrefixEnd(line, 0) == 2;
  }

  lemma NoStarNoDoubleStar(s: string)
    requires '*' !in s
    ensures NoDoubleStar(s)
  {
    forall i | 0 < i < |s| ensures s[i] != '*' {
      assert s[i] in s;
    }
  }

  lemma JoinFromThree(sep: string, a: string, b: string, c: string)
    ensures Join(sep, [a, b, c]) == a + sep + b + sep + c
  {
    JoinCons(sep, a, [b, c]);
    assert [a, b, c] == [a] + [b, c];
    JoinCons(sep, b, [c]);
    assert [b, c] == [b] + [c];
  }

  /** `clean_visible`, with its loop over the lines. */
  method CleanVisible(text: string) returns (t: string)
    ensures t == Cleaned(text)
    ensures DisplayLine(t) && '`' !in t && NoLineBreak(t)
  {
    t := RemoveBold(text);
    t := RemoveBackticks(t);
    var src := SplitLines(t);
    var lines: seq<string> := [];
    for i := 0 to |src|
      invariant lines == KeptLines(src[..i])
    {
      KeptLinesStep(src, i);
      var line := Strip(src[i]);
      line := StripListPrefix(line);
      if line != "" {
        lines := lines + [line];
      }
    }
    assert src[..|src|] == src;
    t := Join(" ", lines);
    t := Strip(CollapseSpaces(t));
    CleanedShape(text);
  }
}
