/**
 * The parts of Python 3's `str` that the memory pipeline relies on:
 * the whitespace class, strip(), find() and `in`, splitlines() and join().
 *
 * Characters are Unicode scalar values. Python's code points agree with
 * them, so `len` is `|s|` and indexing agrees, except that a Python `str`
 * can also hold lone surrogates (U+D800-DFFF), which a Dafny `char` cannot.
 */
module Text {

  /** `str.isspace()`; the same set is the `\s` class of `re` on str patterns. */
  predicate IsSpace(c: char) {
    var n := c as int;
    (0x09 <= n <= 0x0D) || (0x1C <= n <= 0x20) || n == 0x85 || n == 0xA0 || n == 0x1680
    || (0x2000 <= n <= 0x200A) || n == 0x2028 || n == 0x2029 || n == 0x202F
    || n == 0x205F || n == 0x3000
  }

  /** The line boundaries of `str.splitlines()` ("\r\n" counts as one boundary). */
  predicate IsLineBreak(c: char) {
    var n := c as int;
    (0x0A <= n <= 0x0D) || (0x1C <= n <= 0x1E) || n == 0x85 || n == 0x2028 || n == 0x2029
  }

  predicate AllSpace(s: string) {
    forall i :: 0 <= i < |s| ==> IsSpace(s[i])
  }

  predicate NoLineBreak(s: string) {
    forall i :: 0 <= i < |s| ==> !IsLineBreak(s[i])
  }

  /** No leading and no trailing whitespace: the shape `strip()` leaves. */
  predicate Stripped(s: string) {
    s == [] || (!IsSpace(s[0]) && !IsSpace(s[|s| - 1]))
  }

  /** The first index at or after `i` that holds no whitespace, or `|s|`. */
  function SkipSpace(s: string, i: nat): (k: nat)
    requires i <= |s|
    ensures i <= k <= |s|
    ensures forall j :: i <= j < k ==> IsSpace(s[j])
    ensures k < |s| ==> !IsSpace(s[k])
    decreases |s| - i
  {
    if i < |s| && IsSpace(s[i]) then SkipSpace(s, i + 1) else i
  }

  /** The end of `s[a..j]` once its trailing whitespace is dropped. */
  function TrimEnd(s: string, a: nat, j: nat): (k: nat)
    requires a <= j <= |s|
    ensures a <= k <= j
    ensures forall m :: k <= m < j ==> IsSpace(s[m])
    ensures k > a ==> !IsSpace(s[k - 1])
    decreases j
  {
    if j > a && IsSpace(s[j - 1]) then TrimEnd(s, a, j - 1) else j
  }

  /** How much leading whitespace `strip()` removes from `s`. */
  function StripStart(s: string): (i: nat)
    ensures i <= |s|
  {
    SkipSpace(s, 0)
  }

  /**
   * `s.strip()`: the infix of `s` that starts at its first and ends at its
   * last non-whitespace character; empty exactly when `s` is all whitespace.
   */
  function Strip(s: string): (r: string)
    ensures Stripped(r)
    ensures StripStart(s) + |r| <= |s| && r == s[StripStart(s)..StripStart(s) + |r|]
    ensures AllSpace(s[..StripStart(s)]) && AllSpace(s[StripStart(s) + |r|..])
    ensures r == [] <==> AllSpace(s)
  {
    var a := StripStart(s);
    var b := TrimEnd(s, a, |s|);
    StripBounds(s, a, b);
    s[a..b]
  }

  lemma StripBounds(s: string, a: nat, b: nat)
    requires a <= b <= |s|
    requires forall j :: 0 <= j < a ==> IsSpace(s[j])
    requires a < |s| ==> !IsSpace(s[a])
    requires forall m :: b <= m < |s| ==> IsSpace(s[m])
    requires b > a ==> !IsSpace(s[b - 1])
    ensures Stripped(s[a..b])
    ensures AllSpace(s[..a]) && AllSpace(s[b..])
    ensures s[a..b] == [] <==> AllSpace(s)
  {
    if a < |s| {
      assert !IsSpace(s[a]);
      assert b > a;
      assert !AllSpace(s);
    }
    assert AllSpace(s[..a]) by {
      forall j | 0 <= j < a ensures IsSpace(s[..a][j]) { assert s[..a][j] == s[j]; }
    }
    assert AllSpace(s[b..]) by {
      forall j | 0 <= j < |s| - b ensures IsSpace(s[b..][j]) { assert s[b..][j] == s[b + j]; }
    }
  }

  /** Stripping text with no whitespace at either end leaves it as it is. */
  lemma StrippedIsFixed(s: string)
    requires Stripped(s)
    ensures Strip(s) == s
  {
    assert StripStart(s) == 0;
    assert TrimEnd(s, 0, |s|) == |s|;
    assert s[0..|s|] == s;
  }

  /** Stripping text that starts with a non-blank-ended pattern keeps the pattern. */
  lemma StripKeepsPrefix(t: string, p: string)
    requires 0 < |p| <= |t| && t[..|p|] == p
    requires !IsSpace(p[0]) && !IsSpace(p[|p| - 1])
    ensures |p| <= |Strip(t)| && Strip(t)[..|p|] == p
  {
    assert t[0] == p[0] && t[|p| - 1] == p[|p| - 1];
    assert StripStart(t) == 0;
    var b := TrimEnd(t, 0, |t|);
    assert !IsSpace(t[|p| - 1]);
    assert b >= |p|;
    assert Strip(t) == t[0..b];
  }

  /** The pattern `p` occurs in `s` starting at index `k`. */
  predicate OccursAt(s: string, p: string, k: int) {
    0 <= k && k + |p| <= |s| && s[k..k + |p|] == p
  }

  /** `s.find(p, k)`: the first index at or after `k` where `p` occurs, or -1. */
  function FindFrom(s: string, p: string, k: nat): (r: int)
    ensures r == -1 || (k <= r && OccursAt(s, p, r))
    ensures forall j :: k <= j && (r == -1 || j < r) ==> !OccursAt(s, p, j)
    decreases |s| - k
  {
    if k + |p| > |s| then -1
    else if s[k..k + |p|] == p then k
    else FindFrom(s, p, k + 1)
  }

  /** `s.find(p)`: the first index where `p` occurs, or -1. */
  function Find(s: string, p: string): (r: int)
    ensures r == -1 || OccursAt(s, p, r)
    ensures forall j :: 0 <= j && (r == -1 || j < r) ==> !OccursAt(s, p, j)
  {
    FindFrom(s, p, 0)
  }

  /** `p in s`. */
  predicate Contains(s: string, p: string) {
    Find(s, p) != -1
  }

  /** `p in s` holds exactly when `p` occurs in `s` at some index. */
  lemma ContainsIffOccurs(s: string, p: string)
    ensures Contains(s, p) <==> exists j :: OccursAt(s, p, j)
  {
    if Contains(s, p) {
      assert OccursAt(s, p, Find(s, p));
    }
  }

  /** An occurrence of `p` inside the infix `t` of `s` is an occurrence in `s`. */
  lemma OccursAtShift(s: string, t: string, a: int, p: string, j: int)
    requires OccursAt(s, t, a) && OccursAt(t, p, j)
    ensures OccursAt(s, p, a + j)
  {
    assert t == s[a..a + |t|];
    forall m | 0 <= m < |p| ensures s[a + j + m] == p[m] {
      assert p[m] == t[j + m];
    }
    assert s[a + j..a + j + |p|] == p;
  }

  /** The index of the first line boundary of `s`, or `|s|` if there is none. */
  function LineEnd(s: string): (i: nat)
    ensures i <= |s|
    ensures i < |s| ==> IsLineBreak(s[i])
    ensures NoLineBreak(s[..i])
  {
    if s == [] || IsLineBreak(s[0]) then 0 else 1 + LineEnd(s[1..])
  }

  /** How many characters the boundary at `i` takes: two for "\r\n", else one. */
  function BreakWidth(s: string, i: nat): nat
    requires i < |s|
  {
    if s[i] == '\r' && i + 1 < |s| && s[i + 1] == '\n' then 2 else 1
  }

  /**
   * `s.splitlines()`: the pieces between line boundaries, boundaries dropped;
   * a trailing boundary does not start an extra empty line.
   */
  function SplitLines(s: string): (lines: seq<string>)
    ensures forall k :: 0 <= k < |lines| ==> NoLineBreak(lines[k])
    ensures lines == [] <==> s == []
    decreases |s|
  {
    if s == [] then []
    else
      var i := LineEnd(s);
      if i == |s| then [s]
      else [s[..i]] + SplitLines(s[i + BreakWidth(s, i)..])
  }

  /** `sep.join(parts)`. */
  function Join(sep: string, parts: seq<string>): string {
    if parts == [] then ""
    else if |parts| == 1 then parts[0]
    else parts[0] + sep + Join(sep, parts[1..])
  }

  /** A text without a line boundary is its own only line, found at 0. */
  lemma WholeLineOccurs(s: string, k: nat)
    requires LineEnd(s) == |s| && k < |SplitLines(s)|
    ensures OccursAt(s, SplitLines(s)[k], 0)
  {
    assert SplitLines(s) == [s];
    assert OccursAt(s, s, 0);
  }

  /** A pattern found after position `j` of `s` is found in `s`. */
  lemma SuffixOccurrence(s: string, t: string, j: nat, p: string, b: int, a: int)
    requires j <= |s| && t == s[j..] && OccursAt(t, p, b) && a == j + b
    ensures OccursAt(s, p, a)
  {
    SuffixOccurs(s, j);
    OccursAtShift(s, s[j..], j, p, b);
  }

  /** Line `k > 0` of `s` is line `k - 1` of the text after the first boundary. */
  lemma SplitLinesLater(s: string, i: nat, w: nat, k: nat)
    requires i == LineEnd(s) && i < |s| && w == BreakWidth(s, i)
    requires 0 < k < |SplitLines(s)|
    ensures k - 1 < |SplitLines(s[i + w..])| && SplitLines(s)[k] == SplitLines(s[i + w..])[k - 1]
  {
    SplitLinesCons(s, i, w);
  }

  /** The lines after the first are the lines of the text after the first boundary. */
  lemma SplitLinesCons(s: string, i: nat, w: nat)
    requires i == LineEnd(s) && i < |s| && w == BreakWidth(s, i)
    ensures |SplitLines(s)| == 1 + |SplitLines(s[i + w..])| && SplitLines(s)[0] == s[..i]
    ensures forall k :: 1 <= k < |SplitLines(s)| ==> SplitLines(s)[k] == SplitLines(s[i + w..])[k - 1]
  {
    SplitLinesUnfold(s, i, w);
    ConsIndex(SplitLines(s), s[..i], SplitLines(s[i + w..]));
  }

  lemma ConsIndex<T>(l: seq<T>, x: T, r: seq<T>)
    requires l == [x] + r
    ensures |l| == 1 + |r| && l[0] == x
    ensures forall k :: 1 <= k < |l| ==> l[k] == r[k - 1]
  {
  }

  /** Every line `splitlines()` returns is an infix of the text it split. */
  lemma LinesOccurInText(s: string, k: nat)
    requires k < |SplitLines(s)|
    ensures exists a :: OccursAt(s, SplitLines(s)[k], a)
  {
    var a := LineAt(s, k);
  }

  /** An offset at which line `k` of `s` occurs in `s`. */
  lemma {:induction false} LineAt(s: string, k: nat) returns (a: nat)
    requires k < |SplitLines(s)|
    ensures OccursAt(s, SplitLines(s)[k], a)
    decreases |s|, 1
  {
    var i := LineEnd(s);
    if i == |s| {
      WholeLineOccurs(s, k);
      a := 0;
    } else if k == 0 {
      FirstLineOccurs(s, i, BreakWidth(s, i));
      a := 0;
    } else {
      var w := BreakWidth(s, i);
      SplitLinesLater(s, i, w, k);
      a := LaterLineAt(s, s[i + w..], i + w, k - 1, SplitLines(s)[k]);
    }
  }

  lemma FirstLineOccurs(s: string, i: nat, w: nat)
    requires i == LineEnd(s) && i < |s| && w == BreakWidth(s, i)
    ensures OccursAt(s, SplitLines(s)[0], 0)
  {
    SplitLinesCons(s, i, w);
    assert OccursAt(s, s[..i], 0);
  }

  /** The step of `LineAt` for a line `p` of the rest `t` of `s` after `j`. */
  lemma {:induction false} LaterLineAt(s: string, t: string, j: nat, k: nat, p: string) returns (a: nat)
    requires 0 < j <= |s| && t == s[j..]
    requires k < |SplitLines(t)| && p == SplitLines(t)[k]
    ensures OccursAt(s, p, a)
    decreases |s|, 0
  {
    var b := LineAt(t, k);
    a := j + b;
    SuffixOccurrence(s, t, j, p, b, a);
  }

  lemma SuffixOccurs(s: string, j: nat)
    requires j <= |s|
    ensures OccursAt(s, s[j..], j)
  {
  }

  /** A pattern found in some line of `s` is found in `s`. */
  lemma LineContainsOnlyWhatTextContains(s: string, k: nat, p: string)
    requires k < |SplitLines(s)|
    requires Contains(SplitLines(s)[k], p)
    ensures Contains(s, p)
  {
    var line := SplitLines(s)[k];
    LinesOccurInText(s, k);
    var a :| OccursAt(s, line, a);
    var j := Find(line, p);
    OccursAtShift(s, line, a, p, j);
  }

  lemma JoinCons(sep: string, x: string, rest: seq<string>)
    requires rest != []
    ensures Join(sep, [x] + rest) == x + sep + Join(sep, rest)
  {
    assert ([x] + rest)[1..] == rest;
  }

  lemma AllSpaceConcat(a: string, b: string)
    ensures AllSpace(a + b) <==> AllSpace(a) && AllSpace(b)
  {
    if AllSpace(a) && AllSpace(b) {
      forall k | 0 <= k < |a + b| ensures IsSpace((a + b)[k]) {
        if k >= |a| { assert (a + b)[k] == b[k - |a|]; }
      }
    }
    if AllSpace(a + b) {
      forall k | 0 <= k < |a| ensures IsSpace(a[k]) {
        assert a[k] == (a + b)[k];
      }
      forall k | 0 <= k < |b| ensures IsSpace(b[k]) {
        assert b[k] == (a + b)[|a| + k];
      }
    }
  }

  /**
   * Rejoining the lines of `s` with "\n" gives all-whitespace text exactly
   * when `s` is all whitespace (every boundary is whitespace).
   */
  lemma {:induction false} JoinedLinesAllSpace(s: string)
    ensures AllSpace(Join("\n", SplitLines(s))) <==> AllSpace(s)
    decreases |s|
  {
    if s != [] {
      var i := LineEnd(s);
      if i < |s| {
        var w := BreakWidth(s, i);
        JoinedLinesAllSpace(s[i + w..]);
        SpaceAroundBreak(s, i, w);
        JoinAfterBreak(s, i, w);
      } else {
        assert SplitLines(s) == [s];
      }
    }
  }

  /** A text is all whitespace when its first line and what follows the first boundary are. */
  lemma SpaceAroundBreak(s: string, i: nat, w: nat)
    requires i == LineEnd(s) && i < |s| && w == BreakWidth(s, i)
    ensures i + w <= |s|
    ensures AllSpace(s) <==> AllSpace(s[..i]) && AllSpace(s[i + w..])
  {
    BreakIsSpace(s, i, w);
    SplitThree(s, i, i + w);
    AllSpaceAround(s, s[..i], s[i..i + w], s[i + w..]);
  }

  lemma SplitThree(s: string, i: nat, j: nat)
    requires i <= j <= |s|
    ensures s == s[..i] + s[i..j] + s[j..]
  {
  }

  /** A line boundary is whitespace. */
  lemma BreakIsSpace(s: string, i: nat, w: nat)
    requires i < |s| && IsLineBreak(s[i]) && w == BreakWidth(s, i)
    ensures i + w <= |s| && AllSpace(s[i..i + w])
  {
    assert IsSpace(s[i]);
    if w == 2 {
      assert IsSpace(s[i + 1]);
    }
  }

  /** Around an all-whitespace middle, the whole is all whitespace when both ends are. */
  lemma AllSpaceAround(s: string, a: string, b: string, c: string)
    requires s == a + b + c && AllSpace(b)
    ensures AllSpace(s) <==> AllSpace(a) && AllSpace(c)
  {
    AllSpaceConcat(a, b);
    AllSpaceConcat(a + b, c);
  }

  /** The same for the "\n"-join of the lines. */
  lemma JoinAfterBreak(s: string, i: nat, w: nat)
    requires i == LineEnd(s) && i < |s| && w == BreakWidth(s, i)
    ensures AllSpace(Join("\n", SplitLines(s))) <==>
      AllSpace(s[..i]) && AllSpace(Join("\n", SplitLines(s[i + w..])))
  {
    SplitLinesUnfold(s, i, w);
    var later := SplitLines(s[i + w..]);
    if later == [] {
      assert Join("\n", [s[..i]] + later) == s[..i];
    } else {
      JoinCons("\n", s[..i], later);
      AllSpaceConcat(s[..i], "\n");
      AllSpaceConcat(s[..i] + "\n", Join("\n", later));
    }
  }

  /** Text without a line boundary is a single line up to its end. */
  lemma {:induction false} LineEndWithoutBreak(s: string)
    requires NoLineBreak(s)
    ensures LineEnd(s) == |s|
  {
    if s != [] {
      LineEndWithoutBreak(s[1..]);
    }
  }

  /** In `a + "\n" + c` with no boundary in `a`, the first line ends at `|a|`. */
  lemma {:induction false} LineEndBeforeNewline(a: string, c: string)
    requires NoLineBreak(a)
    ensures LineEnd(a + "\n" + c) == |a|
    decreases |a|
  {
    if a != [] {
      assert (a + "\n" + c)[1..] == a[1..] + "\n" + c;
      LineEndBeforeNewline(a[1..], c);
    }
  }

  /**
   * `splitlines()` undoes `"\n".join(lines)` when no line holds a boundary
   * and the last line is not empty (a trailing "\n" starts no extra line).
   */
  lemma {:induction false} SplitLinesOfJoin(lines: seq<string>)
    requires forall k :: 0 <= k < |lines| ==> NoLineBreak(lines[k])
    requires lines != [] ==> lines[|lines| - 1] != ""
    ensures SplitLines(Join("\n", lines)) == lines
    decreases |lines|
  {
    if |lines| == 1 {
      LineEndWithoutBreak(lines[0]);
    } else if |lines| > 1 {
      var first := lines[0];
      var rest := Join("\n", lines[1..]);
      var s := first + "\n" + rest;
      LineEndBeforeNewline(first, rest);
      assert s[..|first|] == first;
      assert s[|first| + 1..] == rest;
      SplitLinesOfJoin(lines[1..]);
      assert [first] + lines[1..] == lines;
    }
  }

  /**
   * `lines` are the consecutive pieces of `s`: the first piece is a prefix of
   * `s` followed by the end of `s` or by one boundary (two characters for
   * "\r\n"), and the other pieces are those of what follows that boundary.
   * A boundary at the very end starts no further piece.
   */
  predicate Pieces(s: string, lines: seq<string>)
    decreases |lines|
  {
    if lines == [] then s == []
    else
      var n := |lines[0]|;
      s != [] && n <= |s| && s[..n] == lines[0] &&
      ((n == |s| && |lines| == 1) ||
       (n < |s| && IsLineBreak(s[n]) && Pieces(s[n + BreakWidth(s, n)..], lines[1..])))
  }

  /**
   * `splitlines()` is characterised by its pieces: a list of lines is what it
   * returns exactly when no line holds a boundary and the lines are the
   * consecutive pieces of the text.
   */
  lemma SplitLinesCharacterized(s: string, lines: seq<string>)
    ensures lines == SplitLines(s) <==>
      Pieces(s, lines) && forall k :: 0 <= k < |lines| ==> NoLineBreak(lines[k])
  {
    SplitLinesPieces(s);
    if Pieces(s, lines) && forall k :: 0 <= k < |lines| ==> NoLineBreak(lines[k]) {
      PiecesAreSplitLines(s, lines);
    }
  }

  /** The lines of `splitlines()` are the pieces of the text. */
  lemma {:induction false} SplitLinesPieces(s: string)
    ensures Pieces(s, SplitLines(s))
    decreases |s|
  {
    if s != [] {
      var i := LineEnd(s);
      if i == |s| {
        assert SplitLines(s) == [s];
        assert s[..|s|] == s;
      } else {
        var w := BreakWidth(s, i);
        SplitLinesPieces(s[i + w..]);
        SplitLinesUnfold(s, i, w);
        PiecesCons(s, s[..i], SplitLines(s[i + w..]));
      }
    }
  }

  /** A first piece ended by a boundary, in front of the pieces after it. */
  lemma PiecesCons(s: string, x: string, r: seq<string>)
    requires |x| < |s| && s[..|x|] == x && IsLineBreak(s[|x|])
    requires Pieces(s[|x| + BreakWidth(s, |x|)..], r)
    ensures Pieces(s, [x] + r)
  {
    assert ([x] + r)[0] == x && ([x] + r)[1..] == r;
  }

  /** Pieces without a boundary inside are the lines of `splitlines()`. */
  lemma {:induction false} PiecesAreSplitLines(s: string, lines: seq<string>)
    requires Pieces(s, lines) && forall k :: 0 <= k < |lines| ==> NoLineBreak(lines[k])
    ensures lines == SplitLines(s)
    decreases |lines|
  {
    if lines != [] {
      var x := lines[0];
      var n := |x|;
      LineEndAt(s, n, x);
      if n == |s| {
        PiecesOneLine(s, lines);
      } else {
        var w := BreakWidth(s, n);
        var r := lines[1..];
        PiecesStep(s, lines, n, w);
        NoLineBreakTail(lines);
        PiecesAreSplitLines(s[n + w..], r);
        SplitLinesUnfold(s, n, w);
      }
    }
  }

  /** A single piece running to the end of `s` is its only line. */
  lemma PiecesOneLine(s: string, lines: seq<string>)
    requires Pieces(s, lines) && lines != [] && |lines[0]| == |s| && LineEnd(s) == |s|
    ensures lines == SplitLines(s)
  {
    assert s != [] && s[..|s|] == s;
    assert lines == [s];
  }

  /** After a first piece ended by a boundary come the pieces of the rest. */
  lemma PiecesStep(s: string, lines: seq<string>, n: nat, w: nat)
    requires Pieces(s, lines) && lines != [] && n == |lines[0]| && n < |s| && w == BreakWidth(s, n)
    ensures lines[0] == s[..n] && IsLineBreak(s[n]) && Pieces(s[n + w..], lines[1..])
    ensures lines == [s[..n]] + lines[1..]
  {
  }

  lemma NoLineBreakTail(lines: seq<string>)
    requires lines != [] && forall k :: 0 <= k < |lines| ==> NoLineBreak(lines[k])
    ensures forall k :: 0 <= k < |lines[1..]| ==> NoLineBreak(lines[1..][k])
  {
    forall k | 0 <= k < |lines[1..]| ensures NoLineBreak(lines[1..][k]) {
      assert lines[1..][k] == lines[k + 1];
    }
  }

  /** A prefix without a boundary, followed by a boundary or the end, is the first line. */
  lemma {:induction false} LineEndAt(s: string, n: nat, x: string)
    requires n <= |s| && s[..n] == x && NoLineBreak(x) && (n == |s| || IsLineBreak(s[n]))
    ensures LineEnd(s) == n
    decreases n
  {
    if n > 0 {
      assert s[0] == x[0];
      assert s[1..][..n - 1] == x[1..];
      LineEndAt(s[1..], n - 1, x[1..]);
    }
  }

  /**
   * A trailing "\n" starts no extra line: `splitlines()` undoes
   * `"\n".join(lines) + "\n"` for lines that hold no boundary.
   */
  lemma {:induction false} SplitLinesOfJoinNewline(lines: seq<string>)
    requires lines != [] && forall k :: 0 <= k < |lines| ==> NoLineBreak(lines[k])
    ensures SplitLines(Join("\n", lines) + "\n") == lines
    decreases |lines|
  {
    var first := lines[0];
    if |lines| == 1 {
      NewlineEndsLine(first, "");
      assert first + "\n" + "" == Join("\n", lines) + "\n";
    } else {
      var rest := Join("\n", lines[1..]) + "\n";
      NoLineBreakTail(lines);
      SplitLinesOfJoinNewline(lines[1..]);
      NewlineEndsLine(first, rest);
      assert Join("\n", lines) + "\n" == first + "\n" + rest;
      assert lines == [first] + lines[1..];
    }
  }

  /** `a + "\n" + c` with no boundary in `a` splits into `a` and the lines of `c`. */
  lemma NewlineEndsLine(a: string, c: string)
    requires NoLineBreak(a)
    ensures SplitLines(a + "\n" + c) == [a] + SplitLines(c)
  {
    var s := a + "\n" + c;
    LineEndBeforeNewline(a, c);
    assert s[..|a|] == a && s[|a|] == '\n';
    assert s[|a| + 1..] == c;
    SplitLinesUnfold(s, |a|, 1);
  }

  /** Every line boundary in `s` is a "\n". */
  predicate NewlineBreaks(s: string) {
    forall i :: 0 <= i < |s| && IsLineBreak(s[i]) ==> s[i] == '\n'
  }

  lemma NewlineBreaksSuffix(s: string, j: nat)
    requires NewlineBreaks(s) && j <= |s|
    ensures NewlineBreaks(s[j..])
  {
    forall i | 0 <= i < |s| - j && IsLineBreak(s[j..][i]) ensures s[j..][i] == '\n' {
      assert s[j..][i] == s[j + i];
    }
  }

  /** One step of `splitlines()`: the first line, then the lines after its boundary. */
  lemma SplitLinesUnfold(s: string, i: nat, w: nat)
    requires i == LineEnd(s) && i < |s| && w == BreakWidth(s, i)
    ensures SplitLines(s) == [s[..i]] + SplitLines(s[i + w..])
  {
  }

  /** `s` is its part before index `i`, the character there, and the rest. */
  lemma SplitAround(s: string, i: nat)
    requires i < |s|
    ensures s == s[..i] + [s[i]] + s[i + 1..]
  {
  }

  /**
   * Conversely, text whose only boundaries are "\n" characters, and which
   * does not end with one, is the "\n"-join of its lines.
   */
  lemma {:induction false} JoinOfSplitLines(s: string)
    requires NewlineBreaks(s)
    requires s == [] || s[|s| - 1] != '\n'
    ensures Join("\n", SplitLines(s)) == s
    decreases |s|
  {
    if s != [] {
      var i := LineEnd(s);
      if i < |s| {
        NewlineStep(s, i);
        JoinOfSplitLines(s[i + 1..]);
        JoinAtNewline(s, i);
      } else {
        assert SplitLines(s) == [s];
      }
    }
  }

  /** After the first "\n" of such a text comes another such text. */
  lemma NewlineStep(s: string, i: nat)
    requires NewlineBreaks(s) && s != [] && s[|s| - 1] != '\n'
    requires i == LineEnd(s) && i < |s|
    ensures s[i] == '\n' && i + 1 < |s|
    ensures NewlineBreaks(s[i + 1..]) && s[i + 1..][|s[i + 1..]| - 1] != '\n'
  {
    assert s[i] == '\n' by {
      assert IsLineBreak(s[i]);
    }
    NewlineBreaksSuffix(s, i + 1);
  }

  /** Joining the first line onto the join of the rest restores the text. */
  lemma JoinAtNewline(s: string, i: nat)
    requires i == LineEnd(s) && i + 1 < |s| && s[i] == '\n'
    requires Join("\n", SplitLines(s[i + 1..])) == s[i + 1..]
    ensures Join("\n", SplitLines(s)) == s
  {
    SplitLinesUnfold(s, i, 1);
    SplitAround(s, i);
    JoinCons("\n", s[..i], SplitLines(s[i + 1..]));
  }

  lemma ConcatAssoc<T>(a: seq<T>, b: seq<T>, c: seq<T>)
    ensures a + (b + c) == (a + b) + c
  {
  }

  /** `s.endswith(b)`. */
  predicate EndsWith(s: string, b: string) {
    |b| <= |s| && s[|s| - |b|..] == b
  }

  /**
   * A join of non-empty parts starts with the first character of its first
   * part and ends with its last part.
   */
  lemma JoinEnds(sep: string, parts: seq<string>)
    requires parts != [] && forall k :: 0 <= k < |parts| ==> parts[k] != []
    ensures Join(sep, parts) != [] && Join(sep, parts)[0] == parts[0][0]
    ensures EndsWith(Join(sep, parts), parts[|parts| - 1])
  {
    if |parts| > 1 {
      assert Join(sep, parts) == parts[0] + (sep + Join(sep, parts[1..]));
    }
    JoinLast(sep, parts);
  }

  /** A join of several parts ends with its last part. */
  lemma {:induction false} JoinLast(sep: string, parts: seq<string>)
    requires parts != []
    ensures EndsWith(Join(sep, parts), parts[|parts| - 1])
    decreases |parts|
  {
    if |parts| > 1 {
      var rest := parts[1..];
      var last := parts[|parts| - 1];
      assert rest[|rest| - 1] == last;
      JoinLast(sep, rest);
      var jr := Join(sep, rest);
      var front := parts[0] + sep;
      assert Join(sep, parts) == front + jr;
      EndsWithConcat(front, jr, last);
    }
  }

  /** A suffix of `j` is a suffix of `front + j`. */
  lemma EndsWithConcat(front: string, j: string, b: string)
    requires EndsWith(j, b)
    ensures EndsWith(front + j, b)
  {
    assert (front + j)[|front + j| - |b|..] == j[|j| - |b|..];
  }
}
