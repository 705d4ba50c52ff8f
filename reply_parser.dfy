/**
 * `parse_reply` (app.py:49-69): splits the raw model reply into the text
 * shown to the user and the memory note that follows a record marker.
 */
module ReplyParser {
  import opened Text

  /** The full-width record marker. */
  const PrimaryMarker: string := "【记录】"
  /** Its ASCII-bracket spelling. */
  const AsciiMarker: string := "[记录]"

  /** A record marker starts at index `k` of `s`. */
  predicate MarkerAt(s: string, k: int) {
    OccursAt(s, PrimaryMarker, k) || OccursAt(s, AsciiMarker, k)
  }

  /** `any(m in s for m in markers)`. */
  predicate HasMarker(s: string) {
    Contains(s, PrimaryMarker) || Contains(s, AsciiMarker)
  }

  /** Some marker occurs in `s` exactly when a marker starts at some index of `s`. */
  lemma HasMarkerIffMarkerAt(s: string)
    ensures HasMarker(s) <==> exists j :: MarkerAt(s, j)
  {
    ContainsIffOccurs(s, PrimaryMarker);
    ContainsIffOccurs(s, AsciiMarker);
    if Contains(s, PrimaryMarker) {
      var j :| OccursAt(s, PrimaryMarker, j);
      assert MarkerAt(s, j);
    } else if Contains(s, AsciiMarker) {
      var j :| OccursAt(s, AsciiMarker, j);
      assert MarkerAt(s, j);
    }
  }

  /**
   * `cut`: the smallest `s.find(m)` over the markers that occur, or -1
   * when neither does. It is the first index at which a marker starts.
   */
  function CutPoint(reply: string): (cut: int)
    ensures cut == -1 <==> !HasMarker(reply)
    ensures cut != -1 ==> MarkerAt(reply, cut)
    ensures forall j :: 0 <= j && (cut == -1 || j < cut) ==> !MarkerAt(reply, j)
  {
    var primary := Find(reply, PrimaryMarker);
    var ascii := Find(reply, AsciiMarker);
    if primary != -1 && ascii != -1 then (if primary <= ascii then primary else ascii)
    else if primary != -1 then primary
    else ascii
  }

  /**
   * What `parse_reply` returns, as (visible, memory). With a marker the
   * reply is cut at its first one; without, the line scan keeps every line
   * as visible text and the memory note is empty.
   */
  function Parse(reply: string): (string, string) {
    var cut := CutPoint(reply);
    if cut != -1 then
      (Strip(reply[..cut]), Strip(reply[cut..]))
    else
      var joined := Strip(Join("\n", SplitLines(reply)));
      (if joined != "" then joined else Strip(reply), "")
  }

  /**
   * A reply without a marker has no line with a marker, so the line scan
   * never takes its memory branch.
   */
  lemma LineScanFindsNoMarker(reply: string, k: nat)
    requires !HasMarker(reply)
    requires k < |SplitLines(reply)|
    ensures !HasMarker(SplitLines(reply)[k])
  {
    if Contains(SplitLines(reply)[k], PrimaryMarker) {
      LineContainsOnlyWhatTextContains(reply, k, PrimaryMarker);
    }
    if Contains(SplitLines(reply)[k], AsciiMarker) {
      LineContainsOnlyWhatTextContains(reply, k, AsciiMarker);
    }
  }

  /** `parse_reply`, with its line-scan loop. */
  method ParseReply(reply: string) returns (visible: string, memoryText: string)
    ensures (visible, memoryText) == Parse(reply)
    ensures Stripped(visible) && Stripped(memoryText)
    ensures memoryText == "" <==> !HasMarker(reply)
    ensures HasMarker(reply) ==> MarkerAt(memoryText, 0) && !HasMarker(visible)
    ensures !HasMarker(reply) ==> (visible == "" <==> AllSpace(reply))
  {
    ParseProperties(reply);
    var cut := CutPoint(reply);
    if cut != -1 {
      visible := Strip(reply[..cut]);
      memoryText := Strip(reply[cut..]);
    } else {
      var lines := SplitLines(reply);
      var memLines: seq<string> := [];
      var visLines: seq<string> := [];
      var i := 0;
      while i < |lines|
        invariant 0 <= i <= |lines|
        invariant visLines == lines[..i]
        invariant memLines == []
      {
        var line := lines[i];
        PrefixGrows(lines, i);
        LineScanFindsNoMarker(reply, i);
        if HasMarker(line) {
          memLines := memLines + [Strip(line)];
        } else {
          visLines := visLines + [line];
        }
        i := i + 1;
      }
      assert visLines == lines;
      var joined := Strip(Join("\n", visLines));
      visible := if joined != "" then joined else Strip(reply);
      memoryText := Strip(Join("\n", memLines));
    }
  }

  lemma PrefixGrows<T>(s: seq<T>, i: nat)
    requires i < |s|
    ensures s[..i + 1] == s[..i] + [s[i]]
  {
  }

  /** An occurrence inside an infix of `s[..c]` is an occurrence in `s` ending by `c`. */
  lemma OccurrenceBeforeCut(s: string, c: nat, v: string, o: nat, p: string)
    requires c <= |s| && OccursAt(s[..c], v, o)
    ensures Contains(v, p) ==> OccursAt(s, p, o + Find(v, p)) && o + Find(v, p) + |p| <= c
  {
    if Contains(v, p) {
      var j := Find(v, p);
      OccursAtShift(s[..c], v, o, p, j);
      assert OccursAt(s, s[..c], 0);
      OccursAtShift(s, s[..c], 0, p, o + j);
    }
  }

  /** The memory note cut at the first marker starts with that marker. */
  lemma CutNoteStartsWithMarker(reply: string, cut: int)
    requires cut == CutPoint(reply) && cut != -1
    ensures cut <= |reply| && MarkerAt(Strip(reply[cut..]), 0)
  {
    var tail := reply[cut..];
    var marker := if OccursAt(reply, PrimaryMarker, cut) then PrimaryMarker else AsciiMarker;
    assert tail[..|marker|] == reply[cut..cut + |marker|];
    StripKeepsPrefix(tail, marker);
    assert Strip(tail)[..|marker|] == marker;
  }

  /** The visible text cut before the first marker holds no marker. */
  lemma CutVisibleHasNoMarker(reply: string, cut: int)
    requires cut == CutPoint(reply) && cut != -1
    ensures cut <= |reply| && !HasMarker(Strip(reply[..cut]))
  {
    var head := reply[..cut];
    var visible := Strip(head);
    assert OccursAt(head, visible, StripStart(head));
    OccurrenceBeforeCut(reply, cut, visible, StripStart(head), PrimaryMarker);
    OccurrenceBeforeCut(reply, cut, visible, StripStart(head), AsciiMarker);
  }

  /**
   * With a marker in the reply, the memory note is the stripped text from
   * the first marker on and starts with that marker; the visible text is the
   * stripped text before it and holds no marker.
   */
  lemma ParseAtFirstMarker(reply: string)
    requires HasMarker(reply)
    ensures var cut := CutPoint(reply);
      0 <= cut <= |reply|
      && Parse(reply).0 == Strip(reply[..cut]) && Parse(reply).1 == Strip(reply[cut..])
      && MarkerAt(Parse(reply).1, 0) && !HasMarker(Parse(reply).0)
  {
    var cut := CutPoint(reply);
    CutNoteStartsWithMarker(reply, cut);
    CutVisibleHasNoMarker(reply, cut);
  }

  /**
   * Without a marker the memory note is empty, and the visible text is empty
   * exactly when the reply is all whitespace.
   */
  lemma ParseWithoutMarker(reply: string)
    requires !HasMarker(reply)
    ensures Parse(reply).1 == ""
    ensures Parse(reply).0 == "" <==> AllSpace(reply)
  {
    JoinedLinesAllSpace(reply);
  }

  /** The memory note is empty exactly when the reply has no marker. */
  lemma MemoryEmptyIffNoMarker(reply: string)
    ensures Parse(reply).1 == "" <==> !HasMarker(reply)
  {
    if HasMarker(reply) {
      ParseAtFirstMarker(reply);
    }
  }

  /** The one-call properties of `parse_reply`, gathered. */
  lemma ParseProperties(reply: string)
    ensures Stripped(Parse(reply).0) && Stripped(Parse(reply).1)
    ensures Parse(reply).1 == "" <==> !HasMarker(reply)
    ensures HasMarker(reply) ==> MarkerAt(Parse(reply).1, 0) && !HasMarker(Parse(reply).0)
    ensures !HasMarker(reply) ==> (Parse(reply).0 == "" <==> AllSpace(reply))
  {
    MemoryEmptyIffNoMarker(reply);
    if HasMarker(reply) {
      ParseAtFirstMarker(reply);
    } else {
      ParseWithoutMarker(reply);
    }
  }
}
