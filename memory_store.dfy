/**
 * The memory record kept between turns: the archive note and the list of
 * recent turns, and how one finished turn is committed to it.
 */
module MemoryStore {
  import opened Wrappers
  import opened Text
  import ReplyParser

  /**
   * One entry of the "history" list. Entries written by this program carry
   * "user", "assistant_visible" and "assistant_memory"; an entry read back
   * from a hand-edited file may lack any key, or carry an older "assistant".
   */
  datatype Turn = Turn(
    user: Option<string>,
    assistantVisible: Option<string>,
    assistant: Option<string>,
    assistantMemory: Option<string>)

  /**
   * The memory dictionary: its "archive" and "history" keys, either of which
   * may be absent, and every other key, which the program never touches.
   */
  datatype Record = Record(
    archive: Option<string>,
    history: Option<seq<Turn>>,
    others: map<string, string>)

  /** One exchange as the session loop hands it over. */
  datatype Exchange = Exchange(user: string, visible: string, memory: string)

  const FallbackPrefix: string := ReplyParser.PrimaryMarker + "用户："
  const SummaryLabel: string := "；回复摘要："
  const SummaryLimit: nat := 80
  const Ellipsis: string := "..."

  function Min(a: int, b: int): int {
    if a <= b then a else b
  }

  /** The reply summary of the fallback note: the stripped reply, cut to 80 characters. */
  function Summary(visible: string): (s: string)
    ensures |s| <= SummaryLimit + |Ellipsis|
    ensures |Strip(visible)| <= SummaryLimit ==> s == Strip(visible)
    ensures |Strip(visible)| > SummaryLimit ==>
      |s| == SummaryLimit + |Ellipsis| && s[..SummaryLimit] == Strip(visible)[..SummaryLimit] &&
      s[SummaryLimit..] == Ellipsis
    ensures s == [] || !IsSpace(s[|s| - 1])
  {
    var v := Strip(visible);
    if |v| > SummaryLimit then v[..SummaryLimit] + Ellipsis else v
  }

  /**
   * `ensure_memory_text`: the model's own record line when it gave one,
   * otherwise a fallback note naming the user's message and a summary of
   * the reply.
   */
  function EnsureMemoryText(user: string, visible: string, memory: string): (r: string)
    ensures r != ""
    ensures memory != "" ==> r == memory
    ensures memory == "" ==>
      var u := |FallbackPrefix|;
      var l := u + |user|;
      var s := l + |SummaryLabel|;
      s <= |r| <= s + SummaryLimit + |Ellipsis| &&
      r[..u] == FallbackPrefix && r[u..l] == user && r[l..s] == SummaryLabel &&
      r[s..] == Summary(visible)
    ensures memory == "" ==> Stripped(r)
  {
    if memory != "" then memory
    else
      var summary := Summary(visible);
      FallbackLayout(FallbackPrefix, user, SummaryLabel, summary);
      FallbackStripped(user, summary);
      FallbackPrefix + user + SummaryLabel + summary
  }

  lemma FallbackLayout(a: string, b: string, c: string, d: string)
    ensures var r := a + b + c + d;
      r[..|a|] == a && r[|a|..|a| + |b|] == b && r[|a| + |b|..|a| + |b| + |c|] == c &&
      r[|a| + |b| + |c|..] == d
  {
  }

  lemma FallbackStripped(user: string, summary: string)
    requires summary == [] || !IsSpace(summary[|summary| - 1])
    ensures Stripped(FallbackPrefix + user + SummaryLabel + summary)
  {
    var r := FallbackPrefix + user + SummaryLabel + summary;
    assert r[0] == FallbackPrefix[0] == '【';
    if summary == [] {
      assert r[|r| - 1] == SummaryLabel[|SummaryLabel| - 1] == '：';
    } else {
      assert r[|r| - 1] == summary[|summary| - 1];
    }
  }

  /**
   * How many of `n` entries Python's `[-m:]` keeps: the newest `m` when `m`
   * is positive, all of them when `m` is zero (`[-0:]` is `[0:]`), and all
   * but the first `-m` when `m` is negative.
   */
  function Kept(n: nat, m: int): (k: nat)
    ensures k <= n
    ensures m >= 1 ==> k == Min(m, n)
    ensures m == 0 ==> k == n
    ensures m < 0 ==> k == n - Min(-m, n)
  {
    if m <= 0 then n - Min(-m, n) else Min(m, n)
  }

  /**
   * Where a slice `[start:]` of `n` entries begins in CPython: a negative
   * start counts from the end and is clamped at 0, a start past the end is
   * clamped at `n`.
   */
  function SliceStart(n: nat, start: int): (i: nat)
    ensures i <= n
  {
    if start < 0 then (if start + n < 0 then 0 else start + n)
    else if start > n then n
    else start
  }

  /** `Kept` counts exactly the entries from CPython's slice start of `[-m:]` to the end. */
  lemma KeptIsSliceLength(n: nat, m: int)
    ensures Kept(n, m) == n - SliceStart(n, -m)
  {
  }

  /** Python's `s[-m:]` for any integer `m`: the suffix of `s` holding `Kept(|s|, m)` entries. */
  function Newest<T>(s: seq<T>, m: int): (r: seq<T>)
    ensures |r| == Kept(|s|, m)
    ensures r == s[|s| - |r|..]
  {
    KeptIsSliceLength(|s|, m);
    s[SliceStart(|s|, -m)..]
  }

  /** The turn `update_memory` appends. */
  function NewTurn(user: string, visible: string, note: string): Turn {
    Turn(Some(user), Some(visible), None, Some(note))
  }

  /** The record after `update_memory`, with the retention step written as `[-m:]`. */
  function Committed(rec: Record, user: string, visible: string, memory: string, maxHistory: int): Record {
    var note := EnsureMemoryText(user, visible, memory);
    var turns := rec.history.GetOr([]) + [NewTurn(user, visible, note)];
    Record(Some(note), Some(Newest(turns, maxHistory)), rec.others)
  }

  /**
   * The memory dictionary `main` holds. `saved` is the record the last
   * `save_json` wrote to the memory file.
   */
  class Memory {
    var archive: Option<string>
    var history: Option<seq<Turn>>
    var others: map<string, string>
    ghost var saved: Record

    function Value(): Record
      reads this
    {
      Record(archive, history, others)
    }

    /** The file `main` creates when none exists, as read back. */
    constructor Fresh()
      ensures Value() == Record(Some(""), Some([]), map[]) && saved == Value()
    {
      archive := Some("");
      history := Some([]);
      others := map[];
      saved := Record(Some(""), Some([]), map[]);
    }

    /** A memory file read back as `r`. */
    constructor Load(r: Record)
      ensures Value() == r && saved == r
    {
      archive := r.archive;
      history := r.history;
      others := r.others;
      saved := r;
    }
  }

  /** A positive limit always keeps the newest entry. */
  lemma NewestLast<T>(s: seq<T>, m: int)
    requires m >= 1 && s != []
    ensures Newest(s, m) != [] && Newest(s, m)[|Newest(s, m)| - 1] == s[|s| - 1]
  {
    var r := Newest(s, m);
    assert r[|r| - 1] == s[|s| - |r|..][|r| - 1];
  }

  /** Skipping the slice when the history is short loses nothing. */
  lemma ShortHistoryKept<T>(h: seq<T>, m: int)
    requires |h| <= m
    ensures Newest(h, m) == h
  {
  }

  /** `update_memory`, with `save_json` recorded in `saved`. */
  method UpdateMemory(memory: Memory, userMsg: string, assistantVisible: string,
                      assistantMemory: string, maxHistory: int)
    modifies memory
    ensures memory.Value() == Committed(old(memory.Value()), userMsg, assistantVisible, assistantMemory, maxHistory)
    ensures memory.saved == memory.Value()
    ensures memory.others == old(memory.others)
    ensures maxHistory >= 1 ==>
      var h := memory.history.value;
      1 <= |h| <= maxHistory &&
      h[|h| - 1] == NewTurn(userMsg, assistantVisible, EnsureMemoryText(userMsg, assistantVisible, assistantMemory))
  {
    var memoryText := EnsureMemoryText(userMsg, assistantVisible, assistantMemory);
    var history := memory.history.GetOr([]);
    history := history + [Turn(Some(userMsg), Some(assistantVisible), None, Some(memoryText))];
    if |history| > maxHistory {
      history := Newest(history, maxHistory);
    } else {
      ShortHistoryKept(history, maxHistory);
    }
    memory.history := Some(history);
    memory.archive := Some(memoryText);
    memory.saved := memory.Value();
  }

  /**
   * With a positive limit, a commit keeps the newest turns in their order,
   * ends with the new turn, holds at most `maxHistory` entries, replaces
   * the archive with the new note and leaves every other key alone.
   */
  lemma CommitKeepsNewestTurns(rec: Record, user: string, visible: string, memory: string, maxHistory: int)
    requires maxHistory >= 1
    ensures var note := EnsureMemoryText(user, visible, memory);
      var prior := rec.history.GetOr([]);
      var after := Committed(rec, user, visible, memory, maxHistory);
      var h := after.history.value;
      after.history.Some? && |h| == Min(maxHistory, |prior| + 1) &&
      h[|h| - 1] == NewTurn(user, visible, note) &&
      h[..|h| - 1] == prior[|prior| - (|h| - 1)..] &&
      after.archive == Some(note) && after.others == rec.others
  {
    var note := EnsureMemoryText(user, visible, memory);
    var prior := rec.history.GetOr([]);
    var turns := prior + [NewTurn(user, visible, note)];
    var h := Newest(turns, maxHistory);
    assert h == turns[|turns| - |h|..];
    assert h[..|h| - 1] == turns[|turns| - |h|..|turns| - 1];
    assert turns[..|turns| - 1] == prior;
  }

  /**
   * With a limit of zero or less, `len(history) <= max_history` fails:
   * `[-0:]` keeps every turn, so the history grows by one per commit, while
   * a limit of -k drops the k oldest entries, so the history never grows.
   */
  lemma CommitWithoutPositiveLimit(rec: Record, user: string, visible: string, memory: string, maxHistory: int)
    requires maxHistory <= 0
    ensures var prior := rec.history.GetOr([]);
      var h := Committed(rec, user, visible, memory, maxHistory).history.value;
      |h| == |prior| + 1 - Min(-maxHistory, |prior| + 1) &&
      (maxHistory == 0 ==> h == prior + [NewTurn(user, visible, EnsureMemoryText(user, visible, memory))]) &&
      (maxHistory < 0 ==> |h| <= |prior|)
  {
  }

  /** The last `L` entries of a long enough suffix of `z` are the last `L` entries of `z`. */
  lemma SuffixOfSuffix<T>(z: seq<T>, y: seq<T>, L: nat)
    requires |y| <= |z| && y == z[|z| - |y|..] && L <= |y|
    ensures y[|y| - L..] == z[|z| - L..]
  {
    assert y[|y| - L..] == z[|z| - |y|..][|y| - L..];
  }

  /** Trimming to the newest `m` before appending changes nothing once trimmed again. */
  lemma NewestAfterAppend<T>(x: seq<T>, ys: seq<T>, m: int)
    requires m >= 1
    ensures Newest(Newest(x, m) + ys, m) == Newest(x + ys, m)
  {
    var y := Newest(x, m) + ys;
    var z := x + ys;
    assert y == z[|z| - |y|..];
    SuffixOfSuffix(z, y, Min(m, |y|));
  }

  /** Trimming twice to the same positive limit is trimming once. */
  lemma NewestIdempotent<T>(x: seq<T>, m: int)
    requires m >= 1
    ensures Newest(Newest(x, m), m) == Newest(x, m)
  {
    NewestAfterAppend(x, [], m);
    assert Newest(x, m) + [] == Newest(x, m);
    assert x + [] == x;
  }

  function NoteFor(x: Exchange): string {
    EnsureMemoryText(x.user, x.visible, x.memory)
  }

  function TurnFor(x: Exchange): Turn {
    NewTurn(x.user, x.visible, NoteFor(x))
  }

  /** The turns the exchanges commit, in order. */
  function TurnsOf(xs: seq<Exchange>): (ts: seq<Turn>)
    ensures |ts| == |xs|
    ensures forall k :: 0 <= k < |xs| ==> ts[k] == TurnFor(xs[k])
  {
    if xs == [] then [] else [TurnFor(xs[0])] + TurnsOf(xs[1..])
  }

  /** The record after one `update_memory` per exchange, in order. */
  function Replay(rec: Record, xs: seq<Exchange>, maxHistory: int): Record
    decreases |xs|
  {
    if xs == [] then rec
    else Replay(Committed(rec, xs[0].user, xs[0].visible, xs[0].memory, maxHistory), xs[1..], maxHistory)
  }

  /** One step of `Replay`: commit the first exchange, then replay the rest. */
  lemma ReplayStep(rec: Record, xs: seq<Exchange>, maxHistory: int)
    requires xs != []
    ensures var x := xs[0];
      var c := Committed(rec, x.user, x.visible, x.memory, maxHistory);
      Replay(rec, xs, maxHistory) == Replay(c, xs[1..], maxHistory) &&
      c.history == Some(Newest(rec.history.GetOr([]) + [TurnFor(x)], maxHistory)) &&
      c.archive == Some(NoteFor(x)) && c.others == rec.others
  {
  }

  /** Appending turns one at a time, trimming to the newest `m` after each. */
  function AppendEach<T>(h: seq<T>, ts: seq<T>, m: int): seq<T>
    decreases |ts|
  {
    if ts == [] then h else AppendEach(Newest(h + [ts[0]], m), ts[1..], m)
  }

  /** Trimming after every append is trimming once at the end. */
  lemma {:induction false} AppendEachIsNewest<T>(h: seq<T>, ts: seq<T>, m: int)
    requires m >= 1 && ts != []
    ensures AppendEach(h, ts, m) == Newest(h + ts, m)
    decreases |ts|
  {
    var first := h + [ts[0]];
    var rest := ts[1..];
    assert AppendEach(h, ts, m) == AppendEach(Newest(first, m), rest, m);
    assert first + rest == h + ts;
    if rest == [] {
      assert AppendEach(Newest(first, m), rest, m) == Newest(first, m);
    } else {
      assert AppendEach(Newest(first, m), rest, m) == Newest(Newest(first, m) + rest, m) by {
        AppendEachIsNewest(Newest(first, m), rest, m);
      }
      NewestAfterAppend(first, rest, m);
    }
  }

  /** The history after a replay is the turns appended one at a time. */
  lemma {:induction false} ReplayHistory(rec: Record, xs: seq<Exchange>, maxHistory: int)
    requires xs != []
    ensures Replay(rec, xs, maxHistory).history == Some(AppendEach(rec.history.GetOr([]), TurnsOf(xs), maxHistory))
    decreases |xs|
  {
    var x := xs[0];
    var c := Committed(rec, x.user, x.visible, x.memory, maxHistory);
    var rest := xs[1..];
    ReplayStep(rec, xs, maxHistory);
    var ts := TurnsOf(xs);
    assert ts[0] == TurnFor(x) && ts[1..] == TurnsOf(rest);
    if rest != [] {
      ReplayHistory(c, rest, maxHistory);
    }
  }

  /**
   * After any number of turns with a positive limit, the history is the
   * newest `maxHistory` of all turns ever committed.
   */
  lemma ReplayKeepsNewest(rec: Record, xs: seq<Exchange>, maxHistory: int)
    requires maxHistory >= 1 && xs != []
    ensures Replay(rec, xs, maxHistory).history == Some(Newest(rec.history.GetOr([]) + TurnsOf(xs), maxHistory))
  {
    ReplayHistory(rec, xs, maxHistory);
    AppendEachIsNewest(rec.history.GetOr([]), TurnsOf(xs), maxHistory);
  }

  /**
   * After any number of turns the archive is the last turn's note and the
   * other keys are as they were.
   */
  lemma {:induction false} ReplayKeepsLastNote(rec: Record, xs: seq<Exchange>, maxHistory: int)
    requires xs != []
    ensures Replay(rec, xs, maxHistory).archive == Some(NoteFor(xs[|xs| - 1]))
    ensures Replay(rec, xs, maxHistory).others == rec.others
    decreases |xs|
  {
    var x := xs[0];
    var c := Committed(rec, x.user, x.visible, x.memory, maxHistory);
    var rest := xs[1..];
    ReplayStep(rec, xs, maxHistory);
    if rest != [] {
      ReplayKeepsLastNote(c, rest, maxHistory);
      assert rest[|rest| - 1] == xs[|xs| - 1];
    }
  }

  /**
   * A fresh memory file, a limit of two and three turns: the first turn is
   * evicted, the last two remain in order, and the archive is the third
   * turn's note.
   */
  lemma ThreeTurnsKeepLastTwo(x1: Exchange, x2: Exchange, x3: Exchange)
    ensures var after := Replay(Record(Some(""), Some([]), map[]), [x1, x2, x3], 2);
      after.history == Some([TurnFor(x2), TurnFor(x3)]) && after.archive == Some(NoteFor(x3))
  {
    var initial := Record(Some(""), Some([]), map[]);
    var xs := [x1, x2, x3];
    ReplayKeepsNewest(initial, xs, 2);
    ReplayKeepsLastNote(initial, xs, 2);
    var all := [] + TurnsOf(xs);
    assert all == [TurnFor(x1), TurnFor(x2), TurnFor(x3)];
    assert Newest(all, 2) == all[1..];
  }
}
