/**
 * `build_system_prompt`: the persona text followed by the archive note and
 * the newest turns of the history, as the system message of the next call.
 */
module ContextAssembler {
  import opened Wrappers
  import opened Text
  import opened MemoryStore

  const ArchiveHeading: string := "【档案/记忆】"
  const HistoryHeading: string := "【最近对话摘要】"
  const NoneYet: string := "暂无"
  const SectionBreak: string := "\n\n"
  const UserLabel: string := "用户："

  /** The assistant text of a turn: "assistant_visible", else "assistant", else empty. */
  function Shown(t: Turn): string {
    match t.assistantVisible
    case Some(v) => v
    case None => t.assistant.GetOr("")
  }

  function BlockText(t: Turn): string {
    UserLabel + t.user.GetOr("") + "\n搭子：" + Shown(t) + "\n记录：" + t.assistantMemory.GetOr("")
  }

  /** One history entry as rendered: its three labelled lines, stripped. */
  function Block(t: Turn): (b: string)
    ensures |UserLabel| <= |b| && b[..|UserLabel|] == UserLabel
    ensures Stripped(b)
  {
    var raw := BlockText(t);
    assert raw[..|UserLabel|] == UserLabel;
    StripKeepsPrefix(raw, UserLabel);
    Strip(raw)
  }

  /** The rendered blocks of the entries, in order. */
  function Blocks(entries: seq<Turn>): (bs: seq<string>)
    ensures |bs| == |entries|
    ensures forall k :: 0 <= k < |entries| ==> bs[k] == Block(entries[k])
  {
    if entries == [] then [] else [Block(entries[0])] + Blocks(entries[1..])
  }

  function HistoryText(entries: seq<Turn>): string {
    Strip(Join("\n", Blocks(entries)))
  }

  function ArchiveSection(memory: Record): string {
    var a := Strip(memory.archive.GetOr(""));
    if a != "" then a else NoneYet
  }

  /** The rendered window `history[-maxHistory:]`, or the placeholder when it is empty. */
  function HistorySection(memory: Record, maxHistory: int): string {
    var h := HistoryText(Newest(memory.history.GetOr([]), maxHistory));
    if h != "" then h else NoneYet
  }

  /** Everything of the prompt before the rendered history. */
  function PromptHead(promptText: string, memory: Record): string {
    promptText + SectionBreak + ArchiveHeading + SectionBreak + ArchiveSection(memory) +
    SectionBreak + HistoryHeading + SectionBreak
  }

  /** `build_system_prompt`. */
  function BuildSystemPrompt(promptText: string, memory: Record, maxHistory: int): string {
    Join(SectionBreak, [promptText, ArchiveHeading, ArchiveSection(memory), HistoryHeading,
                        HistorySection(memory, maxHistory)])
  }

  /** Every rendered block is non-empty and stripped, and starts with the user label. */
  lemma BlocksShape(entries: seq<Turn>)
    ensures forall k :: 0 <= k < |Blocks(entries)| ==> GoodBlock(Blocks(entries)[k])
  {
    forall k | 0 <= k < |entries| ensures GoodBlock(Blocks(entries)[k]) {
      var b := Block(entries[k]);
      assert b[0] == UserLabel[0];
    }
  }

  predicate GoodBlock(b: string) {
    b != [] && !IsSpace(b[0]) && Stripped(b)
  }

  /** Joining stripped, non-empty blocks gives stripped text. */
  lemma JoinOfBlocksStripped(bs: seq<string>)
    requires bs != [] && forall k :: 0 <= k < |bs| ==> GoodBlock(bs[k])
    ensures Stripped(Join("\n", bs))
  {
    JoinEnds("\n", bs);
    var j := Join("\n", bs);
    var last := bs[|bs| - 1];
    assert GoodBlock(last) && GoodBlock(bs[0]);
    assert EndsWith(j, last);
    assert j[|j| - 1] == j[|j| - |last|..][|last| - 1];
  }

  /**
   * The outer strip of the history text never changes anything: the history
   * text is the blocks joined by single line breaks, and it is empty exactly
   * when there are no entries.
   */
  lemma HistoryTextJoinsBlocks(entries: seq<Turn>)
    ensures HistoryText(entries) == Join("\n", Blocks(entries))
    ensures HistoryText(entries) == "" <==> entries == []
  {
    var bs := Blocks(entries);
    var j := Join("\n", bs);
    if entries == [] {
      assert bs == [];
      StrippedIsFixed(j);
    } else {
      BlocksShape(entries);
      JoinOfBlocksStripped(bs);
      JoinEnds("\n", bs);
      StrippedIsFixed(j);
    }
  }

  lemma JoinFive(sep: string, a: string, b: string, c: string, d: string, e: string)
    ensures Join(sep, [a, b, c, d, e]) == a + sep + b + sep + c + sep + d + sep + e
  {
    var parts := [a, b, c, d, e];
    JoinCons(sep, a, parts[1..]);
    assert parts[1..] == [b] + parts[2..];
    JoinCons(sep, b, parts[2..]);
    assert parts[2..] == [c] + parts[3..];
    JoinCons(sep, c, parts[3..]);
    assert parts[3..] == [d] + [e];
    JoinCons(sep, d, [e]);
  }

  /**
   * The prompt is the five sections separated by blank lines: the persona,
   * the archive heading, the stripped archive (or 暂无), the history heading
   * and the rendered window (or 暂无).
   */
  lemma PromptLayout(promptText: string, memory: Record, maxHistory: int)
    ensures BuildSystemPrompt(promptText, memory, maxHistory) ==
      PromptHead(promptText, memory) + HistorySection(memory, maxHistory)
    ensures var window := Newest(memory.history.GetOr([]), maxHistory);
      HistorySection(memory, maxHistory) ==
        if window == [] then NoneYet else Join("\n", Blocks(window))
    ensures ArchiveSection(memory) != ""
  {
    JoinFive(SectionBreak, promptText, ArchiveHeading, ArchiveSection(memory), HistoryHeading,
             HistorySection(memory, maxHistory));
    HistoryTextJoinsBlocks(Newest(memory.history.GetOr([]), maxHistory));
  }

  /**
   * With a positive limit only the newest `maxHistory` turns reach the
   * prompt: dropping every older turn from the record leaves it unchanged.
   */
  lemma PromptIgnoresOlderTurns(promptText: string, memory: Record, maxHistory: int)
    requires maxHistory >= 1
    ensures var trimmed := memory.(history := Some(Newest(memory.history.GetOr([]), maxHistory)));
      BuildSystemPrompt(promptText, trimmed, maxHistory) == BuildSystemPrompt(promptText, memory, maxHistory)
  {
    var trimmed := memory.(history := Some(Newest(memory.history.GetOr([]), maxHistory)));
    assert ArchiveSection(trimmed) == ArchiveSection(memory);
    assert HistorySection(trimmed, maxHistory) == HistorySection(memory, maxHistory) by {
      NewestIdempotent(memory.history.GetOr([]), maxHistory);
    }
  }

  /** The blocks of a non-empty window, joined, end with the block of its newest turn. */
  lemma JoinedBlocksEndWithNewest(window: seq<Turn>)
    requires window != []
    ensures EndsWith(Join("\n", Blocks(window)), Block(window[|window| - 1]))
  {
    var bs := Blocks(window);
    JoinEndsWithLast(bs, Block(window[|window| - 1]));
  }

  lemma JoinEndsWithLast(bs: seq<string>, b: string)
    requires bs != [] && b == bs[|bs| - 1]
    ensures EndsWith(Join("\n", bs), b)
  {
    JoinLast("\n", bs);
  }

  /** With a positive limit and some history, the prompt ends with the newest turn's block. */
  lemma PromptEndsWithLatestTurn(promptText: string, memory: Record, maxHistory: int)
    requires maxHistory >= 1
    requires memory.history.Some? && memory.history.value != []
    ensures EndsWith(BuildSystemPrompt(promptText, memory, maxHistory),
                     Block(memory.history.value[|memory.history.value| - 1]))
  {
    var h := memory.history.value;
    var window := Newest(h, maxHistory);
    var b := Block(h[|h| - 1]);
    var hs := HistorySection(memory, maxHistory);
    var p := BuildSystemPrompt(promptText, memory, maxHistory);
    assert EndsWith(hs, b) by {
      NewestLast(h, maxHistory);
      JoinedBlocksEndWithNewest(window);
      PromptLayout(promptText, memory, maxHistory);
    }
    assert p == PromptHead(promptText, memory) + hs by {
      PromptLayout(promptText, memory, maxHistory);
    }
    EndsWithConcat(PromptHead(promptText, memory), hs, b);
  }

  /**
   * After a commit with a positive limit the next prompt ends with the block
   * of the turn just committed, whose "搭子" line shows the visible reply.
   */
  lemma NextPromptShowsCommittedTurn(promptText: string, rec: Record, user: string, visible: string,
                                     memory: string, maxHistory: int)
    requires maxHistory >= 1
    ensures var note := EnsureMemoryText(user, visible, memory);
      var p := BuildSystemPrompt(promptText, Committed(rec, user, visible, memory, maxHistory), maxHistory);
      EndsWith(p, Strip(UserLabel + user + "\n搭子：" + visible + "\n记录：" + note))
  {
    var after := Committed(rec, user, visible, memory, maxHistory);
    CommitKeepsNewestTurns(rec, user, visible, memory, maxHistory);
    PromptEndsWithLatestTurn(promptText, after, maxHistory);
  }
}
