/**
 * How one turn of the session loop feeds the pieces into each other: the
 * reply is split, its visible part cleaned, and the note that ends up in
 * the archive is what the next system prompt shows.
 */
module Session {
  import opened Text
  import opened ReplyParser
  import opened Sanitizer
  import opened MemoryStore
  import opened ContextAssembler

  /** The archive note a reply leaves behind for the user's message `user`. */
  function NoteOfReply(user: string, reply: string): string {
    var parsed := Parse(reply);
    EnsureMemoryText(user, Cleaned(parsed.0), parsed.1)
  }

  /**
   * Whatever the model replies, the archive note starts with a record
   * marker and carries no surrounding whitespace: either it is the record
   * line the model wrote, or it is the fallback note, which starts with
   * "【记录】".
   */
  lemma NoteStartsWithMarker(user: string, reply: string)
    ensures MarkerAt(NoteOfReply(user, reply), 0)
    ensures Stripped(NoteOfReply(user, reply))
  {
    var parsed := Parse(reply);
    var note := NoteOfReply(user, reply);
    ParseProperties(reply);
    if !HasMarker(reply) {
      var n := |FallbackPrefix|;
      assert note[..n] == FallbackPrefix;
      assert note[..|PrimaryMarker|] == FallbackPrefix[..|PrimaryMarker|] == PrimaryMarker;
      assert OccursAt(note, PrimaryMarker, 0);
    }
  }

  /**
   * After the turn is committed the next system prompt shows that note,
   * unchanged, as its archive section.
   */
  lemma NextPromptShowsNote(rec: Record, user: string, reply: string, maxHistory: int)
    ensures var parsed := Parse(reply);
      var after := Committed(rec, user, Cleaned(parsed.0), parsed.1, maxHistory);
      ArchiveSection(after) == NoteOfReply(user, reply)
  {
    NoteStartsWithMarker(user, reply);
    StrippedIsFixed(NoteOfReply(user, reply));
  }
}
