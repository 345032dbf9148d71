/** Extraction of the bot's answer from one rendered inbound frame: the frame is
    split on the client's own nickname followed by a space, and the last piece is
    the answer (src/main.rs:103-107). */
module Reply {
  import opened Strings

  /** The nickname the client registers with, followed by the separator. */
  const BotTag: string := "tt-t-bot "

  /** The fallback the source writes for a split that yields no piece. */
  const ReceiveFailureText: string := "Failed to receive reply"

  function ExtractReply(frame: string): string {
    match Last(Split(frame, BotTag))
    case Some(r) => r
    case None => ReceiveFailureText
  }

  /** The tag's last character, the space, occurs nowhere else in it, so two
      occurrences of the tag never overlap. */
  lemma BotTagLastCharUnique()
    ensures LastCharUnique(BotTag)
  {
    assert BotTag == ['t', 't', '-', 't', '-', 'b', 'o', 't', ' '];
  }

  /** The fallback is dead code: `split(..).last()` always yields a piece, so the
      answer is the last piece of the split. That piece holds no tag, and it is
      either the whole frame or preceded in the frame by the tag. */
  lemma ExtractReplyIsLastPiece(frame: string)
    ensures ExtractReply(frame) == LastPiece(frame, BotTag)
    ensures !Contains(ExtractReply(frame), BotTag)
    ensures IsSuffix(ExtractReply(frame), frame)
    ensures ExtractReply(frame) == frame || IsSuffix(BotTag + ExtractReply(frame), frame)
  {
    var r := LastPiece(frame, BotTag);
    SplitLast(frame, BotTag);
    NotFoundMeansAbsent(r, BotTag);
    if r != frame {
      SuffixOccurrence(frame, BotTag, r);
    }
  }

  /** A frame without the tag is returned whole. */
  lemma ExtractReplyWithoutTag(frame: string)
    requires !Contains(frame, BotTag)
    ensures ExtractReply(frame) == frame
  {
    ExtractReplyIsLastPiece(frame);
    var r := ExtractReply(frame);
    if r != frame {
      SuffixOccurrence(frame, BotTag, r);
    }
  }

  /** The answer is exactly the text after the last occurrence of the tag. */
  lemma ExtractReplyAfterLastTag(frame: string, i: int)
    requires OccursAt(frame, BotTag, i)
    requires !Contains(frame[i + |BotTag|..], BotTag)
    ensures ExtractReply(frame) == frame[i + |BotTag|..]
  {
    BotTagLastCharUnique();
    ExtractReplyIsLastPiece(frame);
    AfterLastOccurrence(frame, BotTag, i, ExtractReply(frame));
  }
}
