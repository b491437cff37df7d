/**
 * Parsing of the classifier's reply. The reply is expected in the form
 * "main - sub1, sub2, sub3"; the code keeps the text after the last "- "
 * and splits it on ", ". The chat-completion call that produces the reply
 * is not modelled: the reply text is an input.
 */
module CategoryClassifier {
  import opened Text

  /** The stripped reply after its last "- ", or the whole stripped reply when there is none. */
  function ReplyTail(reply: string): string {
    Last(Split(Strip(reply), "- "))
  }

  /**
   * `reply.strip().split("- ")[-1].split(", ")`: at least one name, none
   * containing ", ", and joined with ", " they give back the tail.
   */
  function ParseReply(reply: string): (names: seq<string>)
    ensures |names| >= 1
    ensures Join(names, ", ") == ReplyTail(reply)
    ensures forall i :: 0 <= i < |names| ==> !Contains(names[i], ", ")
  {
    var tail := ReplyTail(reply);
    JoinSplit(tail, ", ");
    SplitPiecesFree(tail, ", ");
    Split(tail, ", ")
  }

  /** Without a "- " in the stripped reply, the whole stripped reply is split. */
  lemma TailWithoutDash(reply: string)
    requires !Contains(Strip(reply), "- ")
    ensures ReplyTail(reply) == Strip(reply)
  {
    SplitAbsent(Strip(reply), "- ");
  }

  /**
   * With a "- " in the stripped reply, the tail is what follows its last
   * occurrence: it is a suffix right after a "- " and holds no "- " itself.
   */
  lemma TailAfterLastDash(reply: string)
    requires Contains(Strip(reply), "- ")
    ensures exists p :: Strip(reply) == p + "- " + ReplyTail(reply)
    ensures !Contains(ReplyTail(reply), "- ")
  {
    var parts := Split(Strip(reply), "- ");
    SplitLastAfterSeparator(Strip(reply), "- ");
    SplitPiecesFree(Strip(reply), "- ");
    assert ReplyTail(reply) == parts[|parts| - 1];
  }

  /** Joining the names with ", " and parsing again gives the same names. */
  lemma ParseJoinRoundTrip(reply: string)
    ensures Split(Join(ParseReply(reply), ", "), ", ") == ParseReply(reply)
  {
    CommaSpaceSplitJoin(ParseReply(reply));
  }
}
