/** What single steps of the source leave behind, told by properties and fields. */
module SourceEffects {
  import opened Prelude
  import opened ListText
  import opened AckRanges
  import opened Stores
  import opened SourceModel
  import opened SourceRuns

  // ---- calls ------------------------------------------------------------------------------------

  predicate Accepted(r: Reply) { !r.Halted? && !r.Rejected? }

  lemma ReplyNumber(src: Src, c: Call)
    requires Accepted(ProcessOut(src, c).reply)
    ensures var n, prev := ProcessOut(src, c).reply.number, Prev(src.props, c.seqKey);
      && n == (match c.clientNumber
               case Some(client) => client
               case None => if prev > 0 then prev + 1 else 1)
      && AssignedBy(src, c) == if c.dummy then None else Some(n)
  {
  }

  lemma AssignedStep(es: seq<Event>, c: Call)
    ensures Assigned(es + [Sending(c)], c.seqKey) == Assigned(es, c.seqKey)
      + match AssignedBy(After(es), c) case Some(n) => [n] case None => []
  {
    assert (es + [Sending(c)])[..|es|] == es;
  }

  /** The number of an accepted call: the client's own if it set one, otherwise one more than the number assigned
      last in the sequence, from 1. A real message takes it, a dummy message only looks at it. */
  lemma AcceptedNumber(es: seq<Event>, c: Call)
    requires Feasible(es) && Accepted(ProcessOut(After(es), c).reply)
    ensures var list, n := Assigned(es, c.seqKey), ProcessOut(After(es), c).reply.number;
      && n == (match c.clientNumber
               case Some(client) => client
               case None => if list == [] then 1 else list[|list| - 1] + 1)
      && Assigned(es + [Sending(c)], c.seqKey) == if c.dummy then list else list + [n]
  {
    Numbering(es, c.seqKey);
    var list := Assigned(es, c.seqKey);
    assert list != [] ==> Last(list) in list;
    ReplyNumber(After(es), c);
    AssignedStep(es, c);
  }

  /** The numbers an accepted call stores. */
  lemma AcceptedStores(src: Src, c: Call)
    requires Accepted(ProcessOut(src, c).reply)
    ensures var s, p, q, r := c.seqKey, src.props, ProcessOut(src, c).src.props, ProcessOut(src, c).reply;
      && LongOf(q, s, HighestOutMsgNumber, 0) == r.number
      && (if c.dummy then SameAt(p, q, Key(s, NextMsgNo)) else LongOf(q, s, NextMsgNo, 0) == r.number)
      && (if r.Stored? || r.NoVersion? then LongOf(q, s, LastOutMsgNo, 0) == r.number
          else SameAt(p, q, Key(s, LastOutMsgNo)))
      && (if r.number == 1 && c.setupOk then TextOf(q, s, ClientCompletedMessages) == Some("")
          else SameAt(p, q, Key(s, ClientCompletedMessages)))
  {
    ParsePrint(ProcessOut(src, c).reply.number);
  }

  /** A call touches no other sequence, neither its properties nor its beans. */
  lemma OthersUntouched(src: Src, c: Call, key: Key, id: string)
    ensures var after := ProcessOut(src, c).src;
      && (key.seqId != c.seqKey ==> SameAt(src.props, after.props, key))
      && (id != c.msgId ==> (id in after.beans <==> id in src.beans))
      && (id in src.beans ==> id in after.beans && after.beans[id] == src.beans[id])
  {
  }

  /** The message is in the sender store afterwards, ready to send, exactly when it is stored under a new id. */
  lemma StoredBean(src: Src, c: Call)
    requires c.msgId !in src.beans
    ensures var r := ProcessOut(src, c);
      && (c.msgId in r.src.beans <==> r.reply.Stored?)
      && (r.reply.Stored? ==>
            r.src.beans[c.msgId] == Bean(c.msgId, c.seqKey, r.reply.number, Application, true, true, -1))
  {
  }

  /** How an accepted call ends. */
  lemma AcceptedEnds(src: Src, c: Call)
    requires Accepted(ProcessOut(src, c).reply)
    ensures var r := ProcessOut(src, c);
      && (r.reply.CreateFailed? <==> r.creating && !c.createOk)
      && (r.reply.Stored? <==> !c.dummy && c.policyFound && c.versionFound && (r.creating ==> c.createOk))
      && (r.reply.LetGo? ==> c.dummy)
      && (r.reply.NoPolicy? ==> !c.dummy && !c.policyFound)
      && (r.reply.NoVersion? ==> !c.dummy && c.policyFound && !c.versionFound)
  {
  }

  /** The first call after a sequence timed out ends the program; all it does is to clear the flag, so that the
      next one does not. */
  lemma HaltedIff(src: Src, c: Call)
    ensures var s, r := c.seqKey, ProcessOut(src, c);
      && (r.reply.Halted? <==> Key(s, SequenceTimedOut) in src.props && src.props[Key(s, SequenceTimedOut)] == "true")
      && (r.reply.Halted? ==> r.src == src.(props := src.props - {Key(s, SequenceTimedOut)}) && !r.creating)
      && (r.reply.Halted? ==> !ProcessOut(r.src, c).reply.Halted?)
  {
  }

  /** The create exchange starts exactly for number 1, when no outgoing id is linked (an accepted offer links one)
      and none was started since the sequence was given up last. */
  lemma CreatingIff(es: seq<Event>, c: Call)
    requires Feasible(es) && Accepted(ProcessOut(After(es), c).reply)
    ensures var s, r := c.seqKey, ProcessOut(After(es), c);
      var first := Key(s, OutgoingSequenceId) !in After(es).props && Creations(es, s) == 0;
      r.creating <==> r.reply.number == 1 && first
  {
    OneCreateSequence(es, c.seqKey);
  }

  // ---- giving up ----------------------------------------------------------------------------------

  /** What is left under the internal id: whether terminate was added, the count of acknowledged messages and
      the way back from an outgoing id; the closed flag unless the sequence was linked; and the flag that it
      timed out. */
  lemma GivenUpSequence(src: Src, s: string, name: PropName)
    ensures var p, q := src.props, GiveUp(src, s).props;
      if name == SequenceTimedOut then TextOf(q, s, name) == Some("true")
      else if name == TerminateAdded || name == NoOfOutGoingMessagesAcked || name == OutgoingInternalSequenceId
        || (name == SequenceClosed && Key(s, OutgoingSequenceId) !in p)
      then SameAt(p, q, Key(s, name))
      else Key(s, name) !in q
  {
  }

  /** The completed list and the closed and timed out flags go to the outgoing id; nothing else changes. */
  lemma GivenUpElsewhere(src: Src, s: string, key: Key)
    requires key.seqId != s
    ensures var p, q := src.props, GiveUp(src, s).props;
      var moves := LinksTo(p, s, key.seqId) && Key(s, key.name) in p
        && (key.name == ClientCompletedMessages || key.name == SequenceClosed || key.name == SequenceTimedOut);
      if moves then key in q && q[key] == p[Key(s, key.name)] else SameAt(p, q, key)
  {
  }

  lemma GivenUpBeans(src: Src, s: string, id: string)
    ensures var beans := GiveUp(src, s).beans;
      && (id in beans <==> id in src.beans && src.beans[id].internalSeq != s)
      && (id in beans ==> beans[id] == src.beans[id])
  {
  }

  // ---- acknowledgements -----------------------------------------------------------------------------

  /** An acknowledgement without an outgoing id, or for a sequence that is being terminated, changes nothing. */
  lemma AckIgnored(src: Src, outId: string, ranges: seq<AckRange>, found: seq<Bean>, s: string)
    requires outId == "" || (LinksBack(src.props, s, outId) && Key(s, TerminateAdded) in src.props)
    ensures ProcessAck(src, outId, ranges, found) == src
  {
  }
}
