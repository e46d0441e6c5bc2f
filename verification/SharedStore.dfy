/** A server is the destination of one sequence and the source of another on the same property store. */
module SharedStore {
  import opened Stores
  import opened Prelude
  import opened ListText
  import DM = DestinationModel
  import D = Destination
  import SM = SourceModel
  import SR = SourceRuns

  lemma SourceStepKeeps(src: SM.Src, e: SR.Event, key: Key)
    requires !e.GaveUp? && AtDestination(key.name)
    ensures SameAt(src.props, SR.Step(src, e).props, key)
  {
  }

  lemma SameStored(p: Props, q: Props, d: DM.Dest, s: string)
    requires D.Stored(p, d, s)
    requires SameAt(p, q, Key(s, SequenceClosed))
    requires SameAt(p, q, Key(s, ServerCompletedMessages)) && SameAt(p, q, Key(s, HighestInMsgNumber))
    ensures D.Stored(q, d, s)
  {
  }

  /** Giving s up leaves the destination alone when s has no list and no highest number, and a closed flag
      only where it is kept: a linked sequence's flag is moved to its outgoing id. */
  predicate SparesDestination(p: Props, s: string) {
    && Key(s, ServerCompletedMessages) !in p && Key(s, HighestInMsgNumber) !in p
    && match TextOf(p, s, OutgoingSequenceId)
       case None => true
       case Some(outId) =>
         Key(s, SequenceClosed) in p ==>
           p[Key(s, SequenceClosed)] != TRUE && TextOf(p, outId, SequenceClosed) != Some(TRUE)
  }

  lemma GivenUpAt(p: Props, s: string, t: string)
    ensures var q := SM.GiveUp(SM.Src(p, map[]), s).props;
      && (t != s ==> SameAt(p, q, Key(t, ServerCompletedMessages)) && SameAt(p, q, Key(t, HighestInMsgNumber)))
      && Key(s, ServerCompletedMessages) !in q && Key(s, HighestInMsgNumber) !in q
      && match TextOf(p, s, OutgoingSequenceId)
         case None => SameAt(p, q, Key(t, SequenceClosed))
         case Some(outId) =>
           && Key(s, SequenceClosed) !in q
           && (t != s && (t != outId || Key(s, SequenceClosed) !in p) ==> SameAt(p, q, Key(t, SequenceClosed)))
           && (outId != s && Key(s, SequenceClosed) in p ==>
                 TextOf(q, outId, SequenceClosed) == Some(p[Key(s, SequenceClosed)]))
  {
  }

  lemma GiveUpSparesIff(p: Props, s: string, d: DM.Dest)
    requires D.Represents(p, d)
    ensures D.Represents(SM.GiveUp(SM.Src(p, map[]), s).props, d) <==> SparesDestination(p, s)
  {
    var q := SM.GiveUp(SM.Src(p, map[]), s).props;
    if SparesDestination(p, s) {
      forall t
        ensures D.Stored(q, d, t)
      {
        assert D.Stored(p, d, t);
        GivenUpAt(p, s, t);
      }
    }
    if D.Represents(q, d) {
      var outId := TextOf(p, s, OutgoingSequenceId);
      assert D.Stored(p, d, s) && D.Stored(q, d, s);
      GivenUpAt(p, s, s);
      if outId.Some? {
        assert D.Stored(p, d, outId.value) && D.Stored(q, d, outId.value);
        GivenUpAt(p, s, outId.value);
      }
    }
  }

  /** What the source does leaves the destination's state as it was, except that giving a sequence up does so
      exactly when that sequence has nothing of the destination's stored under its id. */
  lemma SourceLeavesDestination(src: SM.Src, e: SR.Event, d: DM.Dest)
    requires D.Represents(src.props, d)
    ensures D.Represents(SR.Step(src, e).props, d) <==> (e.GaveUp? ==> SparesDestination(src.props, e.s))
  {
    var q := SR.Step(src, e).props;
    if e.GaveUp? {
      GiveUpSparesIff(src.props, e.s, d);
      assert q == SM.GiveUp(SM.Src(src.props, map[]), e.s).props;
    } else {
      forall s
        ensures D.Stored(q, d, s)
      {
        assert D.Stored(src.props, d, s);
        SourceStepKeeps(src, e, Key(s, SequenceClosed));
        SourceStepKeeps(src, e, Key(s, ServerCompletedMessages));
        SourceStepKeeps(src, e, Key(s, HighestInMsgNumber));
        SameStored(src.props, q, d, s);
      }
    }
  }

  lemma StartedAlike(p: Props, q: Props, c: SM.Call, n: int)
    requires OnlyDestination(p, q)
    ensures OnlyDestination(SM.Started(p, c, n), SM.Started(q, c, n))
  {
    var a, b := SM.Started(p, c, n), SM.Started(q, c, n);
    assert SameAt(p, q, Key(c.seqKey, OutgoingSequenceId)) && SameAt(p, q, Key(c.seqKey, OutCreateSeqSent));
    forall key: Key | !AtDestination(key.name)
      ensures SameAt(a, b, key)
    {
      assert SameAt(p, q, key);
    }
  }

  lemma SameReply(src: SM.Src, q: Props, c: SM.Call)
    requires OnlyDestination(src.props, q)
    ensures var x, y := SM.ProcessOut(src, c), SM.ProcessOut(src.(props := q), c);
      x.reply == y.reply && x.creating == y.creating && x.src.beans == y.src.beans
    ensures SM.Prev(src.props, c.seqKey) == SM.Prev(q, c.seqKey)
  {
    var p, s := src.props, c.seqKey;
    assert SameAt(p, q, Key(s, SequenceTimedOut)) && SameAt(p, q, Key(s, NextMsgNo));
    assert SameAt(p, q, Key(s, OutgoingSequenceId)) && SameAt(p, q, Key(s, OutCreateSeqSent));
  }

  lemma PropsByReply(src: SM.Src, c: SM.Call)
    ensures var n, r := SM.Chosen(SM.Prev(src.props, c.seqKey), c.clientNumber), SM.ProcessOut(src, c);
      r.src.props == match r.reply
        case Halted => src.props - {Key(c.seqKey, SequenceTimedOut)}
        case Rejected => src.props
        case NoVersion(_) => SM.Started(src.props, c, n)[Key(c.seqKey, LastOutMsgNo) := PrintLong(n)]
        case Stored(_) => SM.Started(src.props, c, n)[Key(c.seqKey, LastOutMsgNo) := PrintLong(n)]
        case _ => SM.Started(src.props, c, n)
  {
  }

  lemma SendingAlike(src: SM.Src, q: Props, c: SM.Call)
    requires OnlyDestination(src.props, q)
    ensures var x, y := SM.ProcessOut(src, c), SM.ProcessOut(src.(props := q), c);
      && x.reply == y.reply && x.creating == y.creating && x.src.beans == y.src.beans
      && OnlyDestination(x.src.props, y.src.props)
  {
    var n := SM.Chosen(SM.Prev(src.props, c.seqKey), c.clientNumber);
    SameReply(src, q, c);
    PropsByReply(src, c);
    PropsByReply(src.(props := q), c);
    StartedAlike(src.props, q, c, n);
    forall key: Key | !AtDestination(key.name)
      ensures SameAt(SM.ProcessOut(src, c).src.props, SM.ProcessOut(src.(props := q), c).src.props, key)
    {
      assert SameAt(src.props, q, key);
      assert SameAt(SM.Started(src.props, c, n), SM.Started(q, c, n), key);
    }
  }

  lemma AckAlike(src: SM.Src, q: Props, e: SR.Event)
    requires OnlyDestination(src.props, q) && e.Acked?
    ensures SR.Step(src, e).beans == SR.Step(src.(props := q), e).beans
    ensures OnlyDestination(SR.Step(src, e).props, SR.Step(src.(props := q), e).props)
  {
    var p, a, b := src.props, SR.Step(src, e), SR.Step(src.(props := q), e);
    var back := TextOf(p, e.outId, OutgoingInternalSequenceId);
    assert SameAt(p, q, Key(e.outId, OutgoingInternalSequenceId));
    assert SameAt(p, q, Key(e.outId, ClientCompletedMessages));
    if back.Some? { assert SameAt(p, q, Key(back.value, TerminateAdded)); }
    forall key: Key | !AtDestination(key.name)
      ensures SameAt(a.props, b.props, key)
    {
      assert SameAt(p, q, key);
    }
  }

  lemma GiveUpAlike(p: Props, q: Props, s: string, key: Key)
    requires OnlyDestination(p, q) && !AtDestination(key.name)
    ensures SameAt(SM.Cleaned(p, s), SM.Cleaned(q, s), key)
  {
    assert SameAt(p, q, Key(s, OutgoingSequenceId));
    assert SameAt(p, q, key) && SameAt(p, q, Key(s, key.name));
  }

  /** The other way round: whatever the destination has written, every step of the source gives the same
      answer, the same beans and the same properties outside the destination's. */
  lemma DestinationLeavesSource(src: SM.Src, q: Props, e: SR.Event)
    requires OnlyDestination(src.props, q)
    ensures var a, b := SR.Step(src, e), SR.Step(src.(props := q), e);
      && a.beans == b.beans && OnlyDestination(a.props, b.props)
      && (e.Sending? ==> SM.ProcessOut(src, e.c).reply == SM.ProcessOut(src.(props := q), e.c).reply)
  {
    var a, b := SR.Step(src, e), SR.Step(src.(props := q), e);
    match e
    case Sending(c) => SendingAlike(src, q, c);
    case Acked(_, _, _) => AckAlike(src, q, e);
    case GaveUp(s) =>
      forall key: Key | !AtDestination(key.name)
        ensures SameAt(a.props, b.props, key)
      {
        GiveUpAlike(src.props, q, s, key);
      }
    case _ =>
      forall key: Key | !AtDestination(key.name)
        ensures SameAt(a.props, b.props, key)
      {
        assert SameAt(src.props, q, key);
      }
  }
}
