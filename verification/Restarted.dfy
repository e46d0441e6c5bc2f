/** A sequence that is used again after it was given up: its numbers start again at 1 while an acknowledgement
    of the old outgoing id may still be on its way. */
module Restarted {
  import opened Prelude
  import opened AckRanges
  import opened Stores
  import opened EndToEnd
  import SM = SourceModel
  import SR = SourceRuns
  import DM = DestinationModel
  import DR = DestinationRuns

  function Call(s: string, msgId: string): SM.Call { SM.Call(s, msgId, None, false, true, true, true, true) }

  lemma ReachedStep(w: World, mv: Move)
    requires Reached(w) && Enabled(w, mv)
    ensures Reached(Step(w, mv))
  {
    var moves :| Feasible(moves) && After(moves) == w;
    var more := moves + [mv];
    assert more[..|moves|] == moves;
    assert Feasible(more) && After(more) == Step(w, mv);
  }

  // ---- losing a message ---------------------------------------------------------------------------

  /** An acknowledgement of number 1 is on its way for an outgoing id that leads back to s, and s is not
      being terminated. */
  ghost predicate AckUnderway(w: World, s: string, outId: string, ranges: seq<AckRange>) {
    && outId != "" && Ack(outId, ranges) in w.net && Covers(ranges, 1)
    && SR.LinksBack(w.src.props, s, outId) && Key(s, TerminateAdded) !in w.src.props
  }

  /** s has no messages and no number. */
  ghost predicate Emptied(w: World, s: string) {
    SM.Prev(w.src.props, s) == -1 && forall id :: id in w.src.beans ==> w.src.beans[id].internalSeq != s
  }

  lemma GiveUpEmpties(w: World, s: string, outId: string, ranges: seq<AckRange>)
    requires AckUnderway(w, s, outId, ranges)
    ensures var v := Step(w, AtSource(SR.GaveUp(s)));
      && AckUnderway(v, s, outId, ranges) && Emptied(v, s) && SM.TimedOut(v.src.props, s)
      && v.issued == w.issued && v.wire == w.wire && v.dropped == w.dropped + IssuedIn(w, s)
  {
    SR.GivenUpLeavesWayBack(w.src, s, outId);
  }

  /** The first call after giving up only clears the flag and ends the program. */
  lemma HaltClears(w: World, s: string, outId: string, ranges: seq<AckRange>, b: string)
    requires AckUnderway(w, s, outId, ranges) && Emptied(w, s) && SM.TimedOut(w.src.props, s)
    ensures var v := Step(w, AtSource(SR.Sending(Call(s, b))));
      && AckUnderway(v, s, outId, ranges) && Emptied(v, s) && !SM.TimedOut(v.src.props, s)
      && v.issued == w.issued && v.wire == w.wire && v.dropped == w.dropped
  {
  }

  lemma SendGetsOne(w: World, s: string, outId: string, ranges: seq<AckRange>, b: string)
    requires AckUnderway(w, s, outId, ranges) && Emptied(w, s) && !SM.TimedOut(w.src.props, s)
    requires b !in w.src.beans
    ensures var v := Step(w, AtSource(SR.Sending(Call(s, b))));
      && AckUnderway(v, s, outId, ranges)
      && v.src.beans == w.src.beans[b := SM.NewBean(Call(s, b), 1)]
      && v.issued == w.issued[b := Issue(s, 1)] && v.wire == w.wire && v.dropped == w.dropped
  {
    var e := SR.Sending(Call(s, b));
    SR.StepKeeps(w.src, e, Key(outId, OutgoingInternalSequenceId));
    assert SM.ProcessOut(w.src, e.c).reply == SM.Stored(1);
  }

  lemma OldAckRemoves(w: World, s: string, outId: string, ranges: seq<AckRange>, b: string)
    requires AckUnderway(w, s, outId, ranges)
    requires b in w.src.beans && w.src.beans[b] == SM.NewBean(Call(s, b), 1)
    requires forall id :: id in w.src.beans && id != b ==> w.src.beans[id].internalSeq != s
    ensures var mv := AtSource(SR.Acked(outId, ranges, [w.src.beans[b]]));
      && Enabled(w, mv) && b !in Step(w, mv).src.beans
      && Step(w, mv).issued == w.issued && Step(w, mv).wire == w.wire && Step(w, mv).dropped == w.dropped
  {
    var bean := w.src.beans[b];
    ExpandCovers(ranges, 1);
    assert SM.FirstMatch([bean], 1) == Some(bean);
    assert bean in [bean] && b in SM.RemovedIds([bean], Expand(ranges));
  }

  /** Give the sequence up, and send again. */
  lemma Resume(w: World, s: string, outId: string, ranges: seq<AckRange>, b: string) returns (v: World)
    requires Reached(w) && AckUnderway(w, s, outId, ranges) && b !in w.issued
    ensures Reached(v) && AckUnderway(v, s, outId, ranges)
    ensures b in v.src.beans && v.src.beans[b] == SM.NewBean(Call(s, b), 1)
    ensures forall id :: id in v.src.beans && id != b ==> v.src.beans[id].internalSeq != s
    ensures v.issued == w.issued[b := Issue(s, 1)] && v.wire == w.wire && v.dropped == w.dropped + IssuedIn(w, s)
  {
    var giveUp, call := AtSource(SR.GaveUp(s)), AtSource(SR.Sending(Call(s, b)));
    GiveUpEmpties(w, s, outId, ranges);
    ReachedStep(w, giveUp);
    var w1 := Step(w, giveUp);
    HaltClears(w1, s, outId, ranges, b);
    ReachedStep(w1, call);
    var w2 := Step(w1, call);
    ReachedInv(w2);
    SendGetsOne(w2, s, outId, ranges, b);
    ReachedStep(w2, call);
    v := Step(w2, call);
  }

  /** From every reachable state with such an acknowledgement the run can go on so that a message is lost:
      the sequence is given up, a new message gets number 1, and the old acknowledgement removes it. */
  lemma StaleAckLosesMessage(w: World, s: string, outId: string, ranges: seq<AckRange>, b: string)
    requires Reached(w) && AckUnderway(w, s, outId, ranges) && b !in w.issued
    ensures exists v :: Reached(v) && Live(v, b) && !StoredOrListed(v, b)
  {
    ReachedInv(w);
    assert b !in w.wire && b !in w.dropped;
    var u := Resume(w, s, outId, ranges, b);
    var ack := AtSource(SR.Acked(outId, ranges, [u.src.beans[b]]));
    OldAckRemoves(u, s, outId, ranges, b);
    ReachedStep(u, ack);
    var v := Step(u, ack);
    assert Reached(v) && Live(v, b) && !StoredOrListed(v, b);
  }

  // ---- such an acknowledgement can be on its way ----------------------------------------------------

  /** One message was stored, with number 1, and is not addressed yet. */
  ghost predicate OneStored(w: World, s: string, a: string) {
    w.issued == map[a := Issue(s, 1)] && w.wire == map[] && Key(s, TerminateAdded) !in w.src.props
  }

  /** The destination has just opened outId. */
  predicate JustOpened(d: DM.Dest, outId: string) { !DM.Refused(d, outId) && DM.Listed(d, outId) == [] }

  lemma SendFirst(s: string, a: string)
    ensures var w := Step(START, AtSource(SR.Sending(Call(s, a))));
      OneStored(w, s, a) && Request(s) in w.net && w.dst == DM.EMPTY && w.owner == map[]
  {
    assert SM.ProcessOut(SM.EMPTY, Call(s, a)).reply == SM.Stored(1);
  }

  lemma LinkFirst(w: World, s: string, outId: string, a: string)
    requires OneStored(w, s, a) && Created(s, outId) in w.net && JustOpened(w.dst, outId)
    ensures var v := Step(w, AtSource(SR.Linked(s, outId)));
      OneStored(v, s, a) && JustOpened(v.dst, outId)
      && SR.LinksTo(v.src.props, s, outId) && SR.LinksBack(v.src.props, s, outId)
  {
  }

  lemma ReceiveFirst(w: World, outId: string)
    requires JustOpened(w.dst, outId)
    ensures var m := DR.Ordinary(outId, 1);
      AckOf([AckRange(1, 1)], DM.Listed(DM.Receive(w.dst, m, DR.PLAIN).dest, outId)) && Answers(w.dst, m, DR.PLAIN)
  {
    DR.ReceiveEffect(w.dst, DR.Ordinary(outId, 1), DR.PLAIN);
    assert Within([AckRange(1, 1)][0], 1);
  }

  ghost predicate Linked(w: World, s: string, outId: string, a: string) {
    && Reached(w) && OneStored(w, s, a) && JustOpened(w.dst, outId)
    && SR.LinksTo(w.src.props, s, outId) && SR.LinksBack(w.src.props, s, outId)
  }

  lemma FirstLinked(s: string, outId: string, a: string)
    ensures exists w :: Linked(w, s, outId, a)
  {
    var none: seq<Move> := [];
    assert Feasible(none) && After(none) == START;
    var call, link := AtSource(SR.Sending(Call(s, a))), AtSource(SR.Linked(s, outId));
    SendFirst(s, a);
    ReachedStep(START, call);
    var w1 := Step(START, call);
    ReachedStep(w1, Create(s, outId));
    var w2 := Step(w1, Create(s, outId));
    LinkFirst(w2, s, outId, a);
    ReachedStep(w2, link);
    assert Linked(Step(w2, link), s, outId, a);
  }

  ghost predicate Acknowledged(w: World, s: string, outId: string, a: string) {
    Reached(w) && AckUnderway(w, s, outId, [AckRange(1, 1)]) && w.issued == map[a := Issue(s, 1)]
  }

  lemma FirstAcknowledged(w: World, s: string, outId: string, a: string)
    requires Linked(w, s, outId, a) && outId != ""
    ensures exists v :: Acknowledged(v, s, outId, a)
  {
    var m, ranges := DR.Ordinary(outId, 1), [AckRange(1, 1)];
    ReachedStep(w, Address(a, outId));
    var w1 := Step(w, Address(a, outId));
    ReachedStep(w1, Transmit(a, m));
    var w2 := Step(w1, Transmit(a, m));
    ReceiveFirst(w2, outId);
    ReachedStep(w2, Receive(m, DR.PLAIN, ranges));
    assert Within(ranges[0], 1);
    assert Acknowledged(Step(w2, Receive(m, DR.PLAIN, ranges)), s, outId, a);
  }

  /** So the condition of the no loss theorem is needed: for any two message ids there is a run in which the
      second, stored after the last time its sequence was given up, is neither stored nor listed. */
  lemma LossAfterGiveUp(s: string, outId: string, a: string, b: string)
    requires outId != "" && a != b
    ensures exists w :: Reached(w) && Live(w, b) && !StoredOrListed(w, b)
  {
    FirstLinked(s, outId, a);
    var w :| Linked(w, s, outId, a);
    FirstAcknowledged(w, s, outId, a);
    var v :| Acknowledged(v, s, outId, a);
    StaleAckLosesMessage(v, s, outId, [AckRange(1, 1)], b);
  }
}
