/** The thread that resends one application message, step by step, next to everybody else who changes
    the sender store. A step of the worker is one access to the store or one transmission. */
module ResendWorker {
  import opened Prelude
  import opened Stores
  import SM = SourceModel
  import SR = SourceRuns

  datatype Pc =
    | Start          // first query for the message
    | Wait           // is there an outgoing sequence id yet?
    | AdjustWait     // waiting loop: ask the adjuster
    | UpdateWait(goOn: bool)
    | Prepare        // address the message to the outgoing id
    | Fetch          // query for the message, before and after every resend
    | Retrieve       // resend: read the bean
    | Adjust         // resend: ask the adjuster
    | Update(goOn: bool)
    | Transmit
    | Recheck        // resend: is the bean still there?
    | WriteBack(copy: Bean)
    | Done

  /** maximum: the retransmission count of the policy; store: the stores everybody shares; local: the bean
      the worker holds. */
  datatype Worker = Worker(seqKey: string, msgId: string, maximum: int,
                           store: SM.Src, pc: Pc, local: Bean, transmissions: nat)

  /** Others(store): somebody else leaves the stores like this. */
  datatype Act =
    | Work(timedOut: bool, versionFound: bool)
    | Others(store: SM.Src)

  /** The others may do anything to properties, so that links come and go; with sender beans anything but put
      the message in or change its bean: acknowledgements and the terminate manager only remove, senders
      insert new ids, other workers write other beans. */
  ghost predicate Allowed(w: Worker, a: Act) {
    a.Others? && w.msgId in a.store.beans ==>
      w.msgId in w.store.beans && a.store.beans[w.msgId] == w.store.beans[w.msgId]
  }

  predicate IsLinked(store: SM.Src, s: string) { Key(s, OutgoingSequenceId) in store.props }

  function Stops(w: Worker, timedOut: bool): bool {
    (w.maximum > 0 && w.local.sentCount + 1 > w.maximum) || timedOut
  }

  /** The retransmission adjuster: count, and give the whole sequence up when it is enough. */
  ghost function Adjusted(w: Worker, timedOut: bool): Worker {
    var counted := w.local.(sentCount := w.local.sentCount + 1);
    if Stops(w, timedOut)
    then w.(local := counted.(send := false), store := SM.GiveUp(w.store, counted.internalSeq))
    else w.(local := counted)
  }

  function Written(store: SM.Src, b: Bean): SM.Src { store.(beans := Updated(store.beans, b)) }

  ghost function WorkStep(w: Worker, timedOut: bool, versionFound: bool): Worker {
    match w.pc
    case Start =>
      (match ToSend(w.store.beans, w.seqKey, w.msgId)
       case None => w.(pc := Done)
       case Some(b) => w.(local := b, pc := Wait))
    case Wait => if IsLinked(w.store, w.seqKey) then w.(pc := Prepare) else w.(pc := AdjustWait)
    case AdjustWait => Adjusted(w, timedOut).(pc := UpdateWait(!Stops(w, timedOut)))
    case UpdateWait(goOn) => w.(store := Written(w.store, w.local), pc := if goOn then Wait else Done)
    case Prepare => w.(pc := if versionFound then Fetch else Done)
    case Fetch => w.(pc := if ToSend(w.store.beans, w.seqKey, w.msgId).Some? then Retrieve else Done)
    case Retrieve =>
      if w.msgId in w.store.beans then w.(local := w.store.beans[w.msgId], pc := Adjust) else w.(pc := Done)
    case Adjust => Adjusted(w, timedOut).(pc := Update(!Stops(w, timedOut)))
    case Update(goOn) => w.(store := Written(w.store, w.local), pc := if goOn then Transmit else Done)
    case Transmit => w.(transmissions := w.transmissions + 1, pc := Recheck)
    case Recheck =>
      if w.msgId in w.store.beans && w.local.resend then w.(pc := WriteBack(w.store.beans[w.msgId]))
      else w.(pc := Fetch)
    case WriteBack(copy) =>
      w.(store := Written(w.store, copy.(sentCount := w.local.sentCount)), pc := Fetch)
    case Done => w
  }

  ghost function Step(w: Worker, a: Act): Worker {
    match a
    case Work(timedOut, versionFound) => WorkStep(w, timedOut, versionFound)
    case Others(store) => w.(store := store)
  }

  ghost function Exec(w: Worker, acts: seq<Act>): Worker
    decreases |acts|
  {
    if acts == [] then w else Exec(Step(w, acts[0]), acts[1..])
  }

  ghost predicate Schedule(w: Worker, acts: seq<Act>)
    decreases |acts|
  {
    acts != [] ==> Allowed(w, acts[0]) && Schedule(Step(w, acts[0]), acts[1..])
  }

  /** The number of steps of the worker itself. */
  function Works(acts: seq<Act>): nat {
    if acts == [] then 0 else Works(acts[1..]) + if acts[0].Work? then 1 else 0
  }

  // ---- an invariant -----------------------------------------------------------------------------

  /** The worker holds its own message's bean; between adjusting and rechecking the count it holds is
      the count in the store. */
  ghost predicate Right(w: Worker) {
    && (w.msgId in w.store.beans ==>
          w.store.beans[w.msgId].msgId == w.msgId && w.store.beans[w.msgId].internalSeq == w.seqKey)
    && Own(w)
    && (Holds(w.pc) ==> w.local.internalSeq == w.seqKey)
    && (w.pc.WriteBack? ==> w.pc.copy.internalSeq == w.seqKey)
    && (w.msgId in w.store.beans && Holds(w.pc) ==> SameMessage(w.local, w.store.beans[w.msgId]))
    && (w.msgId in w.store.beans && w.pc.WriteBack? ==> SameMessage(w.pc.copy, w.store.beans[w.msgId]))
    && (SameCount(w.pc) && w.msgId in w.store.beans ==> w.store.beans[w.msgId].sentCount == w.local.sentCount)
    && (Stopping(w.pc) ==> w.msgId !in w.store.beans)
  }

  /** Two states of one bean: the worker and the adjuster change nothing but the send flag and the count. */
  predicate SameMessage(a: Bean, b: Bean) { a.(send := b.send, sentCount := b.sentCount) == b }

  predicate Stopping(pc: Pc) { pc == UpdateWait(false) || pc == Update(false) }

  predicate Holds(pc: Pc) { !pc.Start? && !pc.Done? }

  /** The beans the worker holds are of its message. */
  predicate Own(w: Worker) {
    && (Holds(w.pc) ==> w.local.msgId == w.msgId)
    && (w.pc.WriteBack? ==> w.pc.copy.msgId == w.msgId)
  }

  predicate SameCount(pc: Pc) {
    pc.Wait? || pc.AdjustWait? || pc.Prepare? || pc.Adjust? || pc.Transmit? || pc.Recheck? || pc.WriteBack?
  }

  predicate Adjusts(pc: Pc) { pc.Adjust? || pc.AdjustWait? }

  predicate Writes(pc: Pc) { pc.Update? || pc.UpdateWait? || pc.WriteBack? }

  lemma RightAdjust(w: Worker, timedOut: bool, versionFound: bool)
    requires Right(w) && Adjusts(w.pc)
    ensures Right(WorkStep(w, timedOut, versionFound))
  {
  }

  lemma RightWrite(w: Worker, timedOut: bool, versionFound: bool)
    requires Right(w) && Writes(w.pc)
    ensures Right(WorkStep(w, timedOut, versionFound))
  {
  }

  predicate Reads(pc: Pc) { pc.Start? || pc.Retrieve? || pc.Recheck? }

  lemma RightRead(w: Worker, timedOut: bool, versionFound: bool)
    requires Right(w) && Reads(w.pc)
    ensures Right(WorkStep(w, timedOut, versionFound))
  {
  }

  lemma RightOther(w: Worker, timedOut: bool, versionFound: bool)
    requires Right(w) && !Adjusts(w.pc) && !Writes(w.pc)
    ensures Right(WorkStep(w, timedOut, versionFound))
  {
    if Reads(w.pc) { RightRead(w, timedOut, versionFound); }
  }

  lemma RightStep(w: Worker, a: Act)
    requires Right(w) && Allowed(w, a)
    ensures Right(Step(w, a))
  {
    if a.Work? {
      if Adjusts(w.pc) { RightAdjust(w, a.timedOut, a.versionFound); }
      else if Writes(w.pc) { RightWrite(w, a.timedOut, a.versionFound); }
      else { RightOther(w, a.timedOut, a.versionFound); }
    }
  }

  lemma UpdateIsAdjusted(store: SM.Src, b: Bean)
    requires b.msgId in store.beans ==> SameMessage(b, store.beans[b.msgId])
    ensures Written(store, b) == SR.Step(store, SR.Adjusted(b.msgId, b.send, b.sentCount))
  {
  }

  lemma WritesAreAdjusted(w: Worker, timedOut: bool, versionFound: bool)
    requires Right(w) && Writes(w.pc)
    ensures var after := WorkStep(w, timedOut, versionFound).store;
      exists send, count :: after == SR.Step(w.store, SR.Adjusted(w.msgId, send, count))
  {
    var b := if w.pc.WriteBack? then w.pc.copy.(sentCount := w.local.sentCount) else w.local;
    UpdateIsAdjusted(w.store, b);
    assert WorkStep(w, timedOut, versionFound).store == Written(w.store, b);
  }

  lemma OthersDoNotWrite(w: Worker, timedOut: bool, versionFound: bool)
    requires Right(w) && !Writes(w.pc)
    ensures WorkStep(w, timedOut, versionFound).store
         == if Adjusts(w.pc) && Stops(w, timedOut) then SM.GiveUp(w.store, w.seqKey) else w.store
  {
  }

  /** Seen from the stores, sender beans and properties alike, every step of the worker rewrites flag and count
      of its own message, or gives the sequence up, or does nothing: the events of the runs of the source. */
  lemma WorkIsSourceEvent(w: Worker, timedOut: bool, versionFound: bool)
    requires Right(w)
    ensures var after := WorkStep(w, timedOut, versionFound).store;
      if Writes(w.pc) then exists send, count :: after == SR.Step(w.store, SR.Adjusted(w.msgId, send, count))
      else after == if Adjusts(w.pc) && Stops(w, timedOut) then SR.Step(w.store, SR.GaveUp(w.seqKey)) else w.store
  {
    if Writes(w.pc) { WritesAreAdjusted(w, timedOut, versionFound); }
    else { OthersDoNotWrite(w, timedOut, versionFound); }
  }

  // ---- after an acknowledgement has removed the bean ------------------------------------------------

  /** The points from which one more transmission may come although the bean is gone. */
  predicate MayStillSend(w: Worker) {
    (w.pc.Adjust? && !Stops(w, false)) || w.pc == Update(true) || w.pc.Transmit?
  }

  function StillToSend(w: Worker): nat { w.transmissions + if MayStillSend(w) then 1 else 0 }

  lemma RemovedAdjust(w: Worker, timedOut: bool, versionFound: bool)
    requires Own(w) && Adjusts(w.pc) && w.msgId !in w.store.beans
    ensures var v := WorkStep(w, timedOut, versionFound);
      Own(v) && v.msgId !in v.store.beans && StillToSend(v) <= StillToSend(w)
  {
  }

  lemma RemovedStep(w: Worker, a: Act)
    requires Own(w) && Allowed(w, a) && w.msgId !in w.store.beans
    ensures var v := Step(w, a); Own(v) && v.msgId !in v.store.beans && StillToSend(v) <= StillToSend(w)
  {
    if a.Work? && Adjusts(w.pc) { RemovedAdjust(w, a.timedOut, a.versionFound); }
  }

  /** Once the bean is gone, no update of the worker brings it back, in no schedule, and the message goes out
      at most once more, and only from three points of the program. */
  lemma {:induction false} RemovedForGood(w: Worker, acts: seq<Act>)
    requires Own(w) && Schedule(w, acts) && w.msgId !in w.store.beans
    ensures w.msgId !in Exec(w, acts).store.beans
    ensures Exec(w, acts).transmissions <= StillToSend(w)
    decreases |acts|
  {
    if acts != [] {
      RemovedStep(w, acts[0]);
      RemovedForGood(Step(w, acts[0]), acts[1..]);
    }
  }

  /** The points are exact: in some schedule the message does go out once more. */
  lemma OneMoreTransmissionIff(w: Worker)
    requires Own(w) && w.msgId !in w.store.beans
    ensures (exists acts :: Schedule(w, acts) && Exec(w, acts).transmissions == w.transmissions + 1)
      <==> MayStillSend(w)
  {
    forall acts | Schedule(w, acts) && Exec(w, acts).transmissions == w.transmissions + 1
      ensures MayStillSend(w)
    {
      RemovedForGood(w, acts);
    }
    if MayStillSend(w) { CanSendAgain(w); }
  }

  lemma Prepend(w: Worker, a: Act, acts: seq<Act>)
    requires Allowed(w, a) && Schedule(Step(w, a), acts)
    ensures Schedule(w, [a] + acts) && Exec(w, [a] + acts) == Exec(Step(w, a), acts)
  {
    assert ([a] + acts)[1..] == acts;
  }

  lemma {:induction false} CanSendAgain(w: Worker)
    requires Own(w) && w.msgId !in w.store.beans && MayStillSend(w)
    ensures exists acts :: Schedule(w, acts) && Exec(w, acts).transmissions == w.transmissions + 1
    decreases if w.pc.Adjust? then 2 else if w.pc.Update? then 1 else 0
  {
    var go := Work(false, true);
    var acts := [];
    if !w.pc.Transmit? {
      CanSendAgain(Step(w, go));
      acts :| Schedule(Step(w, go), acts) && Exec(Step(w, go), acts).transmissions == w.transmissions + 1;
    }
    Prepend(w, go, acts);
  }

  /** The waiting loop, before the adjuster has ended it. */
  predicate Waiting(pc: Pc) { pc.Wait? || pc.AdjustWait? || pc == UpdateWait(true) }

  /** How many more steps a worker without a bean makes. */
  function StepsLeft(pc: Pc): nat {
    match pc
    case Done => 0
    case Start => 1
    case Fetch => 1
    case Retrieve => 1
    case Prepare => 2
    case Wait => 3
    case UpdateWait(_) => 4
    case AdjustWait => 5
    case WriteBack(_) => 2
    case Recheck => 2
    case Transmit => 3
    case Update(_) => 4
    case Adjust => 5
  }

  /** The outgoing id stays known while the others work. */
  ghost predicate LinkStays(w: Worker, acts: seq<Act>) {
    && IsLinked(w.store, w.seqKey)
    && forall i :: 0 <= i < |acts| && acts[i].Others? ==> IsLinked(acts[i].store, w.seqKey)
  }

  lemma ExitStep(w: Worker, a: Act)
    requires Own(w) && Allowed(w, a) && w.msgId !in w.store.beans
    requires IsLinked(w.store, w.seqKey) || !Waiting(w.pc)
    ensures var v := Step(w, a);
      && (if a.Work? && !w.pc.Done? then StepsLeft(v.pc) < StepsLeft(w.pc) else v.pc == w.pc)
      && (a.Work? ==> v.store.props == w.store.props || !Waiting(v.pc))
      && (!Waiting(w.pc) ==> !Waiting(v.pc))
  {
  }

  /** A worker whose bean is gone exits within five of its own steps, if it is past the waiting loop or the
      outgoing id is known and stays known: somebody else may delete it by giving the sequence up. */
  lemma {:induction false} ExitsSoonAfterRemoval(w: Worker, acts: seq<Act>)
    requires Own(w) && Schedule(w, acts) && w.msgId !in w.store.beans
    requires LinkStays(w, acts) || !Waiting(w.pc)
    requires Works(acts) >= StepsLeft(w.pc)
    ensures Exec(w, acts).pc == Done
    decreases |acts|
  {
    if acts != [] {
      RemovedStep(w, acts[0]);
      ExitStep(w, acts[0]);
      assert forall i :: 0 <= i < |acts[1..]| ==> acts[1..][i] == acts[i + 1];
      ExitsSoonAfterRemoval(Step(w, acts[0]), acts[1..]);
    }
  }

  // ---- termination ------------------------------------------------------------------------------------

  /** The count that decides how far the worker still is from the maximum. */
  function Count(w: Worker): int {
    if (w.pc.Start? || w.pc.Fetch? || w.pc.Retrieve?) && w.msgId in w.store.beans then w.store.beans[w.msgId].sentCount
    else w.local.sentCount
  }

  function Place(pc: Pc): nat {
    match pc
    case Start => 8
    case UpdateWait(_) => 8
    case Wait => 7
    case AdjustWait => 6
    case Prepare => 6
    case Update(_) => 8
    case Transmit => 7
    case Recheck => 6
    case WriteBack(_) => 5
    case Fetch => 4
    case Retrieve => 3
    case Adjust => 2
    case Done => 0
  }

  /** The maximum minus the count, then the place in the loop; a worker without a bean at one of
      its queries is about to leave. */
  function Rank(w: Worker): int {
    if w.pc.Done? then 0
    else if Stopping(w.pc) then 1
    else if (w.pc.Start? || w.pc.Fetch? || w.pc.Retrieve?) && w.msgId !in w.store.beans then Place(w.pc)
    else 7 * (w.maximum - Count(w)) + Place(w.pc)
  }

  ghost predicate Counted(w: Worker) {
    && Right(w) && w.maximum > 0
    && (w.msgId in w.store.beans ==> w.store.beans[w.msgId].sentCount <= w.maximum)
    && (Holds(w.pc) ==> w.local.sentCount <= w.maximum + if Stopping(w.pc) then 1 else 0)
  }

  lemma RankAdjust(w: Worker, timedOut: bool, versionFound: bool)
    requires Counted(w) && Adjusts(w.pc)
    ensures var v := WorkStep(w, timedOut, versionFound); Counted(v) && 0 <= Rank(v) < Rank(w)
  {
    RightAdjust(w, timedOut, versionFound);
  }

  lemma RankWrite(w: Worker, timedOut: bool, versionFound: bool)
    requires Counted(w) && Writes(w.pc)
    ensures var v := WorkStep(w, timedOut, versionFound); Counted(v) && 0 <= Rank(v) < Rank(w)
  {
    RightWrite(w, timedOut, versionFound);
  }

  lemma RankRead(w: Worker, timedOut: bool, versionFound: bool)
    requires Counted(w) && Reads(w.pc)
    ensures var v := WorkStep(w, timedOut, versionFound); Counted(v) && 0 <= Rank(v) < Rank(w)
  {
    RightRead(w, timedOut, versionFound);
  }

  lemma RankOther(w: Worker, timedOut: bool, versionFound: bool)
    requires Counted(w) && !Adjusts(w.pc) && !Writes(w.pc)
    ensures var v := WorkStep(w, timedOut, versionFound);
      Counted(v) && (if w.pc.Done? then v == w else 0 <= Rank(v) < Rank(w))
  {
    if Reads(w.pc) { RankRead(w, timedOut, versionFound); }
    else { RightOther(w, timedOut, versionFound); }
  }

  lemma RankDecreases(w: Worker, a: Act)
    requires Counted(w) && Allowed(w, a)
    ensures Counted(Step(w, a)) && 0 <= Rank(w)
    ensures if a.Work? && !w.pc.Done? then Rank(Step(w, a)) < Rank(w) else Rank(Step(w, a)) <= Rank(w)
  {
    if a.Work? {
      if Adjusts(w.pc) { RankAdjust(w, a.timedOut, a.versionFound); }
      else if Writes(w.pc) { RankWrite(w, a.timedOut, a.versionFound); }
      else { RankOther(w, a.timedOut, a.versionFound); }
    } else {
      RightStep(w, a);
    }
  }

  ghost predicate Bounded(w: Worker, steps: nat) {
    forall acts :: Schedule(w, acts) && Works(acts) >= steps ==> Exec(w, acts).pc == Done
  }

  lemma {:induction false} EndsWithinRank(w: Worker, acts: seq<Act>)
    requires Counted(w) && Schedule(w, acts) && Works(acts) >= Rank(w)
    ensures Exec(w, acts).pc == Done
    decreases |acts|
  {
    if acts == [] {
      RankDecreases(w, Others(w.store));
      assert w.pc != Done ==> Rank(w) > 0;
    } else {
      RankDecreases(w, acts[0]);
      EndsWithinRank(Step(w, acts[0]), acts[1..]);
    }
  }

  /** With a bounded retransmission count the worker terminates, in every schedule, however the
      acknowledgements, the links and the timeouts fall. */
  lemma TerminatesWithMaximum(w: Worker)
    requires Counted(w)
    ensures 0 <= Rank(w) && Bounded(w, Rank(w))
  {
    RankDecreases(w, Others(w.store));
    forall acts | Schedule(w, acts) && Works(acts) >= Rank(w)
      ensures Exec(w, acts).pc == Done
    {
      EndsWithinRank(w, acts);
    }
  }

  // ---- without a maximum ----------------------------------------------------------------------------------

  function Repeat(n: nat): seq<Act> { if n == 0 then [] else [Work(false, true)] + Repeat(n - 1) }

  predicate StillSending(w: Worker) {
    && w.msgId in w.store.beans && !w.pc.Done? && !Stopping(w.pc) && w.pc != Start
    && var b := w.store.beans[w.msgId];
    && b.msgId == w.msgId && b.internalSeq == w.seqKey && b.msgType == Application && b.send
    && w.local.(sentCount := 0) == b.(sentCount := 0)
    && (w.pc.WriteBack? ==> w.pc.copy.(sentCount := 0) == b.(sentCount := 0))
  }

  lemma {:induction false} GoesOn(w: Worker, n: nat)
    requires StillSending(w) && w.maximum <= 0
    ensures Schedule(w, Repeat(n)) && Works(Repeat(n)) == n && Exec(w, Repeat(n)).pc != Done
    decreases n
  {
    if n > 0 {
      GoesOn(Step(w, Work(false, true)), n - 1);
      assert Repeat(n)[1..] == Repeat(n - 1);
    }
  }

  function NewWorker(b: Bean, maximum: int): Worker {
    Worker(b.internalSeq, b.msgId, maximum, SM.Src(map[], map[b.msgId := b]), Start, b, 0)
  }

  /** The policy decides: a worker for a stored message ends within a bounded number of its steps in
      all schedules if and only if the retransmission count is positive. Otherwise a message that is
      never acknowledged keeps its thread for ever (unless the sequence times out). */
  lemma TerminatesIffMaximum(b: Bean, maximum: int)
    requires b.msgType == Application && b.send && b.sentCount == -1
    ensures (exists steps :: Bounded(NewWorker(b, maximum), steps)) <==> maximum > 0
  {
    var w := NewWorker(b, maximum);
    if maximum > 0 {
      TerminatesWithMaximum(w);
      assert Bounded(w, Rank(w));
    } else {
      forall steps: nat
        ensures !Bounded(w, steps)
      {
        GoesOn(Step(w, Work(false, true)), steps);
        Prepend(w, Work(false, true), Repeat(steps));
        var acts := [Work(false, true)] + Repeat(steps);
        assert acts[1..] == Repeat(steps);
        assert Schedule(w, acts) && Works(acts) >= steps && Exec(w, acts).pc != Done;
      }
    }
  }

  // ---- how often a message is sent ------------------------------------------------------------------------

  /** The adjuster counts, and gives the sequence up exactly on a timeout or when the message has been counted as
      often as the policy allows; otherwise it touches nothing and lets the worker go on. */
  lemma GivesUpIff(w: Worker, timedOut: bool, versionFound: bool)
    requires Right(w) && Adjusts(w.pc)
    ensures var v := WorkStep(w, timedOut, versionFound);
      && v.local.sentCount == w.local.sentCount + 1
      && (if timedOut || 0 < w.maximum <= w.local.sentCount
          then v.store == SM.GiveUp(w.store, w.seqKey) && Stopping(v.pc) && !v.local.send
          else v.store == w.store && (v.pc == Update(true) || v.pc == UpdateWait(true)) && v.local.send == w.local.send)
  {
  }

  /** The two queries find the message exactly when its bean is there and is an application message of the sequence
      that is still to be sent; a worker that does not find it ends. */
  lemma QueryFindsIff(w: Worker, timedOut: bool, versionFound: bool)
    requires w.pc.Start? || w.pc.Fetch?
    ensures var id, v := w.msgId, WorkStep(w, timedOut, versionFound);
      var there := id in w.store.beans && w.store.beans[id].internalSeq == w.seqKey
        && w.store.beans[id].msgType == Application && w.store.beans[id].send;
      v.pc == (if !there then Done else if w.pc.Start? then Wait else Retrieve) && v.store == w.store
  {
  }

  /** Where the worker's other questions lead: it leaves the waiting loop when the outgoing id is stored, ends when
      the version is not found, and writes the count back when the bean is still there and may be resent. */
  lemma TurnsIff(w: Worker, timedOut: bool, versionFound: bool)
    ensures var v := WorkStep(w, timedOut, versionFound);
      && (w.pc.Wait? ==> v.pc == if Key(w.seqKey, OutgoingSequenceId) in w.store.props then Prepare else AdjustWait)
      && (w.pc.Prepare? ==> v.pc == if versionFound then Fetch else Done)
      && (w.pc.Recheck? ==> (v.pc.WriteBack? <==> w.msgId in w.store.beans && w.local.resend) && !v.pc.Done?)
      && (w.pc.Retrieve? ==> v.pc == if w.msgId in w.store.beans then Adjust else Done)
      && (v.transmissions == w.transmissions + if w.pc.Transmit? then 1 else 0)
  {
  }

  /** Nobody else acts, nothing times out, and the version is found. */
  ghost predicate Quiet(w: Worker, acts: seq<Act>)
    decreases |acts|
  {
    acts != [] ==>
      && (if acts[0].Work? then !acts[0].timedOut && acts[0].versionFound else acts[0].store == w.store)
      && Quiet(Step(w, acts[0]), acts[1..])
  }

  /** The message is there to be sent, and the outgoing id is known. */
  ghost predicate Ready(w: Worker) {
    && Right(w) && w.maximum > 0 && w.msgId in w.store.beans && IsLinked(w.store, w.seqKey)
    && var b := w.store.beans[w.msgId];
    && b.msgType == Application && b.send && b.sentCount <= w.maximum
    && (Holds(w.pc) ==> w.local.send && w.local.sentCount <= w.maximum)
    && !w.pc.Done? && !w.pc.AdjustWait? && !w.pc.UpdateWait?
    && (w.pc.WriteBack? ==> w.pc.copy.send)
  }

  /** How many transmissions are still to come. */
  function ToCome(w: Worker): int {
    if w.pc.Done? || Stopping(w.pc) then 0
    else if w.pc.Adjust? || w.pc.Recheck? || w.pc.WriteBack? then w.maximum - w.local.sentCount
    else if w.pc.Update? || w.pc.Transmit? then w.maximum - w.local.sentCount + 1
    else if w.msgId in w.store.beans then w.maximum - w.store.beans[w.msgId].sentCount
    else 0
  }

  ghost predicate Over(w: Worker) { (w.pc.Done? || w.pc == Update(false)) && w.msgId !in w.store.beans && Own(w) }

  lemma ReadyAdjust(w: Worker)
    requires Ready(w) && w.pc.Adjust?
    ensures var v := WorkStep(w, false, true);
      (Ready(v) || Over(v)) && v.transmissions + ToCome(v) == w.transmissions + ToCome(w)
  {
    RightAdjust(w, false, true);
  }

  lemma ReadyWrite(w: Worker)
    requires Ready(w) && Writes(w.pc)
    ensures var v := WorkStep(w, false, true); Ready(v) && v.transmissions + ToCome(v) == w.transmissions + ToCome(w)
  {
    RightWrite(w, false, true);
  }

  lemma ReadyOther(w: Worker)
    requires Ready(w) && !w.pc.Adjust? && !Writes(w.pc)
    ensures var v := WorkStep(w, false, true); Ready(v) && v.transmissions + ToCome(v) == w.transmissions + ToCome(w)
  {
    RightOther(w, false, true);
  }

  lemma {:induction false} SentAsPromised(w: Worker, acts: seq<Act>)
    requires (Ready(w) || Over(w)) && Quiet(w, acts)
    ensures var v := Exec(w, acts);
      (Ready(v) || Over(v)) && v.msgId == w.msgId && v.transmissions + ToCome(v) == w.transmissions + ToCome(w)
    decreases |acts|
  {
    if acts != [] {
      if acts[0].Work? && Ready(w) {
        if w.pc.Adjust? { ReadyAdjust(w); } else if Writes(w.pc) { ReadyWrite(w); } else { ReadyOther(w); }
      }
      SentAsPromised(Step(w, acts[0]), acts[1..]);
    }
  }

  lemma {:induction false} QuietIsSchedule(w: Worker, acts: seq<Act>)
    requires Quiet(w, acts)
    ensures Schedule(w, acts)
    decreases |acts|
  {
    if acts != [] { QuietIsSchedule(Step(w, acts[0]), acts[1..]); }
  }

  /** A message that is never acknowledged, in a sequence with a known outgoing id, goes out exactly once more often
      than the policy's retransmission count; then its sequence is given up and the worker ends. */
  lemma SentMaximumPlusOne(b: Bean, maximum: int, store: SM.Src, acts: seq<Act>)
    requires maximum > 0 && b.msgType == Application && b.send && b.sentCount == -1
    requires b.msgId in store.beans && store.beans[b.msgId] == b && IsLinked(store, b.internalSeq)
    requires var w := NewWorker(b, maximum).(store := store); Quiet(w, acts) && Works(acts) >= 7 * (maximum + 1) + 8
    ensures var v := Exec(NewWorker(b, maximum).(store := store), acts);
      v.pc == Done && v.transmissions == maximum + 1 && b.msgId !in v.store.beans
  {
    var w := NewWorker(b, maximum).(store := store);
    SentAsPromised(w, acts);
    QuietIsSchedule(w, acts);
    TerminatesWithMaximum(w);
    assert Rank(w) == 7 * (maximum + 1) + 8;
  }

  // ---- waiting without a bean --------------------------------------------------------------------------------

  lemma {:induction false} WaitsOn(w: Worker, n: nat)
    requires Own(w) && w.msgId !in w.store.beans && Waiting(w.pc) && w.maximum <= 0
    requires !IsLinked(w.store, w.seqKey)
    ensures Schedule(w, Repeat(n)) && Works(Repeat(n)) == n && Exec(w, Repeat(n)).pc != Done
    decreases n
  {
    if n > 0 {
      WaitsOn(Step(w, Work(false, true)), n - 1);
      assert Repeat(n)[1..] == Repeat(n - 1);
    }
  }

  /** A worker whose message is gone is sure to end if and only if it has left the waiting loop or the
      retransmission count is positive: otherwise the sequence may be given up under it, and it waits for
      ever for an outgoing id that was deleted. */
  lemma EndsAfterRemovalIff(w: Worker)
    requires Right(w) && w.msgId !in w.store.beans
    requires w.maximum > 0 ==> Counted(w)
    ensures (exists steps :: Bounded(w, steps)) <==> !Waiting(w.pc) || w.maximum > 0
  {
    if w.maximum > 0 {
      TerminatesWithMaximum(w);
      assert Bounded(w, Rank(w));
    } else if !Waiting(w.pc) {
      forall acts | Schedule(w, acts) && Works(acts) >= StepsLeft(w.pc)
        ensures Exec(w, acts).pc == Done
      {
        ExitsSoonAfterRemoval(w, acts);
      }
      assert Bounded(w, StepsLeft(w.pc));
    } else {
      forall steps: nat
        ensures !Bounded(w, steps)
      {
        var cut := Others(SM.Src(map[], w.store.beans));
        WaitsOn(Step(w, cut), steps);
        Prepend(w, cut, Repeat(steps));
        var acts := [cut] + Repeat(steps);
        assert acts[1..] == Repeat(steps);
        assert Schedule(w, acts) && Works(acts) >= steps && Exec(w, acts).pc != Done;
      }
    }
  }
}
