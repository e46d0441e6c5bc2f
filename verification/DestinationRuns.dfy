/** What holds of the destination over whole runs. */
module DestinationRuns {
  import opened Prelude
  import opened AckRanges
  import opened DestinationModel

  datatype Event =
    | Received(m: Message, p: Pass)
    | Opened(s: string)
    | Closed(s: string)

  function Step(d: Dest, e: Event): Dest {
    match e
    case Received(m, p) => Receive(d, m, p).dest
    case Opened(s) => Open(d, s)
    case Closed(s) => Close(d, s)
  }

  /** The state after a run that starts in d. */
  function After(d: Dest, es: seq<Event>): Dest {
    if es == [] then d else Step(After(d, es[..|es| - 1]), es[|es| - 1])
  }

  /** Ids of new sequences are generated, so nothing is stored under them yet. */
  ghost predicate Feasible(d: Dest, es: seq<Event>) {
    es != [] ==>
      && Feasible(d, es[..|es| - 1])
      && (es[|es| - 1].Opened? ==> Fresh(After(d, es[..|es| - 1]), es[|es| - 1].s))
  }

  /** What one event hands to the application: a message put into the invoker queue, or one that leaves
      the handlers without being paused. */
  function HandedBy(d: Dest, e: Event): seq<Invocation> {
    if !e.Received? then []
    else
      var o := Receive(d, e.m, e.p);
      if !o.paused then [Invocation(e.m.seqId, e.m.number)]
      else if o.dest.queue != d.queue then [Invocation(e.m.seqId, e.m.number)]
      else []
  }

  function Handed(d: Dest, es: seq<Event>): seq<Invocation> {
    if es == [] then []
    else Handed(d, es[..|es| - 1]) + HandedBy(After(d, es[..|es| - 1]), es[|es| - 1])
  }

  // ---- one step -----------------------------------------------------------------------------

  /** The number gets into the list, unless it is there: on an open sequence always, and everywhere
      when the body is empty, since the in handler records it before the processor refuses. */
  predicate Takes(d: Dest, m: Message) {
    m.number != 0 && (!Refused(d, m.seqId) || (!Isolated(m) && 1 <= m.number && !m.bodyChild))
  }

  predicate Raises(d: Dest, m: Message) {
    && !Refused(d, m.seqId) && m.number != 0 && m.number > Highest(d, m.seqId)
    && (Isolated(m) || m.number < 1 || m.number !in Listed(d, m.seqId))
  }

  /** Only the sequence of the message changes: its list may grow at the end by the message's number. */
  ghost predicate Grew(d: Dest, e: Dest, s: string, n: int) {
    && e.known == d.known && e.closed == d.closed
    && (forall t :: t != s ==> Listed(e, t) == Listed(d, t) && Highest(e, t) == Highest(d, t))
    && Listed(d, s) <= Listed(e, s)
    && (forall x :: x in Listed(e, s) ==> x in Listed(d, s) || x == n)
  }

  lemma RecordGrows(d: Dest, s: string, n: int)
    ensures Grew(d, Record(d, s, n), s, n) && n in Listed(Record(d, s, n), s)
    ensures Highest(Record(d, s, n), s) == Highest(d, s) && Record(d, s, n).queue == d.queue
  {
  }

  lemma RaiseKeepsLists(d: Dest, s: string, n: int)
    ensures var e := RaiseHighest(d, s, n);
      && e.lists == d.lists && e.known == d.known && e.closed == d.closed && e.queue == d.queue
      && (forall t :: t != s ==> Highest(e, t) == Highest(d, t))
      && (Highest(e, s) == if n > Highest(d, s) then n else Highest(d, s))
  {
  }

  lemma DeliverEffect(d: Dest, s: string, n: int, present: bool, last: bool, p: Pass)
    ensures var e := Deliver(d, s, n, present, last, p).dest;
      && e.(queue := d.queue) == d
      && (e.queue == d.queue || (!last && e.queue == d.queue + [Invocation(s, n)]))
  {
  }

  lemma ProcessEffect(d: Dest, s: string, n: int, last: bool, p: Pass)
    ensures var e := Process(d, s, n, last, p).dest;
      && Grew(d, e, s, n)
      && (n in Listed(e, s) <==> n in Listed(d, s) || (!Refused(d, s) && n != 0))
      && (Highest(e, s) == if !Refused(d, s) && n > Highest(d, s) && n != 0 then n else Highest(d, s))
      && (e.queue == d.queue || e.queue == d.queue + [Invocation(s, n)])
      && (e.queue != d.queue ==> !last && n != 0 && !Refused(d, s))
  {
    if !Refused(d, s) && n != 0 {
      var present := p.byContent && n in Listed(d, s);
      var raised := RaiseHighest(d, s, n);
      var listed := if present then raised else Record(raised, s, n);
      RaiseKeepsLists(d, s, n);
      RecordGrows(raised, s, n);
      assert Grew(d, listed, s, n);
      DeliverEffect(listed, s, n, present, last, p);
    }
  }

  /** What one message does to the state. */
  lemma ReceiveEffect(d: Dest, m: Message, p: Pass)
    ensures var e, s, n := Receive(d, m, p).dest, m.seqId, m.number;
      && Grew(d, e, s, n)
      && (n in Listed(e, s) <==> n in Listed(d, s) || Takes(d, m))
      && (Highest(e, s) == if Raises(d, m) then n else Highest(d, s))
      && (e.queue == d.queue || e.queue == d.queue + [Invocation(s, n)])
      && (e.queue != d.queue ==> n != 0 && Takes(d, m) && (1 <= n ==> n !in Listed(d, s)))
  {
    var s, n := m.seqId, m.number;
    RecordGrows(d, s, n);
    ProcessEffect(d, s, n, true, p);
    ProcessEffect(d, s, n, LastAction(m), p);
    ProcessEffect(Record(d, s, n), s, n, true, p);
  }

  /** Lists only grow at the end, by the numbers of received messages; only their own events make a
      sequence known or closed. */
  lemma StepLists(d: Dest, e: Event, s: string)
    requires e == Opened(s) ==> Fresh(d, s)
    ensures Listed(d, s) <= Listed(Step(d, e), s)
    ensures forall n :: n in Listed(Step(d, e), s) ==>
      n in Listed(d, s) || (e.Received? && e.m.seqId == s && e.m.number == n && Takes(d, e.m))
    ensures s in Step(d, e).known <==> s in d.known || e == Opened(s)
    ensures s in Step(d, e).closed <==> s in d.closed || (e == Closed(s) && s in d.known)
    ensures !e.Received? ==> Listed(Step(d, e), s) == Listed(d, s)
  {
    if e.Received? { ReceiveEffect(d, e.m, e.p); }
  }

  /** A message with a number already listed is handed over again exactly when it is an isolated last
      message that either meets a refused sequence while the fault cannot be sent, or meets an open
      one while the string comparison goes by address and the service cannot be found. */
  lemma HandedAgainIff(d: Dest, m: Message, p: Pass)
    requires m.number in Listed(d, m.seqId) && 1 <= m.number
    ensures HandedBy(d, Received(m, p)) != [] <==>
      && Isolated(m)
      && (if Refused(d, m.seqId) then !p.faultSent else !p.byContent && !p.serviceFound)
  {
  }

  /** A new number is handed over without getting into the list exactly when the sequence is refused and the
      fault cannot be sent, except that an empty body is recorded even then. */
  lemma HandedUnlistedIff(d: Dest, m: Message, p: Pass)
    requires m.number !in Listed(d, m.seqId) && 1 <= m.number
    ensures HandedBy(d, Received(m, p)) != [] && m.number !in Listed(Receive(d, m, p).dest, m.seqId)
      <==> Refused(d, m.seqId) && !p.faultSent && (Isolated(m) || m.bodyChild)
  {
    ReceiveEffect(d, m, p);
  }

  /** When a new number gets into the list, and so is acknowledged, although nothing is handed over. With a
      body or isolated: it is a last message on an open sequence and the service is found. With an empty
      body: the sequence is refused and the fault can be sent, or it is open and the service or the number
      just recorded is found. */
  lemma ListedUnhandedIff(d: Dest, m: Message, p: Pass)
    requires m.number !in Listed(d, m.seqId) && 1 <= m.number
    ensures HandedBy(d, Received(m, p)) == [] && m.number in Listed(Receive(d, m, p).dest, m.seqId)
      <==> if Isolated(m) || m.bodyChild
           then !Refused(d, m.seqId) && p.serviceFound && (Isolated(m) || LastAction(m))
           else if Refused(d, m.seqId) then p.faultSent else p.serviceFound || p.byContent
  {
    ReceiveEffect(d, m, p);
  }

  /** A redelivered message changes neither queue nor highest number nor flags nor what the list contains,
      on open, closed and unknown sequences alike. */
  lemma RedeliveryKeeps(es: seq<Event>, m: Message, p: Pass)
    requires Feasible(EMPTY, es)
    requires m.number in Listed(After(EMPTY, es), m.seqId) && 1 <= m.number
    ensures var d, e := After(EMPTY, es), Receive(After(EMPTY, es), m, p).dest;
      && e.queue == d.queue && e.highest == d.highest && e.closed == d.closed && e.known == d.known
      && (e.lists == d.lists <==> !Isolated(m) || Refused(d, m.seqId) || p.byContent)
      && forall s, n :: n in Listed(e, s) <==> n in Listed(d, s)
  {
    HighestTracksList(es);
    RedeliveredStep(After(EMPTY, es), m, p);
  }

  lemma RedeliveredStep(d: Dest, m: Message, p: Pass)
    requires m.number in Listed(d, m.seqId) && 1 <= m.number
    requires !Refused(d, m.seqId) ==> m.number <= Highest(d, m.seqId)
    ensures var e := Receive(d, m, p).dest;
      && e.queue == d.queue && e.highest == d.highest && e.closed == d.closed && e.known == d.known
      && (e.lists == d.lists <==> !Isolated(m) || Refused(d, m.seqId) || p.byContent)
      && forall s, n :: n in Listed(e, s) <==> n in Listed(d, s)
  {
    var e := Receive(d, m, p).dest;
    var s := m.seqId;
    if Isolated(m) && !Refused(d, s) && !p.byContent {
      assert |Listed(e, s)| == |Listed(d, s)| + 1;
    }
  }

  // ---- what one message gets, by its fields -----------------------------------------------------

  /** No action, no body element, only the marker says that this is a last message. */
  predicate Bare(m: Message) { m.wsaAction.None? && m.soapAction.None? && m.lastMarker && !m.bodyElement }

  /** Which messages reach the place where acknowledgements are made: those the in handler drops as duplicates, and
      those on open sequences whose service is found, last messages included. */
  lemma AnsweredIff(d: Dest, m: Message, p: Pass)
    ensures var s, n := m.seqId, m.number; Receive(d, m, p).acking <==>
      || (m.wsaAction != Some(LastMessage) && !Bare(m) && 1 <= n && n in Listed(d, s))
      || (n != 0 && s in d.known && s !in d.closed && p.serviceFound)
  {
  }

  /** On a server that invokes in order, the messages that enter the invoker queue: those on open sequences whose
      service is found, that are no last messages, and are either new with a body or negative. */
  predicate Enters(d: Dest, m: Message, p: Pass) {
    && m.seqId in d.known && m.seqId !in d.closed && p.serviceFound && p.serverSide && p.inOrder
    && m.wsaAction != Some(LastMessage) && m.soapAction != Some(LastMessage) && !Bare(m)
    && (m.number < 0 || (1 <= m.number && m.bodyChild && m.number !in Listed(d, m.seqId)))
  }

  lemma QueuedIff(d: Dest, m: Message, p: Pass)
    ensures Receive(d, m, p).dest.queue
         == if Enters(d, m, p) then d.queue + [Invocation(m.seqId, m.number)] else d.queue
  {
    if 1 <= m.number && !m.bodyChild && !Isolated(m) && m.number !in Listed(d, m.seqId) {
      ProcessEffect(Record(d, m.seqId, m.number), m.seqId, m.number, true, p);
    }
  }

  /** A new application message whose service is found is queued on a server that invokes in order, and
      passed on to the application everywhere else. */
  lemma QueuedOrPassedOn(d: Dest, m: Message, p: Pass)
    requires Proper(m) && m.seqId in d.known && m.seqId !in d.closed && m.number !in Listed(d, m.seqId)
    requires p.serviceFound
    ensures var o := Receive(d, m, p);
      && o.paused == (p.serverSide && p.inOrder) && o.ok == p.ackSent
      && o.dest.queue == d.queue + if p.serverSide && p.inOrder then [Invocation(m.seqId, m.number)] else []
  {
  }

  /** A last message without actions and body element on an open sequence whose service is found: it is never dropped
      by the in handler, which would leave list and status alone, is listed, and never handed over. */
  lemma BareLastMessage(d: Dest, m: Message, p: Pass)
    requires m.wsaAction.None? && m.soapAction.None? && m.lastMarker && !m.bodyElement
    requires m.seqId in d.known && m.seqId !in d.closed && m.number != 0 && p.serviceFound
    ensures var o, s, n := Receive(d, m, p), m.seqId, m.number;
      && Listed(o.dest, s) == (if p.byContent && n in Listed(d, s) then Listed(d, s) else Listed(d, s) + [n])
      && HandedBy(d, Received(m, p)) == [] && o.paused && !o.ok && o.acking && o.dest.queue == d.queue
  {
  }

  /** So is a new message with either last message action, whatever its body. */
  lemma LastActionKept(d: Dest, m: Message, p: Pass)
    requires m.wsaAction == Some(LastMessage) || m.soapAction == Some(LastMessage)
    requires m.seqId in d.known && m.seqId !in d.closed && p.serviceFound
    requires 1 <= m.number && m.number !in Listed(d, m.seqId)
    ensures var o := Receive(d, m, p);
      && m.number in Listed(o.dest, m.seqId) && HandedBy(d, Received(m, p)) == []
      && o.paused && !o.ok && o.acking && o.dest.queue == d.queue
  {
    ReceiveEffect(d, m, p);
  }

  /** Number 0 on an open sequence is not recorded and goes on to the application, although the processor fails. */
  lemma NumberZero(d: Dest, m: Message, p: Pass)
    requires m.seqId in d.known && m.seqId !in d.closed && m.number == 0
    ensures var o := Receive(d, m, p); o.dest == d && !o.paused && !o.ok && !o.acking
  {
  }

  /** On an open sequence whose service is not found every other message is listed and, unless it is dropped as a
      duplicate, neither queued nor acknowledged; the processor fails, and only a number that is found in the
      list by its content is held back. */
  lemma ServiceMissing(d: Dest, m: Message, p: Pass)
    requires m.seqId in d.known && m.seqId !in d.closed && m.number != 0 && !p.serviceFound
    requires m.wsaAction == Some(LastMessage) || Bare(m) || m.number < 1 || m.number !in Listed(d, m.seqId)
    ensures var o, s, n := Receive(d, m, p), m.seqId, m.number;
      var recorded := 1 <= n && !m.bodyChild && m.wsaAction != Some(LastMessage) && !Bare(m);
      && n in Listed(o.dest, s) && o.dest.queue == d.queue && !o.ok && !o.acking
      && (o.paused <==> p.byContent && (n in Listed(d, s) || recorded))
  {
    ReceiveEffect(d, m, p);
  }

  /** A message with a body for an unknown or closed sequence leaves no trace; it is held back exactly when it is
      dropped as a duplicate or the fault can be sent. */
  lemma RefusedLeavesNoTrace(d: Dest, m: Message, p: Pass)
    requires m.seqId !in d.known || m.seqId in d.closed
    requires m.bodyChild || m.number < 1
    ensures var o := Receive(d, m, p);
      var dropped := 1 <= m.number && m.number in Listed(d, m.seqId) && m.wsaAction != Some(LastMessage) && !Bare(m);
      o.dest == d && o.paused == (p.faultSent || dropped) && o.ok == o.paused
  {
  }

  // ---- at most once ---------------------------------------------------------------------------

  ghost predicate ListedWhenHanded(d: Dest, handed: seq<Invocation>) {
    forall v :: v in handed && 1 <= v.number ==> v.number in Listed(d, v.seqId)
  }

  ghost predicate OncePositive(handed: seq<Invocation>) {
    forall i, j :: 0 <= i < j < |handed| && 1 <= handed[i].number ==> handed[i] != handed[j]
  }

  lemma OnceMore(d: Dest, e: Event, handed: seq<Invocation>, more: seq<Invocation>)
    requires e.Opened? ==> Fresh(d, e.s)
    requires ListedWhenHanded(d, handed) && OncePositive(handed)
    requires more != [] ==>
      && e.Received? && more == [Invocation(e.m.seqId, e.m.number)]
      && (1 <= e.m.number ==> e.m.number in Listed(Step(d, e), e.m.seqId) && e.m.number !in Listed(d, e.m.seqId))
    ensures ListedWhenHanded(Step(d, e), handed + more) && OncePositive(handed + more)
  {
    forall v | v in handed + more && 1 <= v.number
      ensures v.number in Listed(Step(d, e), v.seqId)
    {
      StepLists(d, e, v.seqId);
    }
    if more != [] {
      assert forall i :: 0 <= i < |handed| ==> handed[i] in handed;
    }
  }

  /** Whatever the surroundings do, no number of a sequence enters the invoker queue twice. */
  lemma {:induction false} QueuedAtMostOnce(es: seq<Event>)
    requires Feasible(EMPTY, es)
    ensures OncePositive(After(EMPTY, es).queue)
    ensures ListedWhenHanded(After(EMPTY, es), After(EMPTY, es).queue)
  {
    if es != [] {
      var front, e := es[..|es| - 1], es[|es| - 1];
      QueuedAtMostOnce(front);
      var d := After(EMPTY, front);
      if e.Received? { ReceiveEffect(d, e.m, e.p); }
      var more := Step(d, e).queue[|d.queue|..];
      OnceMore(d, e, d.queue, more);
    }
  }

  ghost predicate InQueueTwice(d: Dest, v: Invocation) {
    exists i, j :: 0 <= i < j < |d.queue| && d.queue[i] == v && d.queue[j] == v
  }

  const PLAIN := Pass(true, true, true, true, true, true, false)

  function Ordinary(s: string, n: int): Message { Message(s, n, None, None, false, true, true) }

  lemma Extend(d: Dest, es: seq<Event>, e: Event)
    ensures After(d, es + [e]) == Step(After(d, es), e)
    ensures Feasible(d, es + [e]) <==> Feasible(d, es) && (e.Opened? ==> Fresh(After(d, es), e.s))
  {
    assert (es + [e])[..|es|] == es;
  }

  lemma ExtendHanded(d: Dest, es: seq<Event>, e: Event)
    ensures Handed(d, es + [e]) == Handed(d, es) + HandedBy(After(d, es), e)
  {
    assert (es + [e])[..|es|] == es;
  }

  lemma NegativeQueued(d: Dest, s: string, n: int)
    requires n < 0 && !Refused(d, s)
    ensures var e := Step(d, Received(Ordinary(s, n), PLAIN));
      e.queue == d.queue + [Invocation(s, n)] && !Refused(e, s)
  {
  }

  lemma QueuedAgain(es: seq<Event>, s: string, n: int)
    requires n < 0 && Feasible(EMPTY, es) && !Refused(After(EMPTY, es), s)
    ensures exists fs :: Feasible(EMPTY, fs) && InQueueTwice(After(EMPTY, fs), Invocation(s, n))
  {
    var v, e := Invocation(s, n), Received(Ordinary(s, n), PLAIN);
    var once := es + [e];
    Extend(EMPTY, es, e);
    Extend(EMPTY, once, e);
    NegativeQueued(After(EMPTY, es), s, n);
    NegativeQueued(After(EMPTY, once), s, n);
    var q, d := After(EMPTY, es).queue, After(EMPTY, once + [e]);
    assert d.queue == q + [v] + [v];
    assert d.queue[|q|] == v && d.queue[|q| + 1] == v;
    assert InQueueTwice(d, v);
  }

  lemma NegativeQueuedTwice(s: string, n: int)
    requires n < 0
    ensures exists es :: Feasible(EMPTY, es) && InQueueTwice(After(EMPTY, es), Invocation(s, n))
  {
    Extend(EMPTY, [], Opened(s));
    QueuedAgain([] + [Opened(s)], s, n);
  }

  /** Numbers are read with atol and the handler's scan skips the negative ones, while the processor
      rejects only zero: exactly the negative numbers can be queued again. */
  lemma QueuedTwiceIffNegative(s: string, n: int)
    ensures (exists es :: Feasible(EMPTY, es) && InQueueTwice(After(EMPTY, es), Invocation(s, n))) <==> n < 0
  {
    var v := Invocation(s, n);
    if n < 0 { NegativeQueuedTwice(s, n); }
    forall es | Feasible(EMPTY, es) && InQueueTwice(After(EMPTY, es), v)
      ensures n < 0
    {
      QueuedAtMostOnce(es);
      ZeroNeverQueued(es);
      assert v in After(EMPTY, es).queue;
    }
  }

  lemma {:induction false} ZeroNeverQueued(es: seq<Event>)
    ensures forall v :: v in After(EMPTY, es).queue ==> v.number != 0
  {
    if es != [] {
      ZeroNeverQueued(es[..|es| - 1]);
      var d, e := After(EMPTY, es[..|es| - 1]), es[|es| - 1];
      if e.Received? { ReceiveEffect(d, e.m, e.p); }
    }
  }

  // ---- handed over at most once -----------------------------------------------------------------

  /** The fault can be sent, and either strings are compared by content or the service is found. */
  predicate Reliable(p: Pass) { p.faultSent && (p.byContent || p.serviceFound) }

  predicate Carries(e: Event, s: string, n: int) { e.Received? && e.m.seqId == s && e.m.number == n }

  ghost predicate ReliableFor(es: seq<Event>, s: string, n: int) {
    forall i :: 0 <= i < |es| && Carries(es[i], s, n) ==> Reliable(es[i].p)
  }

  /** How often a number was handed over. */
  ghost function Times(handed: seq<Invocation>, s: string, n: int): nat { multiset(handed)[Invocation(s, n)] }

  lemma HandedByOthers(d: Dest, e: Event, s: string, n: int)
    requires !Carries(e, s, n) && (e.Opened? ==> Fresh(d, e.s))
    ensures Times(HandedBy(d, e), s, n) == 0
    ensures n in Listed(Step(d, e), s) <==> n in Listed(d, s)
  {
    StepLists(d, e, s);
  }

  lemma ReliableStep(d: Dest, e: Event, s: string, n: int)
    requires Carries(e, s, n) && 1 <= n && Reliable(e.p)
    ensures Times(HandedBy(d, e), s, n) <= if n in Listed(d, s) then 0 else 1
    ensures Times(HandedBy(d, e), s, n) == 1 ==> n in Listed(Step(d, e), s)
    ensures n in Listed(d, s) ==> n in Listed(Step(d, e), s)
  {
    StepLists(d, e, s);
    if n in Listed(d, s) { HandedAgainIff(d, e.m, e.p); } else { HandedUnlistedIff(d, e.m, e.p); }
  }

  lemma {:induction false} TimesAtMostListed(es: seq<Event>, s: string, n: int)
    requires Feasible(EMPTY, es) && ReliableFor(es, s, n) && 1 <= n
    ensures Times(Handed(EMPTY, es), s, n) <= if n in Listed(After(EMPTY, es), s) then 1 else 0
  {
    if es != [] {
      var front, e := es[..|es| - 1], es[|es| - 1];
      assert forall i :: 0 <= i < |front| ==> front[i] == es[i];
      TimesAtMostListed(front, s, n);
      var d := After(EMPTY, front);
      if Carries(e, s, n) { ReliableStep(d, e, s, n); } else { HandedByOthers(d, e, s, n); }
    }
  }

  ghost predicate RunReliableFor(d: Dest, handed: seq<Invocation>, s: string, n: int) {
    exists es :: Feasible(EMPTY, es) && ReliableFor(es, s, n) && After(EMPTY, es) == d && Handed(EMPTY, es) == handed
  }

  /** By queue or unpaused, a number is handed to the application at most once, and never without getting into
      the list, when the passes of the messages that carry it are reliable, whatever befalls the others. */
  lemma HandedAtMostOnce(d: Dest, handed: seq<Invocation>, s: string, n: int)
    requires RunReliableFor(d, handed, s, n) && 1 <= n
    ensures Times(handed, s, n) <= if n in Listed(d, s) then 1 else 0
  {
    var es :| Feasible(EMPTY, es) && ReliableFor(es, s, n) && After(EMPTY, es) == d && Handed(EMPTY, es) == handed;
    TimesAtMostListed(es, s, n);
  }

  /** Without faults the property is lost: whatever happened before, a message for an unknown or a closed
      sequence is passed on each time it arrives, and nothing remembers it. */
  lemma RefusedPassedOnEachTime(d: Dest, es: seq<Event>, s: string, n: int, p: Pass)
    requires Refused(After(d, es), s) && !p.faultSent
    requires 1 <= n && n !in Listed(After(d, es), s)
    ensures var e := Received(Ordinary(s, n), p);
      && Handed(d, es + [e]) == Handed(d, es) + [Invocation(s, n)]
      && After(d, es + [e]) == After(d, es)
  {
    Extend(d, es, Received(Ordinary(s, n), p));
    ExtendHanded(d, es, Received(Ordinary(s, n), p));
  }

  /** So is an isolated last message on an open sequence when the string comparison goes by address and
      the service cannot be found. */
  lemma IsolatedPassedOnEachTime(d: Dest, es: seq<Event>, s: string, n: int, p: Pass)
    requires !Refused(After(d, es), s) && !p.byContent && !p.serviceFound && 1 <= n
    ensures var e := Received(LastOnly(s, n), p);
      && Handed(d, es + [e]) == Handed(d, es) + [Invocation(s, n)]
      && !Refused(After(d, es + [e]), s)
  {
    Extend(d, es, Received(LastOnly(s, n), p));
    ExtendHanded(d, es, Received(LastOnly(s, n), p));
  }

  function LastOnly(s: string, n: int): Message { Message(s, n, Some(LastMessage), None, false, false, false) }

  ghost predicate AllWith(es: seq<Event>, p: Pass) {
    forall i :: 0 <= i < |es| && es[i].Received? ==> es[i].p == p
  }

  ghost predicate HandsTwice(es: seq<Event>, s: string, n: int) {
    Feasible(EMPTY, es) && Times(Handed(EMPTY, es), s, n) >= 2
  }

  lemma AllWithMore(es: seq<Event>, m: Message, p: Pass)
    requires AllWith(es, p)
    ensures AllWith(es + [Received(m, p)], p)
  {
  }

  lemma TwiceIn(fs: seq<Event>, before: seq<Invocation>, s: string, n: int, p: Pass)
    requires Feasible(EMPTY, fs) && AllWith(fs, p)
    requires Handed(EMPTY, fs) == before + [Invocation(s, n)] + [Invocation(s, n)]
    ensures exists es :: AllWith(es, p) && HandsTwice(es, s, n)
  {
    assert HandsTwice(fs, s, n);
  }

  lemma RefusedTwice(es: seq<Event>, s: string, n: int, p: Pass)
    requires Feasible(EMPTY, es) && AllWith(es, p)
    requires 1 <= n && !p.faultSent && Refused(After(EMPTY, es), s) && n !in Listed(After(EMPTY, es), s)
    ensures exists fs :: AllWith(fs, p) && HandsTwice(fs, s, n)
  {
    var m := Ordinary(s, n);
    var once := es + [Received(m, p)];
    RefusedPassedOnEachTime(EMPTY, es, s, n, p);
    RefusedPassedOnEachTime(EMPTY, once, s, n, p);
    Extend(EMPTY, es, Received(m, p));
    Extend(EMPTY, once, Received(m, p));
    AllWithMore(es, m, p);
    AllWithMore(once, m, p);
    TwiceIn(once + [Received(m, p)], Handed(EMPTY, es), s, n, p);
  }

  lemma IsolatedTwice(es: seq<Event>, s: string, n: int, p: Pass)
    requires Feasible(EMPTY, es) && AllWith(es, p)
    requires 1 <= n && !p.byContent && !p.serviceFound && !Refused(After(EMPTY, es), s)
    ensures exists fs :: AllWith(fs, p) && HandsTwice(fs, s, n)
  {
    var m := LastOnly(s, n);
    var once := es + [Received(m, p)];
    IsolatedPassedOnEachTime(EMPTY, es, s, n, p);
    IsolatedPassedOnEachTime(EMPTY, once, s, n, p);
    Extend(EMPTY, es, Received(m, p));
    Extend(EMPTY, once, Received(m, p));
    AllWithMore(es, m, p);
    AllWithMore(once, m, p);
    TwiceIn(once + [Received(m, p)], Handed(EMPTY, es), s, n, p);
  }

  /** Surroundings guarantee that no run hands the number over twice if and only if they are reliable. */
  lemma HandedOnceIffReliable(s: string, n: int, p: Pass)
    requires 1 <= n
    ensures (forall es :: AllWith(es, p) ==> !HandsTwice(es, s, n)) <==> Reliable(p)
  {
    if !p.faultSent {
      RefusedTwice([], s, n, p);
    } else if !Reliable(p) {
      Extend(EMPTY, [], Opened(s));
      IsolatedTwice([] + [Opened(s)], s, n, p);
    } else {
      forall es | AllWith(es, p)
        ensures !HandsTwice(es, s, n)
      {
        if HandsTwice(es, s, n) { TimesAtMostListed(es, s, n); }
      }
    }
  }

  // ---- exactly once -----------------------------------------------------------------------------

  /** A proper application message: numbered from 1, with a body, without the last message action; and if it
      has no action at all and carries the last message marker, its body has an element. */
  predicate Proper(m: Message) {
    && 1 <= m.number && m.bodyChild
    && m.wsaAction != Some(LastMessage) && m.soapAction != Some(LastMessage)
    && (m.bodyElement || !m.lastMarker || m.wsaAction.Some? || m.soapAction.Some?)
  }

  /** Every message that carries this number in this sequence is an application message, and if its
      sequence is refused the fault can be sent. */
  ghost predicate ProperFor(es: seq<Event>, s: string, n: int) {
    forall i :: 0 <= i < |es| && Carries(es[i], s, n) ==> Proper(es[i].m) && es[i].p.faultSent
  }

  lemma ProperStep(d: Dest, e: Event, s: string, n: int)
    requires Carries(e, s, n) && Proper(e.m) && e.p.faultSent
    ensures HandedBy(d, e) == if Refused(d, s) || n in Listed(d, s) then [] else [Invocation(s, n)]
    ensures n in Listed(Step(d, e), s) <==> n in Listed(d, s) || !Refused(d, s)
  {
    ReceiveEffect(d, e.m, e.p);
  }

  lemma {:induction false} HandedIffListed(es: seq<Event>, s: string, n: int)
    requires Feasible(EMPTY, es) && ProperFor(es, s, n)
    ensures Times(Handed(EMPTY, es), s, n) == if n in Listed(After(EMPTY, es), s) then 1 else 0
  {
    if es != [] {
      var front, e := es[..|es| - 1], es[|es| - 1];
      assert forall i :: 0 <= i < |front| ==> front[i] == es[i];
      HandedIffListed(front, s, n);
      var d := After(EMPTY, front);
      if Carries(e, s, n) { ProperStep(d, e, s, n); } else { HandedByOthers(d, e, s, n); }
    }
  }

  ghost predicate RunProperFor(d: Dest, handed: seq<Invocation>, s: string, n: int) {
    exists es :: Feasible(EMPTY, es) && ProperFor(es, s, n) && After(EMPTY, es) == d && Handed(EMPTY, es) == handed
  }

  /** When the messages that carry a number are application messages, acknowledged and handed over are the same
      thing: the number is in the completed list if and only if it was handed to the application, and that was
      exactly once. Other numbers and sequences may receive what they like. */
  lemma ExactlyOnceWhenListed(d: Dest, handed: seq<Invocation>, s: string, n: int)
    requires RunProperFor(d, handed, s, n)
    ensures Times(handed, s, n) == if n in Listed(d, s) then 1 else 0
  {
    var es :| Feasible(EMPTY, es) && ProperFor(es, s, n) && After(EMPTY, es) == d && Handed(EMPTY, es) == handed;
    HandedIffListed(es, s, n);
  }

  // ---- exactly when exactly once ------------------------------------------------------------------

  /** Only one message carries the number, always with the same surroundings. */
  ghost predicate CarriedBy(es: seq<Event>, m: Message, p: Pass) {
    forall i :: 0 <= i < |es| && Carries(es[i], m.seqId, m.number) ==> es[i] == Received(m, p)
  }

  /** Handed over exactly once if listed, and not at all otherwise. */
  ghost predicate HandedAsListed(es: seq<Event>, m: Message) {
    Times(Handed(EMPTY, es), m.seqId, m.number)
      == if m.number in Listed(After(EMPTY, es), m.seqId) then 1 else 0
  }

  predicate HandsAsItLists(m: Message, p: Pass) {
    if Isolated(m) then !p.serviceFound && p.byContent && p.faultSent
    else if !m.bodyChild then !p.faultSent && !p.serviceFound && !p.byContent
    else p.faultSent && (LastAction(m) ==> !p.serviceFound)
  }

  lemma HandsAsItListsStep(d: Dest, m: Message, p: Pass)
    requires HandsAsItLists(m, p) && 1 <= m.number
    ensures var s, n, e := m.seqId, m.number, Received(m, p);
      Times(HandedBy(d, e), s, n) + (if n in Listed(d, s) then 1 else 0) == if n in Listed(Step(d, e), s) then 1 else 0
  {
    ReceiveEffect(d, m, p);
    if m.number in Listed(d, m.seqId) { HandedAgainIff(d, m, p); }
    else {
      HandedUnlistedIff(d, m, p);
      ListedUnhandedIff(d, m, p);
    }
  }

  lemma {:induction false} HandedAsListedInRun(es: seq<Event>, m: Message, p: Pass)
    requires Feasible(EMPTY, es) && CarriedBy(es, m, p) && HandsAsItLists(m, p) && 1 <= m.number
    ensures HandedAsListed(es, m)
  {
    if es != [] {
      var front, e := es[..|es| - 1], es[|es| - 1];
      assert forall i :: 0 <= i < |front| ==> front[i] == es[i];
      HandedAsListedInRun(front, m, p);
      var d := After(EMPTY, front);
      if Carries(e, m.seqId, m.number) { HandsAsItListsStep(d, m, p); }
      else { HandedByOthers(d, e, m.seqId, m.number); }
    }
  }

  ghost predicate Fails(es: seq<Event>, m: Message, p: Pass) {
    Feasible(EMPTY, es) && CarriedBy(es, m, p) && !HandedAsListed(es, m)
  }

  /** The run fails when its last message makes the count differ from what the list says. */
  lemma FailsWith(es: seq<Event>, m: Message, p: Pass)
    requires Feasible(EMPTY, es) && CarriedBy(es, m, p)
    requires var s, n, e, d := m.seqId, m.number, Received(m, p), After(EMPTY, es);
      Times(Handed(EMPTY, es), s, n) + Times(HandedBy(d, e), s, n) != if n in Listed(Step(d, e), s) then 1 else 0
    ensures exists fs :: Fails(fs, m, p)
  {
    Extend(EMPTY, es, Received(m, p));
    ExtendHanded(EMPTY, es, Received(m, p));
    assert Fails(es + [Received(m, p)], m, p);
  }

  /** A new number on an open sequence is listed and not handed over. */
  predicate Swallowed(m: Message, p: Pass) {
    if Isolated(m) then p.serviceFound
    else if !m.bodyChild then p.serviceFound || p.byContent
    else p.serviceFound && LastAction(m)
  }

  lemma NewNumberFails(d: Dest, m: Message, p: Pass)
    requires 1 <= m.number && m.number !in Listed(d, m.seqId)
    requires if Refused(d, m.seqId) then p.faultSent == (!Isolated(m) && !m.bodyChild) else Swallowed(m, p)
    ensures var s, n, e := m.seqId, m.number, Received(m, p);
      Times(HandedBy(d, e), s, n) != if n in Listed(Step(d, e), s) then 1 else 0
  {
    HandedUnlistedIff(d, m, p);
    ListedUnhandedIff(d, m, p);
  }

  lemma FailsUnknown(m: Message, p: Pass)
    requires 1 <= m.number && p.faultSent == (!Isolated(m) && !m.bodyChild)
    ensures exists es :: Fails(es, m, p)
  {
    NewNumberFails(EMPTY, m, p);
    FailsWith([], m, p);
  }

  /** A run after which the sequence is open, and the number neither listed nor handed over. */
  ghost predicate OpenAndNew(es: seq<Event>, m: Message, p: Pass) {
    && Feasible(EMPTY, es) && CarriedBy(es, m, p)
    && !Refused(After(EMPTY, es), m.seqId) && m.number !in Listed(After(EMPTY, es), m.seqId)
    && Times(Handed(EMPTY, es), m.seqId, m.number) == 0
  }

  lemma Begin(m: Message, p: Pass)
    ensures exists es :: OpenAndNew(es, m, p)
  {
    Extend(EMPTY, [], Opened(m.seqId));
    ExtendHanded(EMPTY, [], Opened(m.seqId));
    assert OpenAndNew([] + [Opened(m.seqId)], m, p);
  }

  /** On an open sequence an isolated last message without service, compared by address, is listed and handed
      over every time. */
  lemma IsolatedStep(d: Dest, m: Message, p: Pass)
    requires 1 <= m.number && !Refused(d, m.seqId) && Isolated(m) && !p.byContent && !p.serviceFound
    ensures var e := Received(m, p);
      && Times(HandedBy(d, e), m.seqId, m.number) == 1
      && m.number in Listed(Step(d, e), m.seqId) && !Refused(Step(d, e), m.seqId)
  {
    ReceiveEffect(d, m, p);
  }

  /** A run after which the sequence is open, and the number was handed over once. */
  ghost predicate OpenAndOnce(es: seq<Event>, m: Message, p: Pass) {
    && Feasible(EMPTY, es) && CarriedBy(es, m, p)
    && !Refused(After(EMPTY, es), m.seqId) && Times(Handed(EMPTY, es), m.seqId, m.number) == 1
  }

  lemma IsolatedOnce(es: seq<Event>, m: Message, p: Pass)
    requires OpenAndNew(es, m, p)
    requires 1 <= m.number && Isolated(m) && !p.byContent && !p.serviceFound
    ensures OpenAndOnce(es + [Received(m, p)], m, p)
  {
    Extend(EMPTY, es, Received(m, p));
    ExtendHanded(EMPTY, es, Received(m, p));
    IsolatedStep(After(EMPTY, es), m, p);
  }

  lemma FailsRepeated(es: seq<Event>, m: Message, p: Pass)
    requires OpenAndOnce(es, m, p)
    requires 1 <= m.number && Isolated(m) && !p.byContent && !p.serviceFound
    ensures exists fs :: Fails(fs, m, p)
  {
    IsolatedStep(After(EMPTY, es), m, p);
    FailsWith(es, m, p);
  }

  /** Meeting an unknown sequence, an open one, or an open one twice is enough to fail. */
  lemma SomeRunFails(m: Message, p: Pass)
    requires 1 <= m.number && !HandsAsItLists(m, p)
    ensures exists es :: Fails(es, m, p)
  {
    if p.faultSent == (!Isolated(m) && !m.bodyChild) {
      FailsUnknown(m, p);
    } else {
      Begin(m, p);
      var es :| OpenAndNew(es, m, p);
      if Isolated(m) && !p.byContent && !p.serviceFound {
        IsolatedOnce(es, m, p);
        FailsRepeated(es + [Received(m, p)], m, p);
      } else {
        NewNumberFails(After(EMPTY, es), m, p);
        FailsWith(es, m, p);
      }
    }
  }

  /** Exactly once, exactly when. For one message and its surroundings, every run in which it alone carries its
      number hands it over as often as it is listed if and only if:
      isolated: no service is found, strings are compared by content, faults can be sent;
      with an empty body: none of the three;
      otherwise: faults can be sent, and for a last message no service is found. */
  lemma ExactlyOnceIff(m: Message, p: Pass)
    requires 1 <= m.number
    ensures (forall es :: Feasible(EMPTY, es) && CarriedBy(es, m, p) ==> HandedAsListed(es, m))
      <==> HandsAsItLists(m, p)
  {
    if HandsAsItLists(m, p) {
      forall es | Feasible(EMPTY, es) && CarriedBy(es, m, p)
        ensures HandedAsListed(es, m)
      {
        HandedAsListedInRun(es, m, p);
      }
    } else {
      SomeRunFails(m, p);
    }
  }

  // ---- opening a sequence again -------------------------------------------------------------------

  /** Opening a known sequence again, as a client does for a second CreateSequenceResponse with an Accept, empties
      its list: exactly the numbers that were listed are handed over once more. */
  lemma ReopenedHandsAgainIff(d: Dest, s: string, n: int, p: Pass)
    requires !Refused(d, s) && 1 <= n
    ensures var e := Received(Ordinary(s, n), p);
      && (HandedBy(Open(d, s), e) != HandedBy(d, e) <==> n in Listed(d, s))
      && HandedBy(Open(d, s), e) == [Invocation(s, n)]
  {
  }

  // ---- the completed list and the highest number ------------------------------------------------

  ghost predicate IsHighest(h: int, list: seq<int>) {
    && 0 <= h
    && (forall n :: n in list ==> n <= h)
    && (h != 0 ==> h in list)
  }

  ghost predicate HighestRight(d: Dest) {
    && (forall s :: s in d.known && s !in d.closed ==> IsHighest(Highest(d, s), Listed(d, s)))
    && (forall s :: s in d.closed ==> s in d.known)
  }

  lemma HighestStep(d: Dest, e: Event)
    requires HighestRight(d) && (e.Opened? ==> Fresh(d, e.s))
    ensures HighestRight(Step(d, e))
  {
    var after := Step(d, e);
    if e.Received? { ReceiveEffect(d, e.m, e.p); }
    forall s | s in after.known && s !in after.closed
      ensures IsHighest(Highest(after, s), Listed(after, s))
    {
      if s in d.known {
        assert IsHighest(Highest(d, s), Listed(d, s));
      }
    }
  }

  /** On a known, open sequence the stored highest number is the maximum of the list (0 if empty). */
  lemma {:induction false} HighestTracksList(es: seq<Event>)
    requires Feasible(EMPTY, es)
    ensures HighestRight(After(EMPTY, es))
  {
    if es != [] {
      HighestTracksList(es[..|es| - 1]);
      HighestStep(After(EMPTY, es[..|es| - 1]), es[|es| - 1]);
    }
  }

  /** A message of sequence s with a number other than 0 arrived during the run. */
  ghost predicate Arrived(es: seq<Event>, s: string, n: int) {
    n != 0 && exists i :: 0 <= i < |es| && Carries(es[i], s, n)
  }

  ghost predicate Touches(es: seq<Event>, s: string) {
    exists i :: 0 <= i < |es| && (es[i] == Opened(s) || es[i] == Closed(s))
  }

  lemma ArrivedStep(front: seq<Event>, e: Event, s: string, n: int)
    ensures Arrived(front + [e], s, n) <==> Arrived(front, s, n) || (n != 0 && Carries(e, s, n))
    ensures Touches(front + [e], s) <==> Touches(front, s) || e == Opened(s) || e == Closed(s)
  {
    var es := front + [e];
    assert forall i :: 0 <= i < |front| ==> front[i] == es[i];
    assert es[|front|] == e;
  }

  lemma OpenStep(d: Dest, e: Event, s: string, n: int)
    requires s in d.known && s !in d.closed && e != Opened(s) && e != Closed(s)
    ensures s in Step(d, e).known && s !in Step(d, e).closed
    ensures n in Listed(Step(d, e), s) <==> n in Listed(d, s) || (n != 0 && Carries(e, s, n))
  {
    StepLists(d, e, s);
    if e.Received? { ReceiveEffect(d, e.m, e.p); }
  }

  /** On a known, open sequence exactly the numbers that arrived are added to the list. */
  lemma {:induction false} ListIsArrivals(d: Dest, es: seq<Event>, s: string, n: int)
    requires s in d.known && s !in d.closed && !Touches(es, s)
    ensures s in After(d, es).known && s !in After(d, es).closed
    ensures n in Listed(After(d, es), s) <==> n in Listed(d, s) || Arrived(es, s, n)
  {
    if es != [] {
      var front, e := es[..|es| - 1], es[|es| - 1];
      assert es == front + [e];
      ArrivedStep(front, e, s, n);
      ListIsArrivals(d, front, s, n);
      OpenStep(After(d, front), e, s, n);
    }
  }

  lemma {:induction false} HighestKept(d: Dest, es: seq<Event>)
    requires HighestRight(d) && Feasible(d, es)
    ensures HighestRight(After(d, es))
  {
    if es != [] {
      HighestKept(d, es[..|es| - 1]);
      HighestStep(After(d, es[..|es| - 1]), es[|es| - 1]);
    }
  }

  ghost predicate Leads(d: Dest, es: seq<Event>, e: Dest) { Feasible(d, es) && After(d, es) == e }

  /** Order, multiplicity and interleaving with other sequences do not matter: two runs from one state
      in which the same numbers arrived end with the same completed set, the same highest number and
      the same acknowledgement, in whatever surroundings each of them ran. */
  lemma Confluence(d: Dest, es: seq<Event>, fs: seq<Event>, x: Dest, y: Dest, s: string,
                   a: seq<AckRange>, b: seq<AckRange>)
    requires HighestRight(d) && s in d.known && s !in d.closed
    requires Leads(d, es, x) && Leads(d, fs, y) && !Touches(es, s) && !Touches(fs, s)
    requires forall n :: Arrived(es, s, n) <==> Arrived(fs, s, n)
    requires AckOf(a, Listed(x, s)) && AckOf(b, Listed(y, s))
    ensures forall n :: n in Listed(x, s) <==> n in Listed(y, s)
    ensures Highest(x, s) == Highest(y, s)
    ensures a == b
  {
    ListIsArrivals(d, es, s, 0);
    ListIsArrivals(d, fs, s, 0);
    forall n
      ensures n in Listed(x, s) <==> n in Listed(y, s)
    {
      ListIsArrivals(d, es, s, n);
      ListIsArrivals(d, fs, s, n);
    }
    HighestKept(d, es);
    HighestKept(d, fs);
    CanonicalUnique(a, b);
  }

  // ---- closed sequences -------------------------------------------------------------------------

  /** A message the in handler records before anything has looked whether the sequence is closed. */
  predicate Empty(m: Message) { !Isolated(m) && 1 <= m.number && !m.bodyChild }

  ghost predicate EmptyArrived(es: seq<Event>, s: string, n: int) {
    exists i :: 0 <= i < |es| && Carries(es[i], s, n) && Empty(es[i].m)
  }

  lemma EmptyArrivedStep(front: seq<Event>, e: Event, s: string, n: int)
    ensures EmptyArrived(front + [e], s, n) <==> EmptyArrived(front, s, n) || (Carries(e, s, n) && Empty(e.m))
  {
    var es := front + [e];
    assert forall i :: 0 <= i < |front| ==> front[i] == es[i];
    assert es[|front|] == e;
  }

  lemma RefusedStep(d: Dest, e: Event, s: string, n: int)
    requires s !in d.known || s in d.closed
    requires e != Opened(s) && (e.Opened? ==> Fresh(d, e.s))
    ensures s in Step(d, e).known <==> s in d.known
    ensures s in d.closed ==> s in Step(d, e).closed
    ensures n in Listed(Step(d, e), s) <==> n in Listed(d, s) || (Carries(e, s, n) && Empty(e.m))
  {
    StepLists(d, e, s);
    if e.Received? { ReceiveEffect(d, e.m, e.p); }
  }

  ghost predicate Opens(es: seq<Event>, s: string) { exists i :: 0 <= i < |es| && es[i] == Opened(s) }

  lemma OpensStep(front: seq<Event>, e: Event, s: string)
    ensures Opens(front + [e], s) <==> Opens(front, s) || e == Opened(s)
  {
    var es := front + [e];
    assert forall i :: 0 <= i < |front| ==> front[i] == es[i];
    assert es[|front|] == e;
  }

  /** While a sequence is unknown, and after it was closed, its list gains exactly the numbers of the messages
      that arrive with an empty body. */
  lemma {:induction false} RefusedList(d: Dest, es: seq<Event>, s: string, n: int)
    requires (s !in d.known || s in d.closed) && Feasible(d, es) && !Opens(es, s)
    ensures s in After(d, es).known <==> s in d.known
    ensures s in d.closed ==> s in After(d, es).closed
    ensures n in Listed(After(d, es), s) <==> n in Listed(d, s) || EmptyArrived(es, s, n)
  {
    if es != [] {
      var front, e := es[..|es| - 1], es[|es| - 1];
      assert es == front + [e];
      OpensStep(front, e, s);
      RefusedList(d, front, s, n);
      RefusedStep(After(d, front), e, s, n);
      EmptyArrivedStep(front, e, s, n);
    }
  }

  lemma {:induction false} ClosedNotOpened(d: Dest, es: seq<Event>, s: string)
    requires s in d.closed && Feasible(d, es)
    ensures s in After(d, es).closed && !Opens(es, s)
  {
    if es != [] {
      var front, e := es[..|es| - 1], es[|es| - 1];
      assert es == front + [e];
      OpensStep(front, e, s);
      ClosedNotOpened(d, front, s);
      StepLists(After(d, front), e, s);
    }
  }

  /** After close the list gains exactly the numbers of the messages that arrive with an empty body. */
  lemma ClosedList(d: Dest, es: seq<Event>, s: string, n: int)
    requires s in d.closed && Feasible(d, es)
    ensures s in After(d, es).closed
    ensures n in Listed(After(d, es), s) <==> n in Listed(d, s) || EmptyArrived(es, s, n)
  {
    ClosedNotOpened(d, es, s);
    RefusedList(d, es, s, n);
  }

  /** The acknowledgement of the CloseSequenceResponse is final if and only if no empty-body message
      with a number not yet listed arrives afterwards; such a message is still acknowledged. */
  lemma FinalAckIsFinalIff(d: Dest, es: seq<Event>, e: Dest, s: string, final: seq<AckRange>, later: seq<AckRange>)
    requires s in d.known && Leads(Close(d, s), es, e)
    requires AckOf(final, Listed(Close(d, s), s)) && AckOf(later, Listed(e, s))
    ensures later == final <==> forall n :: EmptyArrived(es, s, n) ==> n in Listed(d, s)
  {
    forall n
      ensures n in Listed(e, s) <==> n in Listed(d, s) || EmptyArrived(es, s, n)
    {
      ClosedList(Close(d, s), es, s, n);
    }
    if forall n :: EmptyArrived(es, s, n) ==> n in Listed(d, s) {
      CanonicalUnique(later, final);
    } else {
      var n :| EmptyArrived(es, s, n) && n !in Listed(d, s);
      assert Covers(later, n) && !Covers(final, n);
    }
  }
}
