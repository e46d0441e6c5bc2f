/** Source, network and destination together. The network keeps every packet it was ever given until it loses
    it, so that packets may be duplicated, reordered and lost. */
module EndToEnd {
  import opened Prelude
  import opened AckRanges
  import opened Stores
  import SM = SourceModel
  import SR = SourceRuns
  import DM = DestinationModel
  import DR = DestinationRuns

  datatype Packet =
    | Request(internalSeq: string)                      // CreateSequence
    | Created(internalSeq: string, outId: string)       // CreateSequenceResponse
    | App(m: DM.Message)
    | Ack(outId: string, ranges: seq<AckRange>)

  datatype Issue = Issue(seqKey: string, number: int)

  /** issued: every message whose sender bean was ever stored; wire: the outgoing id a message was addressed
      to, once; owner: for which internal sequence the destination generated an id; dropped: the messages
      whose sequence was given up after they were stored; the logs are the runs of the two sides. */
  datatype World = World(src: SM.Src, dst: DM.Dest, net: set<Packet>,
                         issued: map<string, Issue>, wire: map<string, string>, owner: map<string, string>,
                         dropped: set<string>, sourceLog: seq<SR.Event>, destinationLog: seq<DR.Event>)

  const START := World(SM.EMPTY, DM.EMPTY, {}, map[], map[], map[], {}, [], [])

  datatype Move =
    | AtSource(e: SR.Event)
    | Receive(m: DM.Message, p: DM.Pass, answer: seq<AckRange>)
    | Close(outId: string, answer: seq<AckRange>)
    | Create(internalSeq: string, outId: string)
    | Address(msgId: string, outId: string)
    | Transmit(msgId: string, m: DM.Message)
    | Piggyback(outId: string, ranges: seq<AckRange>)
    | Lose(packet: Packet)

  /** The pass comes to where acknowledgements are made, and one is due. */
  predicate Answers(d: DM.Dest, m: DM.Message, p: DM.Pass) { DM.Receive(d, m, p).acking && p.ackDue }

  /** Message ids and the ids of new sequences are unique; everything else that arrives was sent. A pass that comes
      to acknowledging answers with what is listed then, and so does closing; other messages may carry
      acknowledgements at any time. */
  ghost predicate Enabled(w: World, mv: Move) {
    match mv
    case AtSource(e) =>
      && SR.Enabled(w.src, e)
      && (e.Sending? ==> e.c.msgId !in w.issued)
      && (e.Acked? ==> Ack(e.outId, e.ranges) in w.net)
      && (e.Linked? ==> Created(e.internalSeq, e.outId) in w.net)
    case Receive(m, p, answer) =>
      App(m) in w.net && (Answers(w.dst, m, p) ==> AckOf(answer, DM.Listed(DM.Receive(w.dst, m, p).dest, m.seqId)))
    case Close(outId, answer) => outId in w.dst.known ==> AckOf(answer, DM.Listed(w.dst, outId))
    case Create(i, outId) => Request(i) in w.net && DM.Fresh(w.dst, outId) && outId !in w.owner
    case Address(id, outId) =>
      id in w.issued && id !in w.wire && SR.LinksTo(w.src.props, w.issued[id].seqKey, outId)
    case Transmit(id, m) =>
      id in w.issued && id in w.wire && m.seqId == w.wire[id] && m.number == w.issued[id].number
    case Piggyback(outId, ranges) => AckOf(ranges, DM.Listed(w.dst, outId))
    case Lose(packet) => true
  }

  function Sends(src: SM.Src, e: SR.Event): bool { e.Sending? && SM.ProcessOut(src, e.c).reply.Stored? }

  ghost function IssuedIn(w: World, s: string): set<string> { set id | id in w.issued && w.issued[id].seqKey == s }

  ghost function AtSourceStep(w: World, e: SR.Event): World {
    w.(src := SR.Step(w.src, e), sourceLog := w.sourceLog + [e],
       issued := if Sends(w.src, e)
                 then w.issued[e.c.msgId := Issue(e.c.seqKey, SM.ProcessOut(w.src, e.c).reply.number)] else w.issued,
       net := if e.Sending? && SM.ProcessOut(w.src, e.c).creating then w.net + {Request(e.c.seqKey)} else w.net,
       dropped := if e.GaveUp? then w.dropped + IssuedIn(w, e.s) else w.dropped)
  }

  ghost function AtDestinationStep(w: World, e: DR.Event): World {
    w.(dst := DR.Step(w.dst, e), destinationLog := w.destinationLog + [e])
  }

  ghost function Answering(w: World, answers: bool, outId: string, answer: seq<AckRange>): World {
    if answers then w.(net := w.net + {Ack(outId, answer)}) else w
  }

  ghost function Step(w: World, mv: Move): World {
    match mv
    case AtSource(e) => AtSourceStep(w, e)
    case Receive(m, p, answer) =>
      Answering(AtDestinationStep(w, DR.Received(m, p)), Answers(w.dst, m, p), m.seqId, answer)
    case Close(outId, answer) =>
      Answering(AtDestinationStep(w, DR.Closed(outId)), outId in w.dst.known, outId, answer)
    case Create(i, outId) =>
      AtDestinationStep(w, DR.Opened(outId)).(owner := w.owner[outId := i], net := w.net + {Created(i, outId)})
    case Address(id, outId) => w.(wire := w.wire[id := outId])
    case Transmit(id, m) => w.(net := w.net + {App(m)})
    case Piggyback(outId, ranges) => w.(net := w.net + {Ack(outId, ranges)})
    case Lose(packet) => w.(net := w.net - {packet})
  }

  ghost function After(moves: seq<Move>): World {
    if moves == [] then START else Step(After(moves[..|moves| - 1]), moves[|moves| - 1])
  }

  ghost predicate Feasible(moves: seq<Move>) {
    moves != [] ==>
      Feasible(moves[..|moves| - 1]) && Enabled(After(moves[..|moves| - 1]), moves[|moves| - 1])
  }

  // ---- the invariant ------------------------------------------------------------------------------

  ghost predicate Logged(w: World) {
    && SR.Feasible(w.sourceLog) && w.src == SR.After(w.sourceLog)
    && DR.Feasible(DM.EMPTY, w.destinationLog) && w.dst == DR.After(DM.EMPTY, w.destinationLog)
  }

  ghost predicate OwnedBy(w: World, outId: string, i: string) { outId in w.owner && w.owner[outId] == i }

  /** Both id properties agree with the destination's record, and a linked id leads back. */
  ghost predicate Owned(w: World) {
    && (forall i, outId :: Created(i, outId) in w.net ==> OwnedBy(w, outId, i))
    && (forall i, outId :: SR.LinksTo(w.src.props, i, outId) ==> OwnedBy(w, outId, i))
    && (forall i, outId :: SR.LinksBack(w.src.props, i, outId) ==> OwnedBy(w, outId, i))
    && (forall i, outId :: SR.LinksTo(w.src.props, i, outId) ==> SR.LinksBack(w.src.props, i, outId))
  }

  /** An addressed message was issued, and its outgoing id leads back to its sequence. */
  ghost predicate Wired(w: World) {
    forall id :: id in w.wire ==> id in w.issued && SR.LinksBack(w.src.props, w.issued[id].seqKey, w.wire[id])
  }

  ghost predicate Sent(w: World, outId: string, n: int) {
    exists id :: id in w.wire && id in w.issued && w.wire[id] == outId && w.issued[id].number == n
  }

  /** What is on its way and what is listed at the destination was sent. */
  ghost predicate Traced(w: World) {
    && (forall m :: App(m) in w.net ==> Sent(w, m.seqId, m.number))
    && (forall outId, n :: n in DM.Listed(w.dst, outId) ==> Sent(w, outId, n))
  }

  ghost predicate AcksSound(w: World) {
    forall outId, ranges, n :: Ack(outId, ranges) in w.net && Covers(ranges, n) ==>
      1 <= n && n in DM.Listed(w.dst, outId)
  }

  /** The message was stored, and its sequence was not given up since. */
  ghost predicate Live(w: World, id: string) { id in w.issued && id !in w.dropped }

  /** Among messages stored since their sequence was given up last, numbers are unique. */
  ghost predicate Unique(w: World) {
    && (forall a, b :: Live(w, a) && Live(w, b) ==> w.issued[a] == w.issued[b] ==> a == b)
    && (forall id :: id in w.dropped ==> id in w.issued)
    && (forall id :: id in w.issued ==> 1 <= w.issued[id].number)
    && (forall id :: Live(w, id) ==> w.issued[id].number in SR.Prepared(w.sourceLog, w.issued[id].seqKey))
  }

  predicate IsIssue(b: Bean, issue: Issue) { b.internalSeq == issue.seqKey && b.number == issue.number }

  ghost predicate BeansIssued(w: World) {
    forall id :: id in w.src.beans ==> id in w.issued && IsIssue(w.src.beans[id], w.issued[id])
  }

  ghost predicate InList(w: World, id: string) {
    id in w.wire && id in w.issued && w.issued[id].number in DM.Listed(w.dst, w.wire[id])
  }

  /** Sequence and number were given to one message only. */
  ghost predicate IssuedOnce(w: World, issue: Issue) {
    forall a, b :: a in w.issued && b in w.issued && w.issued[a] == issue && w.issued[b] == issue ==> a == b
  }

  ghost predicate StoredOrListed(w: World, id: string) { id in w.src.beans || InList(w, id) }

  /** Nothing is lost: a message is in the sender store or in the completed list. */
  ghost predicate NothingLost(w: World) {
    forall id :: Live(w, id) && IssuedOnce(w, w.issued[id]) ==> StoredOrListed(w, id)
  }

  ghost predicate Inv(w: World) {
    && Logged(w) && Owned(w) && Wired(w) && Traced(w) && AcksSound(w)
    && Unique(w) && BeansIssued(w) && NothingLost(w)
  }

  // ---- steps at the source ----------------------------------------------------------------------------

  lemma LogSource(w: World, e: SR.Event)
    requires Logged(w) && SR.Enabled(w.src, e)
    ensures Logged(AtSourceStep(w, e))
  {
    assert (w.sourceLog + [e])[..|w.sourceLog|] == w.sourceLog;
  }

  lemma IdsKept(src: SM.Src, e: SR.Event, i: string, outId: string)
    requires !e.Linked?
    ensures SR.LinksTo(SR.Step(src, e).props, i, outId) ==> SR.LinksTo(src.props, i, outId)
    ensures SR.LinksBack(SR.Step(src, e).props, i, outId) <==> SR.LinksBack(src.props, i, outId)
  {
    if e.GaveUp? {
      SR.CleanedIds(src.props, e.s, i);
      SR.CleanedIds(src.props, e.s, outId);
    } else {
      SR.StepKeeps(src, e, Key(i, OutgoingSequenceId));
      SR.StepKeeps(src, e, Key(outId, OutgoingInternalSequenceId));
    }
  }

  lemma OwnedAtSource(w: World, e: SR.Event)
    requires Owned(w) && Wired(w) && Enabled(w, AtSource(e))
    ensures Owned(AtSourceStep(w, e)) && Wired(AtSourceStep(w, e))
  {
    var v := AtSourceStep(w, e);
    var p, q := w.src.props, v.src.props;
    forall i, outId
      ensures SR.LinksTo(q, i, outId) ==> OwnedBy(v, outId, i) && SR.LinksBack(q, i, outId)
      ensures SR.LinksBack(q, i, outId) ==> OwnedBy(v, outId, i)
      ensures OwnedBy(w, outId, i) && SR.LinksBack(p, i, outId) ==> SR.LinksBack(q, i, outId)
    {
      assert SR.LinksTo(p, i, outId) ==> OwnedBy(w, outId, i) && SR.LinksBack(p, i, outId);
      assert SR.LinksBack(p, i, outId) ==> OwnedBy(w, outId, i);
      if e.Linked? {
        assert Created(e.internalSeq, e.outId) in w.net;
        assert OwnedBy(w, e.outId, e.internalSeq);
      } else {
        IdsKept(w.src, e, i, outId);
      }
    }
  }

  /** What a source event does to the bean of one message. */
  lemma BeanStep(src: SM.Src, e: SR.Event, id: string)
    requires Keyed(src.beans) && SR.Enabled(src, e)
    ensures var after := SR.Step(src, e);
      && (id in after.beans && id !in src.beans ==>
            Sends(src, e) && e.c.msgId == id
            && IsIssue(after.beans[id], Issue(e.c.seqKey, SM.ProcessOut(src, e.c).reply.number)))
      && (id in after.beans && id in src.beans ==>
            after.beans[id].internalSeq == src.beans[id].internalSeq && after.beans[id].number == src.beans[id].number)
      && (id in src.beans && id !in after.beans ==>
            e.Acked? || (e.GaveUp? && src.beans[id].internalSeq == e.s))
      && (Sends(src, e) ==> e.c.msgId in after.beans)
  {
  }

  lemma BeansIssuedAtSource(w: World, e: SR.Event)
    requires Logged(w) && BeansIssued(w) && Enabled(w, AtSource(e))
    ensures BeansIssued(AtSourceStep(w, e))
  {
    SR.BeanNumbers(w.sourceLog, "");
    var v := AtSourceStep(w, e);
    forall id | id in v.src.beans
      ensures id in v.issued && IsIssue(v.src.beans[id], v.issued[id])
    {
      BeanStep(w.src, e, id);
    }
  }

  lemma PreparedGrows(w: World, e: SR.Event, s: string)
    requires Logged(w) && e != SR.GaveUp(s)
    ensures var more := SR.Prepared(w.sourceLog + [e], s);
      && (forall n :: n in SR.Prepared(w.sourceLog, s) ==> n in more)
      && (Sends(w.src, e) && e.c.seqKey == s ==>
            var n := SM.ProcessOut(w.src, e.c).reply.number;
            1 <= n && n in more && n !in SR.Prepared(w.sourceLog, s))
  {
    assert (w.sourceLog + [e])[..|w.sourceLog|] == w.sourceLog;
    SR.Numbering(w.sourceLog, s);
    if e.Sending? { SR.SendingNumbers(w.src, e.c); }
  }

  lemma UniqueAtSource(w: World, e: SR.Event)
    requires Logged(w) && Unique(w) && Enabled(w, AtSource(e))
    ensures Unique(AtSourceStep(w, e))
  {
    var v := AtSourceStep(w, e);
    forall id | Live(v, id)
      ensures v.issued[id].number in SR.Prepared(v.sourceLog, v.issued[id].seqKey)
      ensures id in w.issued ==> Live(w, id) && w.issued[id].number in SR.Prepared(w.sourceLog, w.issued[id].seqKey)
    {
      assert id in w.issued ==> Live(w, id);
      PreparedGrows(w, e, v.issued[id].seqKey);
    }
    if Sends(w.src, e) {
      SR.SendingNumbers(w.src, e.c);
      PreparedGrows(w, e, e.c.seqKey);
    }
  }

  /** The heart of it: an acknowledgement removes a message only if a message with its sequence and number
      is in the list it acknowledges; that is the message itself when the two were given out once. */
  lemma RemovedWasListed(w: World, e: SR.Event, id: string)
    requires Inv(w) && Enabled(w, AtSource(e)) && e.Acked?
    requires id in w.src.beans && id !in SR.Step(w.src, e).beans
    ensures exists other :: InList(w, other) && w.issued[other] == w.issued[id] && w.wire[other] == e.outId
    ensures IssuedOnce(w, w.issued[id]) ==> InList(w, id)
  {
    SR.BeanNumbers(w.sourceLog, "");
    var internalSeq := TextOf(w.src.props, e.outId, OutgoingInternalSequenceId);
    SR.RemovesSomethingIff(w.src.beans, e.found, internalSeq, Expand(e.ranges));
    var b := w.src.beans[id];
    assert SR.Hit(b, internalSeq, Expand(e.ranges));
    ExpandCovers(e.ranges, b.number);
    assert b.number in DM.Listed(w.dst, e.outId);
    assert Sent(w, e.outId, b.number);
    var other :| other in w.wire && other in w.issued && w.wire[other] == e.outId && w.issued[other].number == b.number;
    assert SR.LinksBack(w.src.props, w.issued[other].seqKey, e.outId);
    assert w.issued[other] == w.issued[id];
    assert InList(w, other);
  }

  lemma NothingLostAtSource(w: World, e: SR.Event)
    requires Inv(w) && Enabled(w, AtSource(e))
    ensures NothingLost(AtSourceStep(w, e))
  {
    SR.BeanNumbers(w.sourceLog, "");
    var v := AtSourceStep(w, e);
    forall id | Live(v, id) && IssuedOnce(v, v.issued[id])
      ensures StoredOrListed(v, id)
    {
      BeanStep(w.src, e, id);
      if id in w.issued {
        OnceBefore(w, e, id);
        assert StoredOrListed(w, id);
        if id in w.src.beans && id !in v.src.beans {
          assert IsIssue(w.src.beans[id], w.issued[id]);
          RemovedWasListed(w, e, id);
        }
      }
    }
  }

  lemma OnceBefore(w: World, e: SR.Event, id: string)
    requires Enabled(w, AtSource(e)) && id in w.issued
    requires Live(AtSourceStep(w, e), id) && IssuedOnce(AtSourceStep(w, e), w.issued[id])
    ensures Live(w, id) && IssuedOnce(w, w.issued[id])
  {
    var v := AtSourceStep(w, e);
    forall a, b | a in w.issued && b in w.issued && w.issued[a] == w.issued[id] && w.issued[b] == w.issued[id]
      ensures a == b
    {
      assert a in v.issued && b in v.issued && v.issued[a] == w.issued[id] && v.issued[b] == w.issued[id];
    }
  }

  lemma TracedAtSource(w: World, e: SR.Event)
    requires Traced(w) && AcksSound(w) && Enabled(w, AtSource(e))
    ensures Traced(AtSourceStep(w, e)) && AcksSound(AtSourceStep(w, e))
  {
    var v := AtSourceStep(w, e);
    forall outId, n | Sent(w, outId, n)
      ensures Sent(v, outId, n)
    {
      var id :| id in w.wire && id in w.issued && w.wire[id] == outId && w.issued[id].number == n;
      assert id in v.wire && id in v.issued && v.wire[id] == outId && v.issued[id].number == n;
    }
  }

  lemma SourceKeeps(w: World, e: SR.Event)
    requires Inv(w) && Enabled(w, AtSource(e))
    ensures Inv(AtSourceStep(w, e))
  {
    LogSource(w, e);
    OwnedAtSource(w, e);
    BeansIssuedAtSource(w, e);
    UniqueAtSource(w, e);
    NothingLostAtSource(w, e);
    TracedAtSource(w, e);
  }

  // ---- steps at the destination and in the network -------------------------------------------------------

  lemma DestinationTraced(w: World, e: DR.Event)
    requires Traced(w) && (e.Received? ==> App(e.m) in w.net) && (e.Opened? ==> DM.Fresh(w.dst, e.s))
    ensures Traced(AtDestinationStep(w, e))
  {
    var v := AtDestinationStep(w, e);
    forall outId, n | n in DM.Listed(v.dst, outId)
      ensures Sent(v, outId, n)
    {
      DR.StepLists(w.dst, e, outId);
      assert Sent(w, outId, n);
    }
    forall m | App(m) in v.net
      ensures Sent(v, m.seqId, m.number)
    {
      assert Sent(w, m.seqId, m.number);
    }
  }

  lemma DestinationLists(w: World, e: DR.Event)
    requires AcksSound(w) && NothingLost(w) && (e.Opened? ==> DM.Fresh(w.dst, e.s))
    ensures AcksSound(AtDestinationStep(w, e)) && NothingLost(AtDestinationStep(w, e))
  {
    var v := AtDestinationStep(w, e);
    forall outId, n | n in DM.Listed(w.dst, outId)
      ensures n in DM.Listed(v.dst, outId)
    {
      DR.StepLists(w.dst, e, outId);
    }
    SameIssued(w, v);
  }

  /** Where issued, dropped and the sender store stay and the lists only grow, nothing gets lost. */
  lemma SameIssued(w: World, v: World)
    requires NothingLost(w) && v.issued == w.issued && v.dropped == w.dropped && v.src == w.src
    requires forall id :: InList(w, id) ==> InList(v, id)
    ensures NothingLost(v)
  {
    forall id | Live(v, id) && IssuedOnce(v, v.issued[id])
      ensures StoredOrListed(v, id)
    {
      assert Live(w, id) && IssuedOnce(w, w.issued[id]);
      assert StoredOrListed(w, id);
    }
  }

  lemma DestinationRest(w: World, e: DR.Event)
    requires Logged(w) && Owned(w) && Wired(w) && Unique(w) && BeansIssued(w)
    requires e.Opened? ==> DM.Fresh(w.dst, e.s)
    ensures var v := AtDestinationStep(w, e); Logged(v) && Owned(v) && Wired(v) && Unique(v) && BeansIssued(v)
  {
    var v := AtDestinationStep(w, e);
    assert v.destinationLog[..|w.destinationLog|] == w.destinationLog;
    SameLive(w, v);
    assert forall i, outId :: OwnedBy(w, outId, i) ==> OwnedBy(v, outId, i);
  }

  lemma SameLive(w: World, v: World)
    requires v.issued == w.issued && v.dropped == w.dropped && v.sourceLog == w.sourceLog
    ensures Unique(w) ==> Unique(v)
  {
    assert forall id :: Live(v, id) <==> Live(w, id);
  }

  lemma DestinationKeeps(w: World, e: DR.Event)
    requires Inv(w)
    requires e.Received? ==> App(e.m) in w.net
    requires e.Opened? ==> DM.Fresh(w.dst, e.s)
    ensures Inv(AtDestinationStep(w, e))
  {
    DestinationTraced(w, e);
    DestinationLists(w, e);
    DestinationRest(w, e);
  }

  lemma OwnerKeeps(w: World, i: string, outId: string)
    requires Inv(w) && outId !in w.owner
    ensures Inv(w.(owner := w.owner[outId := i], net := w.net + {Created(i, outId)}))
  {
    var v := w.(owner := w.owner[outId := i], net := w.net + {Created(i, outId)});
    SameLive(w, v);
    assert Logged(v) && Wired(v) && BeansIssued(v);
    forall other, n
      ensures Sent(w, other, n) <==> Sent(v, other, n)
    {
    }
    SameIssued(w, v);
    assert forall j, other :: OwnedBy(w, other, j) ==> OwnedBy(v, other, j);
    assert OwnedBy(v, outId, i);
  }

  lemma CreateKeeps(w: World, i: string, outId: string)
    requires Inv(w) && Enabled(w, Create(i, outId))
    ensures Inv(Step(w, Create(i, outId)))
  {
    DestinationKeeps(w, DR.Opened(outId));
    OwnerKeeps(AtDestinationStep(w, DR.Opened(outId)), i, outId);
  }

  /** Packets may disappear, and new ones may be messages that were addressed or acknowledgements of the
      list as it is. */
  lemma NetworkKeeps(w: World, net: set<Packet>)
    requires Inv(w)
    requires forall packet :: packet in net && packet !in w.net ==>
      match packet
      case App(m) => Sent(w, m.seqId, m.number)
      case Ack(outId, ranges) => AckOf(ranges, DM.Listed(w.dst, outId))
      case _ => false
    ensures Inv(w.(net := net))
  {
    var v := w.(net := net);
    SameLive(w, v);
    assert Logged(v) && Wired(v) && BeansIssued(v);
    forall outId, n
      ensures Sent(w, outId, n) <==> Sent(v, outId, n)
    {
    }
    SameIssued(w, v);
    forall outId, ranges, n | Ack(outId, ranges) in net && Covers(ranges, n)
      ensures 1 <= n && n in DM.Listed(v.dst, outId)
    {
      assert Ack(outId, ranges) in w.net ==> 1 <= n && n in DM.Listed(w.dst, outId);
    }
    assert forall i, outId :: OwnedBy(w, outId, i) ==> OwnedBy(v, outId, i);
    assert forall i, outId :: Created(i, outId) in net ==> Created(i, outId) in w.net;
  }

  lemma AddressOwned(w: World, id: string, outId: string)
    requires Owned(w) && Wired(w) && id in w.issued && SR.LinksTo(w.src.props, w.issued[id].seqKey, outId)
    ensures Owned(w.(wire := w.wire[id := outId])) && Wired(w.(wire := w.wire[id := outId]))
  {
    var v := w.(wire := w.wire[id := outId]);
    assert forall i, other :: OwnedBy(w, other, i) ==> OwnedBy(v, other, i);
  }

  lemma AddressTraced(w: World, id: string, outId: string)
    requires Traced(w) && NothingLost(w) && id !in w.wire
    ensures Traced(w.(wire := w.wire[id := outId])) && NothingLost(w.(wire := w.wire[id := outId]))
  {
    var v := w.(wire := w.wire[id := outId]);
    forall other, n | Sent(w, other, n)
      ensures Sent(v, other, n)
    {
      var x :| x in w.wire && x in w.issued && w.wire[x] == other && w.issued[x].number == n;
      assert x in v.wire && v.wire[x] == other;
    }
    SameIssued(w, v);
  }

  lemma AddressRest(w: World, wire: map<string, string>)
    requires Logged(w) && AcksSound(w) && Unique(w) && BeansIssued(w)
    ensures var v := w.(wire := wire); Logged(v) && AcksSound(v) && Unique(v) && BeansIssued(v)
  {
    SameLive(w, w.(wire := wire));
  }

  lemma AddressKeeps(w: World, id: string, outId: string)
    requires Inv(w) && Enabled(w, Address(id, outId))
    ensures Inv(Step(w, Address(id, outId)))
  {
    var v := w.(wire := w.wire[id := outId]);
    AddressOwned(w, id, outId);
    AddressTraced(w, id, outId);
    AddressRest(w, v.wire);
    assert Step(w, Address(id, outId)) == v;
  }

  lemma ReceiveKeeps(w: World, m: DM.Message, p: DM.Pass, answer: seq<AckRange>)
    requires Inv(w) && Enabled(w, Receive(m, p, answer))
    ensures Inv(Step(w, Receive(m, p, answer)))
  {
    var u := AtDestinationStep(w, DR.Received(m, p));
    DestinationKeeps(w, DR.Received(m, p));
    if Answers(w.dst, m, p) { NetworkKeeps(u, u.net + {Ack(m.seqId, answer)}); }
  }

  lemma CloseKeeps(w: World, outId: string, answer: seq<AckRange>)
    requires Inv(w) && Enabled(w, Close(outId, answer))
    ensures Inv(Step(w, Close(outId, answer)))
  {
    var u := AtDestinationStep(w, DR.Closed(outId));
    DestinationKeeps(w, DR.Closed(outId));
    if outId in w.dst.known { NetworkKeeps(u, u.net + {Ack(outId, answer)}); }
  }

  lemma StepKeeps(w: World, mv: Move)
    requires Inv(w) && Enabled(w, mv)
    ensures Inv(Step(w, mv))
  {
    match mv
    case AtSource(e) => SourceKeeps(w, e);
    case Receive(m, p, answer) => ReceiveKeeps(w, m, p, answer);
    case Close(outId, answer) => CloseKeeps(w, outId, answer);
    case Create(i, outId) => CreateKeeps(w, i, outId);
    case Address(id, outId) => AddressKeeps(w, id, outId);
    case Transmit(id, m) => NetworkKeeps(w, w.net + {App(m)});
    case Piggyback(outId, ranges) => NetworkKeeps(w, w.net + {Ack(outId, ranges)});
    case Lose(packet) => NetworkKeeps(w, w.net - {packet});
  }

  lemma {:induction false} AlwaysInv(moves: seq<Move>)
    requires Feasible(moves)
    ensures Inv(After(moves))
  {
    if moves != [] {
      AlwaysInv(moves[..|moves| - 1]);
      StepKeeps(After(moves[..|moves| - 1]), moves[|moves| - 1]);
    }
  }

  // ---- the theorems ---------------------------------------------------------------------------------------

  ghost predicate Reached(w: World) { exists moves :: Feasible(moves) && After(moves) == w }

  lemma ReachedInv(w: World)
    requires Reached(w)
    ensures Inv(w)
  {
    var moves :| Feasible(moves) && After(moves) == w;
    AlwaysInv(moves);
  }

  /** No loss: in every reachable state, every message stored since its sequence was given up last, if ever,
      is still in the sender store or listed as received under the outgoing id it was addressed to,
      provided that no other message was given its sequence and number. */
  lemma NoLoss(w: World, id: string)
    requires Reached(w) && Live(w, id) && IssuedOnce(w, w.issued[id])
    ensures id in w.src.beans || (id in w.wire && w.issued[id].number in DM.Listed(w.dst, w.wire[id]))
  {
    ReachedInv(w);
    assert StoredOrListed(w, id);
  }

  /** Only giving up makes a number come twice: the condition fails exactly when a message with the same
      sequence and number was dropped. In a sequence that was never given up it always holds. */
  lemma IssuedOnceIff(w: World, id: string)
    requires Reached(w) && Live(w, id)
    ensures IssuedOnce(w, w.issued[id]) <==>
      !exists old_id :: old_id in w.issued && old_id in w.dropped && w.issued[old_id] == w.issued[id]
  {
    ReachedInv(w);
    forall other | other in w.issued && w.issued[other] == w.issued[id] && other !in w.dropped
      ensures other == id
    {
      assert Live(w, other);
    }
  }

  /** Acknowledgements are sound: every number acknowledged in flight is in the completed list, and every
      number there belongs to a message the source issued and addressed to that sequence. */
  lemma AcksAreSound(w: World, outId: string, n: int)
    requires Reached(w)
    ensures forall ranges :: Ack(outId, ranges) in w.net && Covers(ranges, n) ==> n in DM.Listed(w.dst, outId)
    ensures n in DM.Listed(w.dst, outId) ==>
      exists id :: id in w.issued && id in w.wire && w.wire[id] == outId && w.issued[id].number == n
  {
    ReachedInv(w);
    assert n in DM.Listed(w.dst, outId) ==> Sent(w, outId, n);
  }

  lemma QueueEntryIssued(w: World, v: DM.Invocation) returns (id: string)
    requires Inv(w) && v in w.dst.queue && 1 <= v.number
    ensures id in w.wire && id in w.issued && w.wire[id] == v.seqId && w.issued[id].number == v.number
    ensures OwnedBy(w, v.seqId, w.issued[id].seqKey)
  {
    DR.QueuedAtMostOnce(w.destinationLog);
    assert Sent(w, v.seqId, v.number);
    id :| id in w.wire && id in w.issued && w.wire[id] == v.seqId && w.issued[id].number == v.number;
  }

  /** Two queue entries for one internal sequence have different numbers, even when a repeated
      CreateSequence has given that sequence several outgoing ids, unless two messages were issued with
      that number. */
  lemma QueuedOnceEndToEnd(w: World, a: int, b: int, i: string)
    requires Reached(w)
    requires 0 <= a < b < |w.dst.queue|
    requires OwnedBy(w, w.dst.queue[a].seqId, i) && OwnedBy(w, w.dst.queue[b].seqId, i)
    requires 1 <= w.dst.queue[a].number && IssuedOnce(w, Issue(i, w.dst.queue[a].number))
    ensures w.dst.queue[a].number != w.dst.queue[b].number
  {
    ReachedInv(w);
    var x, y := w.dst.queue[a], w.dst.queue[b];
    if x.number == y.number {
      var id := QueueEntryIssued(w, x);
      var other := QueueEntryIssued(w, y);
      assert w.issued[id] == Issue(i, x.number) && w.issued[other] == Issue(i, x.number);
      DR.QueuedAtMostOnce(w.destinationLog);
    }
  }

  /** How often a message was handed to the application at the destination. */
  ghost function TimesHanded(w: World, id: string): nat {
    if id in w.wire && id in w.issued
    then DR.Times(DR.Handed(DM.EMPTY, w.destinationLog), w.wire[id], w.issued[id].number) else 0
  }

  /** Whatever carried the message's number under its outgoing id met reliable surroundings. */
  ghost predicate ReliableFor(w: World, id: string) {
    id in w.wire && id in w.issued ==> DR.ReliableFor(w.destinationLog, w.wire[id], w.issued[id].number)
  }

  /** Whatever carried the message's number under its outgoing id was an application message, and met no
      fault that could not be sent. */
  ghost predicate ProperFor(w: World, id: string) {
    id in w.wire && id in w.issued ==> DR.ProperFor(w.destinationLog, w.wire[id], w.issued[id].number)
  }

  /** At most once: a message whose own passes were reliable was handed to the application at most once, and
      if so it is listed, whatever happened to other messages and sequences. */
  lemma HandedOnceEndToEnd(w: World, id: string)
    requires Reached(w) && id in w.issued && ReliableFor(w, id)
    ensures TimesHanded(w, id) <= if InList(w, id) then 1 else 0
  {
    ReachedInv(w);
    if id in w.wire { DR.TimesAtMostListed(w.destinationLog, w.wire[id], w.issued[id].number); }
  }

  /** Exactly once: an application message stored since its sequence was given up last, if ever, was handed
      to the application at most once, and exactly once as soon as it is no longer waiting in the sender
      store, whatever happened to other messages and sequences, provided that no other message was given
      its sequence and number. */
  lemma ExactlyOnceOrWaiting(w: World, id: string)
    requires Reached(w) && ProperFor(w, id)
    requires Live(w, id) && IssuedOnce(w, w.issued[id])
    ensures TimesHanded(w, id) <= 1
    ensures id !in w.src.beans ==> TimesHanded(w, id) == 1
  {
    ReachedInv(w);
    assert StoredOrListed(w, id);
    if id in w.wire { DR.HandedIffListed(w.destinationLog, w.wire[id], w.issued[id].number); }
  }

  // ---- getting through ----------------------------------------------------------------------------------------

  /** The message still waits, is addressed, and its sequence is not being terminated. */
  ghost predicate Pending(w: World, id: string) {
    && id in w.src.beans && w.src.beans[id].msgType == Application && w.src.beans[id].send
    && id in w.wire && w.wire[id] != "" && id in w.issued
    && Key(w.issued[id].seqKey, TerminateAdded) !in w.src.props
  }

  /** m carries the message, and its pass will be answered: it is a duplicate that the in handler drops, or it meets an
      open sequence whose service is found. */
  ghost predicate GetsAnswer(w: World, id: string, m: DM.Message, p: DM.Pass)
    requires id in w.wire && id in w.issued
  {
    var outId, n := w.wire[id], w.issued[id].number;
    && m.seqId == outId && m.number == n && p.ackDue
    && ((m.wsaAction != Some(DM.LastMessage) && !DR.Bare(m) && n in DM.Listed(w.dst, outId))
        || (outId in w.dst.known && outId !in w.dst.closed && p.serviceFound))
  }

  /** Sending the message once more, receiving it and processing the answer removes it. */
  ghost predicate RoundTripRemoves(w: World, id: string, m: DM.Message, p: DM.Pass,
                                   answer: seq<AckRange>, found: seq<Bean>) {
    var sent := Step(w, Transmit(id, m));
    var received := Step(sent, Receive(m, p, answer));
    var acked := AtSource(SR.Acked(m.seqId, answer, found));
    && Enabled(w, Transmit(id, m)) && Enabled(sent, Receive(m, p, answer)) && Enabled(received, acked)
    && id !in Step(received, acked).src.beans
  }

  lemma ListedAfterAnswer(d: DM.Dest, m: DM.Message, p: DM.Pass)
    requires 1 <= m.number && Answers(d, m, p)
    ensures m.number in DM.Listed(DM.Receive(d, m, p).dest, m.seqId)
  {
    DR.AnsweredIff(d, m, p);
    DR.ReceiveEffect(d, m, p);
  }

  lemma AckRemoves(w: World, id: string, ranges: seq<AckRange>, found: seq<Bean>)
    requires Inv(w) && Pending(w, id) && Covers(ranges, w.issued[id].number)
    requires ResultOf(found, w.src.beans, Some(w.issued[id].seqKey))
    ensures TextOf(w.src.props, w.wire[id], OutgoingInternalSequenceId) == Some(w.issued[id].seqKey)
    ensures id !in SM.ProcessAck(w.src, w.wire[id], ranges, found).beans
  {
    var s := w.issued[id].seqKey;
    assert SR.LinksBack(w.src.props, s, w.wire[id]);
    assert SR.Reached(w.src);
    assert IsIssue(w.src.beans[id], w.issued[id]);
    SR.AckIsSetDifference(w.src, w.wire[id], ranges, found, s);
  }

  lemma GetsAnswered(w: World, id: string, m: DM.Message, p: DM.Pass)
    requires Unique(w) && id in w.wire && id in w.issued && GetsAnswer(w, id, m, p)
    ensures Answers(w.dst, m, p) && m.number in DM.Listed(DM.Receive(w.dst, m, p).dest, m.seqId)
  {
    DR.AnsweredIff(w.dst, m, p);
    ListedAfterAnswer(w.dst, m, p);
  }

  lemma Chain(w: World, id: string, m: DM.Message, p: DM.Pass, answer: seq<AckRange>, found: seq<Bean>)
    requires id in w.issued && id in w.wire && m.seqId == w.wire[id] && m.number == w.issued[id].number
    requires Answers(w.dst, m, p) && AckOf(answer, DM.Listed(DM.Receive(w.dst, m, p).dest, m.seqId))
    requires ResultOf(found, w.src.beans, TextOf(w.src.props, m.seqId, OutgoingInternalSequenceId))
    requires id !in SM.ProcessAck(w.src, m.seqId, answer, found).beans
    ensures RoundTripRemoves(w, id, m, p, answer, found)
  {
    var sent := Step(w, Transmit(id, m));
    var received := Step(sent, Receive(m, p, answer));
    assert sent.dst == w.dst && sent.src == w.src && App(m) in sent.net;
    assert Enabled(sent, Receive(m, p, answer));
    assert received.src == w.src && Ack(m.seqId, answer) in received.net;
  }

  /** From every reachable state in which a message waits and its next delivery will be answered, whether it was
      received before or not, one undisturbed round trip takes it out of the sender store. */
  lemma RoundTrip(w: World, id: string, m: DM.Message, p: DM.Pass)
    requires Reached(w) && Pending(w, id) && GetsAnswer(w, id, m, p)
    ensures exists answer, found :: RoundTripRemoves(w, id, m, p, answer, found)
  {
    ReachedInv(w);
    var s := w.issued[id].seqKey;
    GetsAnswered(w, id, m, p);
    var list := DM.Listed(DM.Receive(w.dst, m, p).dest, m.seqId);
    AckExists(list);
    var answer :| AckOf(answer, list);
    SR.BeanNumbers(w.sourceLog, s);
    ResultExists(w.src.beans, Some(s));
    var found :| ResultOf(found, w.src.beans, Some(s));
    assert 1 <= m.number && Covers(answer, m.number);
    AckRemoves(w, id, answer, found);
    Chain(w, id, m, p, answer, found);
  }
}
