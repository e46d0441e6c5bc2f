/** What holds of the source over whole runs. */
module SourceRuns {
  import opened Prelude
  import opened ListText
  import opened AckRanges
  import opened Stores
  import opened SourceModel
  import Source

  // ---- acknowledgements as set difference -----------------------------------------------------

  predicate Hit(b: Bean, internalSeq: Option<string>, acked: seq<int>) {
    AckCandidate(b, internalSeq) && b.number in acked
  }

  /** What an acknowledgement should leave: everything but the candidates it acknowledges. */
  ghost function Unacked(beans: Beans, internalSeq: Option<string>, acked: seq<int>): Beans {
    map id | id in beans && !Hit(beans[id], internalSeq, acked) :: beans[id]
  }

  /** No two candidates share an acknowledged number. */
  ghost predicate NumbersUnique(beans: Beans, internalSeq: Option<string>, acked: seq<int>) {
    forall a, b ::
      a in beans && b in beans && Hit(beans[a], internalSeq, acked) && Hit(beans[b], internalSeq, acked) ==>
        beans[a].number == beans[b].number ==> a == b
  }

  lemma RemovedIsHit(beans: Beans, found: seq<Bean>, internalSeq: Option<string>, acked: seq<int>, id: string)
    requires Keyed(beans) && ResultOf(found, beans, internalSeq)
    ensures id in RemovedIds(found, acked) ==>
      id in beans && Hit(beans[id], internalSeq, acked) && FirstMatch(found, beans[id].number) == Some(beans[id])
    ensures id in beans && Hit(beans[id], internalSeq, acked) ==> beans[id] in found
  {
  }

  /** The nested loops compute the set difference exactly when numbers are unique among the
      candidates; of several with one number they remove the first found only. */
  lemma AckIsDifferenceIffUnique(beans: Beans, found: seq<Bean>, internalSeq: Option<string>, acked: seq<int>)
    requires Keyed(beans) && ResultOf(found, beans, internalSeq)
    ensures beans - RemovedIds(found, acked) == Unacked(beans, internalSeq, acked)
      <==> NumbersUnique(beans, internalSeq, acked)
  {
    var removed := RemovedIds(found, acked);
    if NumbersUnique(beans, internalSeq, acked) {
      forall id
        ensures id in beans - removed <==> id in Unacked(beans, internalSeq, acked)
      {
        RemovedIsHit(beans, found, internalSeq, acked, id);
        if id in beans && Hit(beans[id], internalSeq, acked) {
          Source.FirstMatchFound(found, beans[id].number);
          assert id in removed;
        }
      }
    } else {
      var a, b :| a in beans && b in beans && Hit(beans[a], internalSeq, acked)
        && Hit(beans[b], internalSeq, acked) && beans[a].number == beans[b].number && a != b;
      RemovedIsHit(beans, found, internalSeq, acked, a);
      RemovedIsHit(beans, found, internalSeq, acked, b);
      assert a !in removed || b !in removed;
      assert a !in Unacked(beans, internalSeq, acked) && b !in Unacked(beans, internalSeq, acked);
    }
  }

  /** Whatever is removed was asked for; something is removed whenever a candidate is acknowledged. */
  lemma RemovesSomethingIff(beans: Beans, found: seq<Bean>, internalSeq: Option<string>, acked: seq<int>)
    requires Keyed(beans) && ResultOf(found, beans, internalSeq)
    ensures RemovedIds(found, acked) != {} <==> exists id :: id in beans && Hit(beans[id], internalSeq, acked)
    ensures forall id :: id in RemovedIds(found, acked) ==> id in beans && Hit(beans[id], internalSeq, acked)
  {
    forall id
      ensures id in RemovedIds(found, acked) ==> id in beans && Hit(beans[id], internalSeq, acked)
    {
      RemovedIsHit(beans, found, internalSeq, acked, id);
    }
    if id :| id in beans && Hit(beans[id], internalSeq, acked) {
      RemovedIsHit(beans, found, internalSeq, acked, id);
      Source.FirstMatchFound(found, beans[id].number);
      var b := FirstMatch(found, beans[id].number).value;
      assert b.msgId in RemovedIds(found, acked);
    }
    if RemovedIds(found, acked) != {} {
      var id :| id in RemovedIds(found, acked);
      RemovedIsHit(beans, found, internalSeq, acked, id);
    }
  }

  // ---- runs -----------------------------------------------------------------------------------

  /** Adjusted: the retransmission adjuster and the worker write a bean back; Linked: an accepted offer or
      a CreateSequenceResponse; Terminating: the terminate manager has queued its message. */
  datatype Event =
    | Sending(c: Call)
    | Acked(outId: string, ranges: seq<AckRange>, found: seq<Bean>)
    | Adjusted(msgId: string, send: bool, sentCount: int)
    | Linked(internalSeq: string, outId: string)
    | Terminating(s: string)
    | GaveUp(s: string)

  ghost function Step(src: Src, e: Event): Src {
    match e
    case Sending(c) => ProcessOut(src, c).src
    case Acked(outId, ranges, found) => ProcessAck(src, outId, ranges, found)
    case Adjusted(id, send, count) =>
      if id !in src.beans then src
      else src.(beans := Updated(src.beans, src.beans[id].(send := send, sentCount := count)))
    case Linked(i, outId) => src.(props := Link(src.props, i, outId))
    case Terminating(s) => src.(props := src.props[Key(s, TerminateAdded) := TRUE])
    case GaveUp(s) => GiveUp(src, s)
  }

  ghost predicate Enabled(src: Src, e: Event) {
    e.Acked? ==> ResultOf(e.found, src.beans, TextOf(src.props, e.outId, OutgoingInternalSequenceId))
  }

  ghost function After(es: seq<Event>): Src {
    if es == [] then EMPTY else Step(After(es[..|es| - 1]), es[|es| - 1])
  }

  ghost predicate Feasible(es: seq<Event>) {
    es != [] ==> Feasible(es[..|es| - 1]) && Enabled(After(es[..|es| - 1]), es[|es| - 1])
  }

  // ---- numbering --------------------------------------------------------------------------------

  /** The number a call assigns to a real message of its sequence. */
  function AssignedBy(src: Src, c: Call): Option<int> {
    var s, p := c.seqKey, src.props;
    if c.dummy || TimedOut(p, s) || !Accepts(Prev(p, s), c.clientNumber) then None
    else Some(Chosen(Prev(p, s), c.clientNumber))
  }

  /** The number under which a message is handed on to be sent. */
  function PreparedBy(src: Src, c: Call): Option<int> {
    var r := ProcessOut(src, c).reply;
    if r.NoVersion? || r.Stored? then Some(r.number) else None
  }

  /** The numbers assigned in sequence s, in order, since it was given up last. */
  ghost function Assigned(es: seq<Event>, s: string): seq<int> {
    if es == [] then []
    else
      var front, e := es[..|es| - 1], es[|es| - 1];
      var so_far := Assigned(front, s);
      if e == GaveUp(s) then []
      else if e.Sending? && e.c.seqKey == s && AssignedBy(After(front), e.c).Some?
      then so_far + [AssignedBy(After(front), e.c).value]
      else so_far
  }

  ghost function Prepared(es: seq<Event>, s: string): seq<int> {
    if es == [] then []
    else
      var front, e := es[..|es| - 1], es[|es| - 1];
      var so_far := Prepared(front, s);
      if e == GaveUp(s) then []
      else if e.Sending? && e.c.seqKey == s && PreparedBy(After(front), e.c).Some?
      then so_far + [PreparedBy(After(front), e.c).value]
      else so_far
  }

  function Last(list: seq<int>): int { if list == [] then -1 else list[|list| - 1] }

  predicate SameNumbers(p: Props, q: Props, s: string) {
    && Prev(q, s) == Prev(p, s) && LastOut(q, s) == LastOut(p, s)
    && (Key(s, OutCreateSeqSent) in q <==> Key(s, OutCreateSeqSent) in p)
  }

  predicate IsNumber(name: PropName) { name == NextMsgNo || name == LastOutMsgNo || name == OutCreateSeqSent }

  predicate IsId(name: PropName) { name == OutgoingSequenceId || name == OutgoingInternalSequenceId }

  lemma CleanedKeeps(p: Props, s: string, key: Key)
    requires IsNumber(key.name) && key.seqId != s
    ensures SameAt(p, Cleaned(p, s), key)
  {
  }

  lemma StartedKeeps(p: Props, c: Call, n: int, key: Key)
    requires IsId(key.name) || (IsNumber(key.name) && key.seqId != c.seqKey)
    ensures SameAt(p, Started(p, c, n), key)
  {
  }

  lemma AckKeeps(src: Src, outId: string, ranges: seq<AckRange>, found: seq<Bean>, key: Key)
    requires IsId(key.name) || IsNumber(key.name)
    ensures SameAt(src.props, ProcessAck(src, outId, ranges, found).props, key)
  {
  }

  /** What can write the numbers of a sequence, and its ids. */
  lemma StepKeeps(src: Src, e: Event, key: Key)
    requires if IsNumber(key.name) then e != GaveUp(key.seqId) && !(e.Sending? && e.c.seqKey == key.seqId)
      else IsId(key.name) && !e.GaveUp? && !e.Linked?
    ensures SameAt(src.props, Step(src, e).props, key)
  {
    match e
    case Sending(c) => StartedKeeps(src.props, c, Chosen(Prev(src.props, c.seqKey), c.clientNumber), key);
    case Acked(outId, ranges, found) => AckKeeps(src, outId, ranges, found, key);
    case GaveUp(s) => CleanedKeeps(src.props, s, key);
    case _ =>
  }

  /** Only calls of the sequence and giving it up touch its numbers. */
  lemma OthersKeepNumbers(src: Src, e: Event, s: string)
    requires e != GaveUp(s) && !(e.Sending? && e.c.seqKey == s)
    ensures SameNumbers(src.props, Step(src, e).props, s)
  {
    StepKeeps(src, e, Key(s, NextMsgNo));
    StepKeeps(src, e, Key(s, LastOutMsgNo));
    StepKeeps(src, e, Key(s, OutCreateSeqSent));
  }

  lemma SendingNumbers(src: Src, c: Call)
    ensures var s, p, r := c.seqKey, src.props, ProcessOut(src, c);
      && Prev(r.src.props, s) == (match AssignedBy(src, c) case Some(n) => n case None => Prev(p, s))
      && LastOut(r.src.props, s) == (match PreparedBy(src, c) case Some(n) => n case None => LastOut(p, s))
      && (PreparedBy(src, c).Some? ==> AssignedBy(src, c) == PreparedBy(src, c))
      && (AssignedBy(src, c).Some? ==> AssignedBy(src, c).value >= 1 && AssignedBy(src, c).value > Prev(p, s))
      && (Key(s, OutCreateSeqSent) in r.src.props <==> Key(s, OutCreateSeqSent) in p || r.creating)
      && (r.creating ==> Key(s, OutCreateSeqSent) !in p)
  {
    ParsePrint(Chosen(Prev(src.props, c.seqKey), c.clientNumber));
  }

  ghost predicate Ascending(list: seq<int>, last: int) {
    && StrictlyIncreasing(list)
    && (forall n :: n in list ==> 1 <= n <= last)
    && last == Last(list)
  }

  lemma AscendingMore(list: seq<int>, last: int, n: int)
    requires Ascending(list, last) && 1 <= n && last < n
    ensures Ascending(list + [n], n)
  {
    assert forall i :: 0 <= i < |list| ==> list[i] in list;
  }

  /** Numbers accepted for real messages are strictly increasing within a sequence, from 1 upwards;
      the stored counter is the last of them. LastOutMsgNo is the largest number ever prepared for sending
      and never above the counter. */
  lemma {:induction false} Numbering(es: seq<Event>, s: string)
    requires Feasible(es)
    ensures Ascending(Assigned(es, s), Prev(After(es).props, s))
    ensures Ascending(Prepared(es, s), LastOut(After(es).props, s))
    ensures LastOut(After(es).props, s) <= Prev(After(es).props, s)
  {
    if es != [] {
      var front, e := es[..|es| - 1], es[|es| - 1];
      Numbering(front, s);
      var src := After(front);
      if e == GaveUp(s) {
        assert After(es).props == Cleaned(src.props, s)[Key(s, SequenceTimedOut) := TRUE];
      } else if e.Sending? && e.c.seqKey == s {
        SendingNumbers(src, e.c);
        if AssignedBy(src, e.c).Some? {
          AscendingMore(Assigned(front, s), Prev(src.props, s), AssignedBy(src, e.c).value);
        }
        if PreparedBy(src, e.c).Some? {
          AscendingMore(Prepared(front, s), LastOut(src.props, s), PreparedBy(src, e.c).value);
        }
      } else {
        OthersKeepNumbers(src, e, s);
      }
    }
  }

  ghost predicate NoClientNumbers(es: seq<Event>, s: string) {
    forall i :: 0 <= i < |es| && es[i].Sending? && es[i].c.seqKey == s ==> es[i].c.clientNumber.None?
  }

  lemma NextInRow(list: seq<int>, last: int)
    requires Ascending(list, last) && list == Interval(1, |list|)
    ensures list + [Chosen(last, None)] == Interval(1, |list| + 1)
  {
    IntervalIs(1, |list|);
    IntervalSnoc(1, |list| + 1);
    if list != [] { IntervalSnoc(1, |list|); }
  }

  /** When the client sets no numbers, the numbers of the real messages are 1 to k: nothing that fails and
      no dummy message leaves a gap. */
  lemma {:induction false} NumbersWithoutGaps(es: seq<Event>, s: string)
    requires Feasible(es) && NoClientNumbers(es, s)
    ensures Assigned(es, s) == Interval(1, |Assigned(es, s)|)
  {
    if es != [] {
      var front, e := es[..|es| - 1], es[|es| - 1];
      assert forall i :: 0 <= i < |front| ==> front[i] == es[i];
      NumbersWithoutGaps(front, s);
      Numbering(front, s);
      NextInRow(Assigned(front, s), Prev(After(front).props, s));
    }
  }

  ghost predicate AboveAll(client: Option<int>, list: seq<int>) {
    client.Some? ==> 1 <= client.value && forall n :: n in list ==> n < client.value
  }

  /** A call is accepted if and only if it leaves the number open or asks for one above every number assigned
      before in its sequence; a rejected call leaves no trace at all. */
  lemma AcceptedIffAboveAll(es: seq<Event>, c: Call)
    requires Feasible(es) && !TimedOut(After(es).props, c.seqKey)
    ensures var reply := ProcessOut(After(es), c).reply;
      && (!reply.Rejected? <==> AboveAll(c.clientNumber, Assigned(es, c.seqKey)))
      && (reply.Rejected? ==> After(es + [Sending(c)]) == After(es))
  {
    var list := Assigned(es, c.seqKey);
    Numbering(es, c.seqKey);
    assert list != [] ==> Last(list) in list;
    assert (es + [Sending(c)])[..|es|] == es;
  }

  /** The numbers given to send_app_msg in sequence s, whether or not it gets past finding the policy. */
  ghost function Given(es: seq<Event>, s: string): seq<int> {
    if es == [] then []
    else
      var front, e := es[..|es| - 1], es[|es| - 1];
      var so_far := Given(front, s);
      if e == GaveUp(s) then []
      else if e.Sending? && e.c.seqKey == s && GivenBy(After(front), e.c).Some?
      then so_far + [GivenBy(After(front), e.c).value]
      else so_far
  }

  function GivenBy(src: Src, c: Call): Option<int> {
    var r := ProcessOut(src, c).reply;
    if r.NoPolicy? || r.NoVersion? || r.Stored? then Some(r.number) else None
  }

  /** The last message given to send_app_msg found its policy. */
  ghost predicate LastFoundPolicy(es: seq<Event>, s: string) {
    es != [] ==>
      var front, e := es[..|es| - 1], es[|es| - 1];
      if e == GaveUp(s) then true
      else if e.Sending? && e.c.seqKey == s && GivenBy(After(front), e.c).Some? then e.c.policyFound
      else LastFoundPolicy(front, s)
  }

  lemma SendingGiven(src: Src, c: Call)
    ensures GivenBy(src, c).Some? ==> GivenBy(src, c) == AssignedBy(src, c)
    ensures PreparedBy(src, c) == if c.policyFound then GivenBy(src, c) else None
    ensures var s, r := c.seqKey, ProcessOut(src, c);
      Key(s, LastOutMsgNo) in r.src.props <==> Key(s, LastOutMsgNo) in src.props || PreparedBy(src, c).Some?
  {
  }

  lemma {:induction false} GivenNumbers(es: seq<Event>, s: string)
    requires Feasible(es)
    ensures Ascending(Given(es, s), Last(Given(es, s))) && Last(Given(es, s)) <= Prev(After(es).props, s)
    ensures LastOut(After(es).props, s) <= Last(Given(es, s))
    ensures LastOut(After(es).props, s) == Last(Given(es, s)) <==> LastFoundPolicy(es, s)
    ensures Key(s, LastOutMsgNo) in After(es).props <==> Prepared(es, s) != []
  {
    if es != [] {
      var front, e := es[..|es| - 1], es[|es| - 1];
      GivenNumbers(front, s);
      Numbering(front, s);
      Numbering(es, s);
      var src := After(front);
      if e == GaveUp(s) {
        assert After(es).props == Cleaned(src.props, s)[Key(s, SequenceTimedOut) := TRUE];
      } else if e.Sending? && e.c.seqKey == s {
        SendingNumbers(src, e.c);
        SendingGiven(src, e.c);
        if GivenBy(src, e.c).Some? {
          AscendingMore(Given(front, s), Last(Given(front, s)), GivenBy(src, e.c).value);
        }
      } else {
        StepKeeps(src, e, Key(s, LastOutMsgNo));
        OthersKeepNumbers(src, e, s);
      }
    }
  }

  /** The number a CloseSequence carries is there exactly when a message was prepared for sending, and is the
      largest of their numbers. It is the largest ever given to send_app_msg if and only if the last
      message given found its policy. */
  lemma LastNumberIsMaximum(es: seq<Event>, s: string)
    requires Feasible(es)
    ensures match CloseNumber(After(es).props, s)
      case None => Prepared(es, s) == []
      case Some(last) =>
        && last in Prepared(es, s) && (forall n :: n in Prepared(es, s) ==> n <= last)
        && ((last in Given(es, s) && forall n :: n in Given(es, s) ==> n <= last) <==> LastFoundPolicy(es, s))
  {
    Numbering(es, s);
    GivenNumbers(es, s);
    var given := Given(es, s);
    assert given != [] ==> Last(given) in given;
  }

  // ---- sender beans -------------------------------------------------------------------------------

  /** Beans of one sequence carry numbers that were prepared for it, and no two the same. */
  ghost predicate BeansRight(beans: Beans, s: string, prepared: seq<int>) {
    && Keyed(beans)
    && (forall id :: id in beans && beans[id].internalSeq == s ==> beans[id].number in prepared)
    && (forall a, b :: a in beans && b in beans && beans[a].internalSeq == s && beans[b].internalSeq == s ==>
          beans[a].number == beans[b].number ==> a == b)
  }

  lemma SendingBeans(src: Src, c: Call, s: string, prepared: seq<int>)
    requires BeansRight(src.beans, s, prepared)
    requires c.seqKey == s && PreparedBy(src, c).Some? ==> PreparedBy(src, c).value !in prepared
    ensures BeansRight(
      ProcessOut(src, c).src.beans, s,
      if c.seqKey == s && PreparedBy(src, c).Some? then prepared + [PreparedBy(src, c).value] else prepared)
  {
    var after := ProcessOut(src, c).src.beans;
    assert after == src.beans || (PreparedBy(src, c).Some?
      && after == WithBean(src.beans, NewBean(c, PreparedBy(src, c).value)));
  }

  /** Every application bean's number is at most LastOutMsgNo, which is at most NextMsgNo, and numbers
      are unique per sequence. */
  lemma {:induction false} BeanNumbers(es: seq<Event>, s: string)
    requires Feasible(es)
    ensures BeansRight(After(es).beans, s, Prepared(es, s))
    ensures forall id :: id in After(es).beans && After(es).beans[id].internalSeq == s ==>
      1 <= After(es).beans[id].number <= LastOut(After(es).props, s) <= Prev(After(es).props, s)
  {
    Numbering(es, s);
    if es != [] {
      var front, e := es[..|es| - 1], es[|es| - 1];
      BeanNumbers(front, s);
      Numbering(front, s);
      var src := After(front);
      if e.Sending? {
        SendingNumbers(src, e.c);
        SendingBeans(src, e.c, s, Prepared(front, s));
      }
    }
  }

  // ---- acknowledgements in a run ----------------------------------------------------------------------

  ghost predicate Reached(src: Src) { exists es :: Feasible(es) && After(es) == src }

  ghost predicate Acknowledged(b: Bean, s: string, ranges: seq<AckRange>) {
    b.internalSeq == s && b.msgType == Application && b.send && Covers(ranges, b.number)
  }

  ghost function Remaining(beans: Beans, s: string, ranges: seq<AckRange>): Beans {
    map id | id in beans && !Acknowledged(beans[id], s, ranges) :: beans[id]
  }

  /** In every reachable state, an acknowledgement for a known outgoing id (whose sequence is not being
      terminated) leaves exactly the store minus the beans of the sequence it belongs to whose number is
      in some range. */
  lemma AckIsSetDifference(src: Src, outId: string, ranges: seq<AckRange>, found: seq<Bean>, s: string)
    requires Reached(src) && ResultOf(found, src.beans, Some(s)) && outId != ""
    requires LinksBack(src.props, s, outId) && Key(s, TerminateAdded) !in src.props
    ensures ProcessAck(src, outId, ranges, found).beans == Remaining(src.beans, s, ranges)
  {
    var es :| Feasible(es) && After(es) == src;
    BeanNumbers(es, s);
    AckIsDifferenceIffUnique(src.beans, found, Some(s), Expand(ranges));
    forall id | id in src.beans
      ensures Hit(src.beans[id], Some(s), Expand(ranges)) <==> Acknowledged(src.beans[id], s, ranges)
    {
      ExpandCovers(ranges, src.beans[id].number);
    }
  }

  /** An application message that is still to be sent, of whatever sequence. */
  predicate Waits(b: Bean) { b.msgType == Application && b.send }

  /** An acknowledgement for an outgoing id nobody knows is processed with no condition on the sequence:
      it removes something exactly when any sequence at all has a waiting message with such a number. */
  lemma UnknownAckRemovesIff(src: Src, outId: string, ranges: seq<AckRange>, found: seq<Bean>)
    requires Reached(src) && ResultOf(found, src.beans, None) && outId != ""
    requires Key(outId, OutgoingInternalSequenceId) !in src.props
    ensures ProcessAck(src, outId, ranges, found).beans != src.beans
      <==> exists id :: id in src.beans && Waits(src.beans[id]) && Covers(ranges, src.beans[id].number)
  {
    var es :| Feasible(es) && After(es) == src;
    BeanNumbers(es, "");
    forall id | id in src.beans
      ensures Hit(src.beans[id], None, Expand(ranges)) <==>
        Waits(src.beans[id]) && Covers(ranges, src.beans[id].number)
    {
      ExpandCovers(ranges, src.beans[id].number);
    }
    RemovesSomethingIff(src.beans, found, None, Expand(ranges));
    var removed := RemovedIds(found, Expand(ranges));
    if removed != {} {
      var id :| id in removed;
      assert id in src.beans && id !in src.beans - removed;
    }
  }

  // ---- create sequence --------------------------------------------------------------------------------

  /** How often the create sequence exchange was started for s since it was given up last. */
  ghost function Creations(es: seq<Event>, s: string): nat {
    if es == [] then 0
    else
      var front, e := es[..|es| - 1], es[|es| - 1];
      if e == GaveUp(s) then 0
      else if e.Sending? && e.c.seqKey == s && ProcessOut(After(front), e.c).creating then Creations(front, s) + 1
      else Creations(front, s)
  }

  /** At most one exchange per internal sequence, though number 1 is chosen again after dummy messages
      and after an attempt that failed. */
  lemma {:induction false} OneCreateSequence(es: seq<Event>, s: string)
    requires Feasible(es)
    ensures Creations(es, s) <= 1
    ensures Creations(es, s) == 1 <==> Key(s, OutCreateSeqSent) in After(es).props
  {
    if es != [] {
      var front, e := es[..|es| - 1], es[|es| - 1];
      OneCreateSequence(front, s);
      if e.Sending? && e.c.seqKey == s {
        SendingNumbers(After(front), e.c);
      } else if e == GaveUp(s) {
        assert After(es).props == Cleaned(After(front).props, s)[Key(s, SequenceTimedOut) := TRUE];
      } else {
        OthersKeepNumbers(After(front), e, s);
      }
    }
  }

  // ---- sequence ids -----------------------------------------------------------------------------------

  ghost predicate LinksTo(p: Props, i: string, outId: string) {
    TextOf(p, i, OutgoingSequenceId) == Some(outId)
  }

  ghost predicate LinksBack(p: Props, i: string, outId: string) {
    TextOf(p, outId, OutgoingInternalSequenceId) == Some(i)
  }

  /** Outgoing id by internal id and internal id by outgoing id are inverse partial injections. */
  ghost predicate Inverse(p: Props) {
    forall i, outId :: LinksTo(p, i, outId) <==> LinksBack(p, i, outId)
  }

  /** The condition under which a link is harmless: both ids are new, or they are each other's already. */
  predicate FreshLink(p: Props, i: string, outId: string) {
    || (Key(i, OutgoingSequenceId) !in p && Key(outId, OutgoingInternalSequenceId) !in p)
    || TextOf(p, i, OutgoingSequenceId) == Some(outId)
  }

  lemma LinkKeepsInverseIff(p: Props, i: string, outId: string)
    requires Inverse(p)
    ensures Inverse(Link(p, i, outId)) <==> FreshLink(p, i, outId)
  {
    var q := Link(p, i, outId);
    if FreshLink(p, i, outId) {
      assert LinksTo(p, i, outId) ==> LinksBack(p, i, outId);
      forall j, other
        ensures LinksTo(q, j, other) <==> LinksBack(q, j, other)
      {
        assert LinksTo(p, j, other) <==> LinksBack(p, j, other);
        assert LinksTo(q, j, other) <==> if j == i then other == outId else LinksTo(p, j, other);
        assert LinksBack(q, j, other) <==> if other == outId then j == i else LinksBack(p, j, other);
      }
    } else if Key(i, OutgoingSequenceId) in p {
      var before := p[Key(i, OutgoingSequenceId)];
      assert LinksTo(p, i, before) && before != outId;
      assert LinksBack(q, i, before) && !LinksTo(q, i, before);
    } else {
      var before := p[Key(outId, OutgoingInternalSequenceId)];
      assert LinksBack(p, before, outId) && before != i;
      assert LinksTo(q, before, outId) && !LinksBack(q, before, outId);
    }
  }

  /** An offer keeps the maps inverse exactly when it is too short to be accepted, or fresh. */
  lemma OfferKeepsInverseIff(p: Props, incoming: string, offered: string)
    requires Inverse(p)
    ensures Inverse(AcceptOffer(p, incoming, offered))
      <==> |offered| <= 1 || FreshLink(p, InternalId(incoming), offered)
  {
    LinkKeepsInverseIff(p, InternalId(incoming), offered);
  }

  /** Giving a sequence up keeps the maps inverse exactly when it was not linked. */
  lemma GiveUpKeepsInverseIff(src: Src, s: string)
    requires Inverse(src.props)
    ensures Inverse(GiveUp(src, s).props) <==> Key(s, OutgoingSequenceId) !in src.props
  {
    var p, q := src.props, GiveUp(src, s).props;
    forall i, outId
      ensures LinksTo(q, i, outId) <==> LinksTo(p, i, outId) && i != s
      ensures LinksBack(q, i, outId) <==> LinksBack(p, i, outId)
    {
      CleanedIds(p, s, i);
      CleanedIds(p, s, outId);
    }
    if Key(s, OutgoingSequenceId) in p {
      var outId := p[Key(s, OutgoingSequenceId)];
      assert LinksTo(p, s, outId);
      assert LinksBack(q, s, outId) && !LinksTo(q, s, outId);
    } else {
      forall i, outId
        ensures LinksTo(q, i, outId) <==> LinksBack(q, i, outId)
      {
        assert LinksTo(p, i, outId) <==> LinksBack(p, i, outId);
      }
    }
  }

  /** The events that leave the maps inverse: fresh links, and giving up what was never linked. */
  predicate KeepsInverse(p: Props, e: Event) {
    match e
    case Linked(i, outId) => FreshLink(p, i, outId)
    case GaveUp(s) => Key(s, OutgoingSequenceId) !in p
    case _ => true
  }

  lemma InverseStepIff(src: Src, e: Event)
    requires Inverse(src.props)
    ensures Inverse(Step(src, e).props) <==> KeepsInverse(src.props, e)
  {
    match e
    case Linked(i, outId) => LinkKeepsInverseIff(src.props, i, outId);
    case GaveUp(s) => GiveUpKeepsInverseIff(src, s);
    case _ =>
      var p, q := src.props, Step(src, e).props;
      forall i, outId
        ensures LinksTo(q, i, outId) <==> LinksBack(q, i, outId)
      {
        assert LinksTo(p, i, outId) <==> LinksBack(p, i, outId);
        StepKeeps(src, e, Key(i, OutgoingSequenceId));
        StepKeeps(src, e, Key(outId, OutgoingInternalSequenceId));
      }
  }

  ghost predicate AllKeepInverse(es: seq<Event>) {
    es != [] ==> AllKeepInverse(es[..|es| - 1]) && KeepsInverse(After(es[..|es| - 1]).props, es[|es| - 1])
  }

  ghost predicate AlwaysInverse(es: seq<Event>) {
    Inverse(After(es).props) && (es != [] ==> AlwaysInverse(es[..|es| - 1]))
  }

  /** The maps are inverse partial injections at every moment of a run exactly when all its links are fresh and
      only unlinked sequences are given up. */
  lemma {:induction false} IdsStayInverse(es: seq<Event>)
    ensures AlwaysInverse(es) <==> AllKeepInverse(es)
  {
    if es != [] {
      var front, e := es[..|es| - 1], es[|es| - 1];
      IdsStayInverse(front);
      assert AlwaysInverse(front) ==> Inverse(After(front).props);
      if Inverse(After(front).props) { InverseStepIff(After(front), e); }
    }
  }

  /** An outgoing id leads back to the sequence that uses it; this much survives giving up. */
  ghost predicate LeadsBack(p: Props) {
    forall i, outId :: LinksTo(p, i, outId) ==> LinksBack(p, i, outId)
  }

  /** The outgoing id is still used by another sequence. */
  predicate Taken(p: Props, i: string, outId: string) {
    match TextOf(p, outId, OutgoingInternalSequenceId)
    case Some(j) => j != i && TextOf(p, j, OutgoingSequenceId) == Some(outId)
    case None => false
  }

  lemma LeadsBackStepIff(src: Src, e: Event)
    requires LeadsBack(src.props)
    ensures LeadsBack(Step(src, e).props) <==> (e.Linked? ==> !Taken(src.props, e.internalSeq, e.outId))
  {
    var p, q := src.props, Step(src, e).props;
    forall i, outId
      ensures !e.Linked? ==> (LinksTo(q, i, outId) ==> LinksBack(q, i, outId))
      ensures e.Linked? && !Taken(p, e.internalSeq, e.outId) ==> (LinksTo(q, i, outId) ==> LinksBack(q, i, outId))
    {
      assert LinksTo(p, i, outId) ==> LinksBack(p, i, outId);
      if e.GaveUp? {
        CleanedIds(p, e.s, i);
        CleanedIds(p, e.s, outId);
      } else if !e.Linked? {
        StepKeeps(src, e, Key(i, OutgoingSequenceId));
        StepKeeps(src, e, Key(outId, OutgoingInternalSequenceId));
      }
    }
    if e.Linked? && Taken(p, e.internalSeq, e.outId) {
      var j := p[Key(e.outId, OutgoingInternalSequenceId)];
      assert LinksTo(q, j, e.outId) && !LinksBack(q, j, e.outId);
    }
  }

  ghost predicate NoneTaken(es: seq<Event>) {
    es != [] ==>
      && NoneTaken(es[..|es| - 1])
      && (es[|es| - 1].Linked? ==>
            !Taken(After(es[..|es| - 1]).props, es[|es| - 1].internalSeq, es[|es| - 1].outId))
  }

  lemma {:induction false} IdsLeadBack(es: seq<Event>)
    requires NoneTaken(es)
    ensures LeadsBack(After(es).props)
  {
    if es != [] {
      IdsLeadBack(es[..|es| - 1]);
      LeadsBackStepIff(After(es[..|es| - 1]), es[|es| - 1]);
    }
  }

  ghost predicate ReachedUntaken(src: Src) { exists es :: Feasible(es) && NoneTaken(es) && After(es) == src }

  /** While no outgoing id is linked that another sequence still uses, an acknowledgement on the outgoing id
      of one sequence never removes a message of another one, whatever was given up before. */
  lemma AckStaysInSequence(src: Src, i: string, outId: string, ranges: seq<AckRange>, found: seq<Bean>,
                           id: string)
    requires ReachedUntaken(src) && Enabled(src, Acked(outId, ranges, found))
    requires LinksTo(src.props, i, outId)
    requires id in src.beans && src.beans[id].internalSeq != i
    ensures id in ProcessAck(src, outId, ranges, found).beans
  {
    var es :| Feasible(es) && NoneTaken(es) && After(es) == src;
    IdsLeadBack(es);
    assert LinksBack(src.props, i, outId);
    BeanNumbers(es, i);
    RemovesSomethingIff(src.beans, found, Some(i), Expand(ranges));
  }

  /** A server that is offered one outgoing id for two sequences keeps both on it, but the id leads back to the
      second alone: an acknowledgement on it leaves every bean of the first sequence in place and
      removes those of the second. */
  lemma OfferedTwice(es: seq<Event>, i: string, j: string, outId: string, ranges: seq<AckRange>, found: seq<Bean>)
    requires Feasible(es) && i != j && outId != ""
    requires var src := After(es + [Linked(i, outId)] + [Linked(j, outId)]);
      Key(j, TerminateAdded) !in src.props && ResultOf(found, src.beans, Some(j))
    ensures var src := After(es + [Linked(i, outId)] + [Linked(j, outId)]);
      && LinksTo(src.props, i, outId) && LinksTo(src.props, j, outId) && !Inverse(src.props)
      && (forall id :: id in src.beans && src.beans[id].internalSeq == i ==>
            id in ProcessAck(src, outId, ranges, found).beans)
      && ProcessAck(src, outId, ranges, found).beans == Remaining(src.beans, j, ranges)
  {
    var once := es + [Linked(i, outId)];
    var twice := once + [Linked(j, outId)];
    assert once[..|es|] == es && twice[..|once|] == once;
    var src := After(twice);
    assert src == Step(Step(After(es), Linked(i, outId)), Linked(j, outId));
    assert LinksTo(src.props, i, outId) && !LinksBack(src.props, i, outId);
    assert Feasible(twice) && Reached(src);
    AckIsSetDifference(src, outId, ranges, found, j);
  }

  lemma CleanedIds(p: Props, s: string, x: string)
    ensures SameAt(p, Cleaned(p, s), Key(x, OutgoingInternalSequenceId))
    ensures x != s ==> SameAt(p, Cleaned(p, s), Key(x, OutgoingSequenceId))
    ensures Key(s, OutgoingSequenceId) !in Cleaned(p, s)
  {
  }

  /** Giving a sequence up leaves the way back from its outgoing id: the numbering starts again at 1, but
      acknowledgements of the old outgoing id still lead to the internal id, whatever it is used for now. */
  lemma GivenUpLeavesWayBack(src: Src, s: string, outId: string)
    requires LinksBack(src.props, s, outId)
    ensures var p := GiveUp(src, s).props;
      && LinksBack(p, s, outId) && !LinksTo(p, s, outId)
      && Prev(p, s) == -1 && LastOut(p, s) == -1
  {
    CleanedIds(src.props, s, outId);
  }

  /** Offers to different incoming sequences are linked to different internal ids. */
  lemma InternalIdInjective(incoming: string, other: string)
    ensures InternalId(incoming) == InternalId(other) <==> incoming == other
  {
    if InternalId(incoming) == InternalId(other) {
      assert InternalId(incoming)[|INTERNAL_PREFIX|..] == incoming;
      assert InternalId(other)[|INTERNAL_PREFIX|..] == other;
    }
  }
}
