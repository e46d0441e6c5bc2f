/** What the source has recorded as acknowledged is true. */
module StoredAcks {
  import opened Prelude
  import opened ListText
  import opened AckRanges
  import opened Stores
  import opened EndToEnd
  import SM = SourceModel
  import SR = SourceRuns
  import DM = DestinationModel
  import DR = DestinationRuns

  /** The numbers in the client's completed list stored under an id. */
  function Recorded(p: Props, k: string): seq<int> {
    if Key(k, ClientCompletedMessages) in p then Numbers(p[Key(k, ClientCompletedMessages)]) else []
  }

  /** A list that was never given a value is read as the one number 0. */
  lemma NullText()
    ensures Numbers(NULL_TEXT) == [0]
  {
    SingleToken(NULL_TEXT, []);
    assert [] + NULL_TEXT == NULL_TEXT;
  }

  lemma RecordedStarted(p: Props, c: SM.Call, n: int, k: string)
    ensures Recorded(SM.Started(p, c, n), k) in {Recorded(p, k), []}
  {
    AppendNumber("", n);
  }

  lemma RecordedAck(src: SM.Src, outId: string, ranges: seq<AckRange>, found: seq<Bean>, k: string, n: int)
    requires 1 <= n && n in Recorded(SM.ProcessAck(src, outId, ranges, found).props, k)
    ensures n in Recorded(src.props, k)
      || (Covers(ranges, n) && (k == outId || SR.LinksBack(src.props, k, outId)))
  {
    NullText();
    var acked := Expand(ranges);
    ExpandCovers(ranges, n);
    if acked != [] { JoinedRoundTrip(acked); }
  }

  /** Where the record of an acknowledgement goes. */
  function RecordKey(p: Props, outId: string, s: string): string {
    if Key(outId, ClientCompletedMessages) in p then outId else s
  }

  lemma RecordStored(p: Props, outId: string, s: string, acked: seq<int>)
    ensures var q := SM.CompletedStored(p, outId, Some(s), acked);
      Recorded(q, RecordKey(p, outId, s)) ==
        if acked != [] then acked else if Key(outId, ClientCompletedMessages) in p then Recorded(p, outId) else [0]
  {
    NullText();
    if acked != [] { JoinedRoundTrip(acked); }
  }

  lemma OnlyRecord(p: Props, outId: string, s: string, acked: seq<int>, key: Key)
    requires key != Key(RecordKey(p, outId, s), ClientCompletedMessages)
    ensures SameAt(p, SM.CompletedStored(p, outId, Some(s), acked), key)
  {
  }

  lemma ExpandedIff(ranges: seq<AckRange>)
    ensures forall n :: n in Expand(ranges) <==> Covers(ranges, n)
    ensures Expand(ranges) == [] <==> forall n :: !Covers(ranges, n)
  {
    forall n
      ensures n in Expand(ranges) <==> Covers(ranges, n)
    {
      ExpandCovers(ranges, n);
    }
    if Expand(ranges) != [] {
      var n := Expand(ranges)[0];
      assert n in Expand(ranges) && Covers(ranges, n);
    }
  }

  /** The properties after an acknowledgement for a known outgoing id. */
  lemma AckProps(src: SM.Src, outId: string, ranges: seq<AckRange>, found: seq<Bean>, s: string)
    requires outId != "" && SR.LinksBack(src.props, s, outId) && Key(s, TerminateAdded) !in src.props
    ensures var acked := Expand(ranges);
      SM.ProcessAck(src, outId, ranges, found).props == SM.CompletedStored(
        src.props[Key(outId, NoOfOutGoingMessagesAcked) := PrintLong(|acked|)], outId, Some(s), acked)
  {
  }

  /** An acknowledgement for a known outgoing id stores as the count the lengths of its non-empty ranges, and
      writes nothing but the count and the record. */
  lemma AckIsCounted(src: SM.Src, outId: string, ranges: seq<AckRange>, found: seq<Bean>, s: string)
    requires outId != "" && SR.LinksBack(src.props, s, outId) && Key(s, TerminateAdded) !in src.props
    ensures var p, q := src.props, SM.ProcessAck(src, outId, ranges, found).props;
      var k := if Key(outId, ClientCompletedMessages) in p then outId else s;
      && LongOf(q, outId, NoOfOutGoingMessagesAcked, -1) == Lengths(ranges)
      && (forall key: Key :: key != Key(outId, NoOfOutGoingMessagesAcked) && key != Key(k, ClientCompletedMessages) ==>
            SameAt(p, q, key))
  {
    var p, q, acked := src.props, SM.ProcessAck(src, outId, ranges, found).props, Expand(ranges);
    var counted := p[Key(outId, NoOfOutGoingMessagesAcked) := PrintLong(|acked|)];
    AckProps(src, outId, ranges, found, s);
    ParsePrint(|acked|);
    LengthsCount(ranges);
    OnlyRecord(counted, outId, s, acked, Key(outId, NoOfOutGoingMessagesAcked));
    forall key: Key | key != Key(outId, NoOfOutGoingMessagesAcked)
      && key != Key(RecordKey(p, outId, s), ClientCompletedMessages)
      ensures SameAt(p, q, key)
    {
      OnlyRecord(counted, outId, s, acked, key);
    }
  }

  /** As the record, under the outgoing id if one was there and under the internal id otherwise, it stores exactly the
      numbers its ranges cover. Without any, a record under the outgoing id stays, and the one under the
      internal id is read as the number 0. */
  lemma AckIsRecorded(src: SM.Src, outId: string, ranges: seq<AckRange>, found: seq<Bean>, s: string)
    requires outId != "" && SR.LinksBack(src.props, s, outId) && Key(s, TerminateAdded) !in src.props
    ensures var p, q := src.props, SM.ProcessAck(src, outId, ranges, found).props;
      var here := Key(outId, ClientCompletedMessages) in p;
      var k := if here then outId else s;
      && (forall n :: Covers(ranges, n) ==> forall x :: x in Recorded(q, k) <==> Covers(ranges, x))
      && ((forall n :: !Covers(ranges, n)) ==> Recorded(q, k) == if here then Recorded(p, k) else [0])
  {
    var acked := Expand(ranges);
    var counted := src.props[Key(outId, NoOfOutGoingMessagesAcked) := PrintLong(|acked|)];
    AckProps(src, outId, ranges, found, s);
    ExpandedIff(ranges);
    RecordStored(counted, outId, s, acked);
    assert Recorded(counted, outId) == Recorded(src.props, outId);
  }

  /** For an outgoing id nobody knows the count is stored as well, but no record is started: one that is there under
      the outgoing id gets the covered numbers, if any. */
  lemma UnknownAckIsCounted(src: SM.Src, outId: string, ranges: seq<AckRange>, found: seq<Bean>)
    requires outId != "" && Key(outId, OutgoingInternalSequenceId) !in src.props
    ensures var p, q := src.props, SM.ProcessAck(src, outId, ranges, found).props;
      var here := Key(outId, ClientCompletedMessages);
      && LongOf(q, outId, NoOfOutGoingMessagesAcked, -1) == Lengths(ranges)
      && (here in q <==> here in p)
      && (here in p ==> Recorded(q, outId) == if Lengths(ranges) == 0 then Recorded(p, outId) else Expand(ranges))
      && (forall key: Key :: key != Key(outId, NoOfOutGoingMessagesAcked) && key != here ==> SameAt(p, q, key))
  {
    var acked := Expand(ranges);
    ParsePrint(|acked|);
    LengthsCount(ranges);
    if acked != [] { JoinedRoundTrip(acked); }
  }

  /** The stored count is the number of messages acknowledged when the ranges are disjoint. */
  lemma CountIsStored(src: SM.Src, outId: string, ranges: seq<AckRange>, found: seq<Bean>, s: string, covered: set<int>)
    requires outId != "" && SR.LinksBack(src.props, s, outId) && Key(s, TerminateAdded) !in src.props
    requires forall n :: n in covered <==> Covers(ranges, n)
    ensures LongOf(SM.ProcessAck(src, outId, ranges, found).props, outId, NoOfOutGoingMessagesAcked, -1) == |covered|
      <==> Disjoint(ranges)
  {
    AckIsCounted(src, outId, ranges, found, s);
    LengthsCount(ranges);
    CountIsUnionSize(ranges);
    forall n
      ensures n in covered <==> n in Elements(Expand(ranges))
    {
      ExpandCovers(ranges, n);
    }
    assert covered == Elements(Expand(ranges));
  }

  /** Giving a sequence up moves its record to its outgoing id, if it has one; no other record changes. */
  lemma RecordedGivenUp(src: SM.Src, s: string, k: string)
    ensures var after := Recorded(SM.GiveUp(src, s).props, k);
      && (k == s ==> after == [])
      && (k != s ==>
            after == Recorded(src.props, k) || (SR.LinksTo(src.props, s, k) && after == Recorded(src.props, s)))
  {
  }

  /** Where a number recorded after a step comes from. */
  lemma RecordedStep(src: SM.Src, e: SR.Event, k: string, n: int)
    requires 1 <= n && n in Recorded(SR.Step(src, e).props, k)
    ensures n in Recorded(src.props, k)
      || (e.Acked? && Covers(e.ranges, n) && (k == e.outId || SR.LinksBack(src.props, k, e.outId)))
      || (e.GaveUp? && SR.LinksTo(src.props, e.s, k) && n in Recorded(src.props, e.s))
  {
    match e
    case Sending(c) =>
      RecordedStarted(src.props, c, SM.Chosen(SM.Prev(src.props, c.seqKey), c.clientNumber), k);
    case Acked(outId, ranges, found) => RecordedAck(src, outId, ranges, found, k, n);
    case GaveUp(s) => RecordedGivenUp(src, s, k);
    case _ =>
  }

  /** The sequence a record is about: it is stored under the internal id, or under an outgoing id of it. */
  ghost function About(w: World, k: string): string { if k in w.owner then w.owner[k] else k }

  /** No id is both: generated by the destination and the internal id of a sequence. */
  ghost predicate IdsApart(w: World) { forall outId :: outId in w.owner ==> w.owner[outId] !in w.owner }

  /** The number is in the completed list of an outgoing id of s. */
  ghost predicate ReceivedFor(w: World, s: string, n: int) {
    exists outId :: n in DM.Listed(w.dst, outId) && OwnedBy(w, outId, s)
  }

  ghost predicate RecordsTrue(w: World) {
    forall k, n :: 1 <= n && n in Recorded(w.src.props, k) ==> ReceivedFor(w, About(w, k), n)
  }

  lemma ReceivedStays(w: World, mv: Move, s: string, n: int)
    requires Enabled(w, mv) && ReceivedFor(w, s, n)
    ensures ReceivedFor(Step(w, mv), s, n)
  {
    var v := Step(w, mv);
    var outId :| n in DM.Listed(w.dst, outId) && OwnedBy(w, outId, s);
    match mv
    case Receive(m, p, _) => DR.StepLists(w.dst, DR.Received(m, p), outId);
    case Create(i, other) => DR.StepLists(w.dst, DR.Opened(other), outId);
    case Close(other, _) => DR.StepLists(w.dst, DR.Closed(other), outId);
    case _ =>
    assert n in DM.Listed(v.dst, outId) && OwnedBy(v, outId, s);
  }

  lemma NewRecordReceived(w: World, e: SR.Event, k: string, n: int)
    requires Inv(w) && RecordsTrue(w) && IdsApart(w) && Enabled(w, AtSource(e))
    requires 1 <= n && n in Recorded(SR.Step(w.src, e).props, k)
    ensures ReceivedFor(w, About(w, k), n)
  {
    RecordedStep(w.src, e, k, n);
    if n in Recorded(w.src.props, k) {
      assert ReceivedFor(w, About(w, k), n);
    } else if e.Acked? {
      assert Ack(e.outId, e.ranges) in w.net;
      assert Sent(w, e.outId, n);
      var id :| id in w.wire && id in w.issued && w.wire[id] == e.outId && w.issued[id].number == n;
      assert SR.LinksBack(w.src.props, w.issued[id].seqKey, e.outId);
      assert OwnedBy(w, e.outId, w.issued[id].seqKey);
      assert About(w, k) == w.issued[id].seqKey;
    } else {
      assert OwnedBy(w, k, e.s);
      assert About(w, e.s) == e.s && ReceivedFor(w, e.s, n);
    }
  }

  /** Opening a new outgoing id never changes what an existing record is about. */
  lemma AboutStays(w: World, mv: Move, k: string, n: int)
    requires Enabled(w, mv) && IdsApart(Step(w, mv)) && ReceivedFor(w, About(w, k), n)
    ensures About(Step(w, mv), k) == About(w, k)
  {
    var outId :| n in DM.Listed(w.dst, outId) && OwnedBy(w, outId, About(w, k));
    assert OwnedBy(Step(w, mv), outId, About(w, k));
  }

  lemma RecordsStep(w: World, mv: Move)
    requires Inv(w) && RecordsTrue(w) && Enabled(w, mv) && IdsApart(w) && IdsApart(Step(w, mv))
    ensures RecordsTrue(Step(w, mv))
  {
    var v := Step(w, mv);
    forall k, n | 1 <= n && n in Recorded(v.src.props, k)
      ensures ReceivedFor(v, About(v, k), n)
    {
      if mv.AtSource? { NewRecordReceived(w, mv.e, k, n); }
      assert ReceivedFor(w, About(w, k), n);
      AboutStays(w, mv, k, n);
      ReceivedStays(w, mv, About(w, k), n);
    }
  }

  lemma ApartBefore(w: World, mv: Move)
    requires Enabled(w, mv) && IdsApart(Step(w, mv))
    ensures IdsApart(w)
  {
    var v := Step(w, mv);
    assert forall outId :: outId in w.owner ==> outId in v.owner && v.owner[outId] == w.owner[outId];
  }

  lemma {:induction false} RecordsStayTrue(moves: seq<Move>)
    requires Feasible(moves) && IdsApart(After(moves))
    ensures RecordsTrue(After(moves))
  {
    if moves != [] {
      var front, mv := moves[..|moves| - 1], moves[|moves| - 1];
      ApartBefore(After(front), mv);
      RecordsStayTrue(front);
      AlwaysInv(front);
      RecordsStep(After(front), mv);
    }
  }

  /** In every reachable state, each positive number the source has recorded as completed, under an internal id
      or under an outgoing id, is in the destination's list for that sequence, although every acknowledgement
      overwrites what was recorded before and giving up moves records. Internal ids, which carry a prefix or
      the client's key, are never ids the destination generates. */
  lemma RecordedAreReceived(w: World, k: string, n: int)
    requires Reached(w) && IdsApart(w)
    ensures 1 <= n && n in Recorded(w.src.props, k) ==>
      exists outId :: n in DM.Listed(w.dst, outId) && OwnedBy(w, outId, if k in w.owner then w.owner[k] else k)
  {
    var moves :| Feasible(moves) && After(moves) == w;
    RecordsStayTrue(moves);
    assert 1 <= n && n in Recorded(w.src.props, k) ==> ReceivedFor(w, About(w, k), n);
  }
}
