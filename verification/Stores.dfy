/** The persistent stores: the sequence property table and the sender table. */
module Stores {
  import opened Prelude
  import opened ListText

  // ---- sequence properties ------------------------------------------------------------------

  datatype PropName =
    | ServerCompletedMessages
    | HighestInMsgNumber
    | SequenceClosed
    | NextMsgNo
    | LastOutMsgNo
    | HighestOutMsgNumber
    | OutgoingSequenceId
    | OutgoingInternalSequenceId
    | OutCreateSeqSent
    | ClientCompletedMessages
    | NoOfOutGoingMessagesAcked
    | TerminateAdded
    | SequenceTimedOut

  datatype Key = Key(seqId: string, name: PropName)

  datatype Row = Row(key: Key, value: string)

  type Props = map<Key, string>

  const TRUE := "true"

  /** How the SQL writer prints a value that was never set. */
  const NULL_TEXT := "(null)"

  /** What the rows mean to a reader: for each key the value of the row inserted last. */
  ghost function ViewOf(rows: seq<Row>): Props {
    if rows == [] then map[]
    else
      var last := rows[|rows| - 1];
      ViewOf(rows[..|rows| - 1])[last.key := last.value]
  }

  function Rewritten(rows: seq<Row>, key: Key, value: string): (r: seq<Row>)
    ensures |r| == |rows|
    ensures forall i :: 0 <= i < |r| ==> r[i] == if rows[i].key == key then Row(key, value) else rows[i]
  {
    seq(|rows|, i requires 0 <= i < |rows| => if rows[i].key == key then Row(key, value) else rows[i])
  }

  function Without(rows: seq<Row>, key: Key): seq<Row> {
    if rows == [] then []
    else
      var last := rows[|rows| - 1];
      var front := Without(rows[..|rows| - 1], key);
      if last.key == key then front else front + [last]
  }

  lemma {:induction false} RewriteView(rows: seq<Row>, key: Key, value: string)
    ensures key in ViewOf(rows) ==> ViewOf(Rewritten(rows, key, value)) == ViewOf(rows)[key := value]
    ensures key !in ViewOf(rows) ==> ViewOf(Rewritten(rows, key, value)) == ViewOf(rows)
  {
    if rows != [] {
      var n := |rows| - 1;
      RewriteView(rows[..n], key, value);
      assert Rewritten(rows, key, value)[..n] == Rewritten(rows[..n], key, value);
    }
  }

  lemma RemoveAfterSet(v: Props, row: Row, key: Key)
    ensures v[row.key := row.value] - {key} == if row.key == key then v - {key} else (v - {key})[row.key := row.value]
  {
  }

  lemma {:induction false} WithoutView(rows: seq<Row>, key: Key)
    ensures ViewOf(Without(rows, key)) == ViewOf(rows) - {key}
  {
    if rows != [] {
      var n := |rows| - 1;
      var front := Without(rows[..n], key);
      WithoutView(rows[..n], key);
      RemoveAfterSet(ViewOf(rows[..n]), rows[n], key);
      assert (front + [rows[n]])[..|front|] == front;
    }
  }

  /** The table has no primary key: inserting adds a row even when the key is present, reading keeps
      the last row, updating rewrites every row of the key. */
  class PropertyStore {
    var rows: seq<Row>

    constructor ()
      ensures View() == map[]
    {
      rows := [];
    }

    ghost function View(): Props
      reads this
    {
      ViewOf(rows)
    }

    method Insert(key: Key, value: string)
      modifies this
      ensures View() == old(View())[key := value]
    {
      rows := rows + [Row(key, value)];
      assert rows[..|rows| - 1] == old(rows);
    }

    /** The row callback starts a new bean for every row it is given, so the last one stays. */
    method Retrieve(key: Key) returns (value: Option<string>)
      ensures value == if key in View() then Some(View()[key]) else None
    {
      value := None;
      for i := 0 to |rows|
        invariant value == if key in ViewOf(rows[..i]) then Some(ViewOf(rows[..i])[key]) else None
      {
        assert rows[..i + 1][..i] == rows[..i];
        if rows[i].key == key { value := Some(rows[i].value); }
      }
      assert rows[..|rows|] == rows;
    }

    method Update(key: Key, value: string)
      modifies this
      ensures View() == if key in old(View()) then old(View())[key := value] else old(View())
    {
      RewriteView(rows, key, value);
      rows := Rewritten(rows, key, value);
    }

    method Remove(key: Key)
      modifies this
      ensures View() == old(View()) - {key}
    {
      WithoutView(rows, key);
      rows := Without(rows, key);
    }
  }

  function TextOf(p: Props, s: string, name: PropName): Option<string> {
    if Key(s, name) in p then Some(p[Key(s, name)]) else None
  }

  function LongOf(p: Props, s: string, name: PropName, absent: int): int {
    if Key(s, name) in p then ParseLong(p[Key(s, name)]) else absent
  }

  /** The properties only the destination writes. */
  predicate AtDestination(name: PropName) {
    name == ServerCompletedMessages || name == HighestInMsgNumber || name == SequenceClosed
  }

  ghost predicate SameAt(p: Props, q: Props, key: Key) {
    && (key in q <==> key in p)
    && (key in p ==> q[key] == p[key])
  }

  /** Nothing but properties of the destination has been written between p and q. */
  ghost predicate OnlyDestination(p: Props, q: Props) {
    forall key: Key :: !AtDestination(key.name) ==> SameAt(p, q, key)
  }

  // ---- row ids ------------------------------------------------------------------------------

  /** The id column of a row. */
  function RowId(seqId: string, name: string): string { seqId + ":" + name }

  /** Joining id and name with a colon loses nothing, even when sequence ids contain colons (their
      names never do): rows of two properties are never mixed up. */
  lemma RowIdInjective(s: string, name: string, t: string, other: string)
    requires RowId(s, name) == RowId(t, other)
    requires ':' !in name && ':' !in other
    ensures s == t && name == other
  {
    var a, b := RowId(s, name), RowId(t, other);
    assert forall i :: |s| < i < |a| ==> a[i] == name[i - |s| - 1];
    assert forall i :: |t| < i < |b| ==> b[i] == other[i - |t| - 1];
    assert a[|s|] == ':' && b[|t|] == ':';
    assert |s| == |t|;
    assert a[..|s|] == s && b[..|t|] == t;
    assert a[|s| + 1..] == name && b[|t| + 1..] == other;
  }

  // ---- sender beans ---------------------------------------------------------------------------

  datatype MsgType = Application | CreateSequence | Acknowledgement | TerminateSequence

  datatype Bean = Bean(msgId: string, internalSeq: string, number: int, msgType: MsgType,
                       send: bool, resend: bool, sentCount: int)

  type Beans = map<string, Bean>

  ghost predicate Keyed(beans: Beans) {
    forall id :: id in beans ==> beans[id].msgId == id
  }

  /** Updating rewrites the row with the bean's message id, if there is one; it never adds a row. */
  function Updated(beans: Beans, b: Bean): Beans { if b.msgId in beans then beans[b.msgId := b] else beans }

  function WithoutSequence(beans: Beans, s: string): Beans {
    map id | id in beans && beans[id].internalSeq != s :: beans[id]
  }

  /** The answer of get_application_msg_to_send, which asks for messages that are still to be sent. */
  function ToSend(beans: Beans, s: string, msgId: string): Option<Bean> {
    if msgId in beans && beans[msgId].internalSeq == s && beans[msgId].msgType == Application && beans[msgId].send
    then Some(beans[msgId]) else None
  }

  /** The condition of find_by_sender_bean as acknowledgement processing fills it in; an internal id
      that is not known adds no condition, and the resend flag is never part of the query. */
  predicate AckCandidate(b: Bean, internalSeq: Option<string>) {
    && b.msgType == Application
    && b.send
    && (internalSeq.Some? ==> b.internalSeq == internalSeq.value)
  }

  /** A query result: each matching bean once, in some order. */
  ghost predicate ResultOf(found: seq<Bean>, beans: Beans, internalSeq: Option<string>) {
    && (forall b :: b in found ==> b.msgId in beans && beans[b.msgId] == b && AckCandidate(b, internalSeq))
    && (forall id :: id in beans && AckCandidate(beans[id], internalSeq) ==> beans[id] in found)
  }

  /** A query result over some of the message ids. */
  ghost predicate ResultFor(found: seq<Bean>, beans: Beans, internalSeq: Option<string>, ids: set<string>) {
    && (forall b :: b in found ==> b.msgId in beans && beans[b.msgId] == b && AckCandidate(b, internalSeq))
    && (forall id :: id in ids && id in beans && AckCandidate(beans[id], internalSeq) ==> beans[id] in found)
  }

  lemma {:induction false} ResultForSome(beans: Beans, internalSeq: Option<string>, ids: set<string>)
    requires Keyed(beans) && ids <= beans.Keys
    ensures exists found :: ResultFor(found, beans, internalSeq, ids)
    decreases |ids|
  {
    if ids == {} {
      assert ResultFor([], beans, internalSeq, ids);
    } else {
      var id :| id in ids;
      ResultForSome(beans, internalSeq, ids - {id});
      var rest :| ResultFor(rest, beans, internalSeq, ids - {id});
      var found := if AckCandidate(beans[id], internalSeq) then rest + [beans[id]] else rest;
      assert forall other :: other in ids ==> other == id || other in ids - {id};
      assert ResultFor(found, beans, internalSeq, ids);
    }
  }

  /** Every query has an answer. */
  lemma ResultExists(beans: Beans, internalSeq: Option<string>)
    requires Keyed(beans)
    ensures exists found :: ResultOf(found, beans, internalSeq)
  {
    ResultForSome(beans, internalSeq, beans.Keys);
    var found :| ResultFor(found, beans, internalSeq, beans.Keys);
    assert ResultOf(found, beans, internalSeq);
  }

  class SenderStore {
    var beans: Beans

    constructor ()
      ensures beans == map[]
    {
      beans := map[];
    }

    /** msg_id is the primary key of this table: inserting a second bean under it fails. */
    method Insert(bean: Bean) returns (inserted: bool)
      modifies this
      ensures inserted <==> bean.msgId !in old(beans)
      ensures beans == if inserted then old(beans)[bean.msgId := bean] else old(beans)
      ensures Keyed(old(beans)) ==> Keyed(beans)
    {
      inserted := bean.msgId !in beans;
      if inserted { beans := beans[bean.msgId := bean]; }
    }

    method Remove(msgId: string)
      modifies this
      ensures beans == old(beans) - {msgId}
      ensures Keyed(old(beans)) ==> Keyed(beans)
    {
      beans := beans - {msgId};
    }

    method Update(bean: Bean)
      modifies this
      ensures beans == Updated(old(beans), bean)
      ensures Keyed(old(beans)) ==> Keyed(beans)
    {
      if bean.msgId in beans { beans := beans[bean.msgId := bean]; }
    }

    method FindCandidates(internalSeq: Option<string>) returns (found: seq<Bean>)
      requires Keyed(beans)
      ensures ResultOf(found, beans, internalSeq)
    {
      found := [];
      var ids := beans.Keys;
      while ids != {}
        invariant ids <= beans.Keys
        invariant forall b :: b in found ==> b.msgId in beans && beans[b.msgId] == b && AckCandidate(b, internalSeq)
        invariant forall id :: id in beans.Keys - ids && AckCandidate(beans[id], internalSeq) ==> beans[id] in found
        decreases |ids|
      {
        var id :| id in ids;
        ids := ids - {id};
        if AckCandidate(beans[id], internalSeq) { found := found + [beans[id]]; }
      }
    }
  }
}
