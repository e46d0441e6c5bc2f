/** The source on its stores: sending application messages, acknowledgements, sequence ids. */
module Source {
  import opened Prelude
  import opened ListText
  import opened AckRanges
  import opened Stores
  import opened SourceModel

  class Source {
    const props: PropertyStore
    const sender: SenderStore

    constructor ()
      ensures Valid() && State() == EMPTY && fresh(props) && fresh(sender)
    {
      props := new PropertyStore();
      sender := new SenderStore();
    }

    ghost predicate Valid()
      reads this, sender
    {
      Keyed(sender.beans)
    }

    ghost function State(): Src
      reads this, props, sender
    {
      Src(props.View(), sender.beans)
    }

    method GetPrevMsgNo(s: string) returns (n: int)
      ensures n == Prev(props.View(), s)
    {
      var text := props.Retrieve(Key(s, NextMsgNo));
      n := if text.Some? then ParseLong(text.value) else -1;
    }

    /** set_next_msg_no and set_last_out_msg_no: update what is there, insert otherwise. */
    method SetNumber(key: Key, n: int)
      requires 0 < n
      modifies props
      ensures props.View() == old(props.View())[key := PrintLong(n)]
    {
      var stored := props.Retrieve(key);
      if stored.Some? { props.Update(key, PrintLong(n)); } else { props.Insert(key, PrintLong(n)); }
    }

    /** The part of process_out_msg that writes properties once the number is chosen. */
    method Start(c: Call, n: int) returns (creating: bool)
      requires 0 < n
      modifies props
      ensures props.View() == Started(old(props.View()), c, n)
      ensures creating <==> StartsCreate(old(props.View()), c.seqKey, n)
    {
      var s := c.seqKey;
      creating := false;
      if !c.dummy { SetNumber(Key(s, NextMsgNo), n); }
      props.Insert(Key(s, HighestOutMsgNumber), PrintLong(n));
      var outId := props.Retrieve(Key(s, OutgoingSequenceId));
      if n == 1 {
        if c.setupOk { props.Insert(Key(s, ClientCompletedMessages), ""); }
        if outId.None? {
          var sent := props.Retrieve(Key(s, OutCreateSeqSent));
          if sent.None? {
            props.Insert(Key(s, OutCreateSeqSent), TRUE);
            creating := true;
          }
        }
      }
    }

    /** send_app_msg up to where the sender bean is in the store. */
    method SendAppMsg(c: Call, n: int) returns (reply: Reply)
      requires Valid() && 0 < n
      modifies props, sender
      ensures Valid()
      ensures reply == if !c.policyFound then NoPolicy(n) else if !c.versionFound then NoVersion(n) else Stored(n)
      ensures props.View()
           == if c.policyFound
              then old(props.View())[Key(c.seqKey, LastOutMsgNo) := PrintLong(n)] else old(props.View())
      ensures sender.beans
           == if reply.Stored? then WithBean(old(sender.beans), NewBean(c, n)) else old(sender.beans)
    {
      if !c.policyFound { return NoPolicy(n); }
      SetNumber(Key(c.seqKey, LastOutMsgNo), n);
      if !c.versionFound { return NoVersion(n); }
      var _ := sender.Insert(NewBean(c, n));
      reply := Stored(n);
    }

    method ProcessOutMsg(c: Call) returns (reply: Reply, creating: bool)
      requires Valid()
      modifies props, sender
      ensures Valid()
      ensures SendResult(State(), reply, creating) == ProcessOut(old(State()), c)
    {
      var s := c.seqKey;
      creating := false;
      var timedOut := props.Retrieve(Key(s, SequenceTimedOut));
      if timedOut == Some(TRUE) {
        props.Remove(Key(s, SequenceTimedOut));
        return Halted, false;
      }
      if c.clientNumber.Some? && c.clientNumber.value <= 0 { return Rejected, false; }
      var prev := GetPrevMsgNo(s);
      if c.clientNumber.Some? && c.clientNumber.value <= prev { return Rejected, false; }
      var n := Chosen(prev, c.clientNumber);
      creating := Start(c, n);
      if creating && !c.createOk { return CreateFailed(n), creating; }
      if c.dummy { return LetGo(n), creating; }
      reply := SendAppMsg(c, n);
    }

    // ---- acknowledgements ---------------------------------------------------------------------

    method GetRetransEntry(list: seq<Bean>, n: int) returns (entry: Option<Bean>)
      ensures entry == FirstMatch(list, n)
      ensures entry.Some? ==> entry.value in list && entry.value.number == n
    {
      for i := 0 to |list|
        invariant FirstMatch(list, n) == FirstMatch(list[i..], n)
      {
        if list[i].number == n { return Some(list[i]); }
      }
      entry := None;
    }

    /** The nested loops: every number of every range removes the first bean found with that number
        and goes to the acked list, matched or not. */
    method RemoveAcked(ranges: seq<AckRange>, found: seq<Bean>) returns (acked: seq<int>)
      requires Valid()
      modifies sender
      ensures Valid()
      ensures acked == Expand(ranges)
      ensures sender.beans == old(sender.beans) - RemovedIds(found, acked)
    {
      acked := [];
      RemovedNone(found);
      for i := 0 to |ranges|
        invariant Valid()
        invariant acked == Expand(ranges[..i])
        invariant sender.beans == old(sender.beans) - RemovedIds(found, acked)
      {
        var lower, upper := ranges[i].lower, ranges[i].upper;
        ghost var before := acked;
        var j := lower;
        while j <= upper
          invariant lower <= j
          invariant lower <= upper ==> j <= upper + 1
          invariant lower > upper ==> j == lower
          invariant Valid()
          invariant acked == before + Interval(lower, j - 1)
          invariant sender.beans == old(sender.beans) - RemovedIds(found, acked)
        {
          var entry := GetRetransEntry(found, j);
          RemovedOneMore(found, acked, j);
          if entry.Some? { sender.Remove(entry.value.msgId); }
          IntervalSnoc(lower, j);
          acked := acked + [j];
          j := j + 1;
        }
        ExpandSnoc(ranges[..i], ranges[i]);
        assert ranges[..i + 1] == ranges[..i] + [ranges[i]];
      }
      assert ranges[..|ranges|] == ranges;
    }

    /** Store how many messages were acknowledged, and which: both replace what was there. */
    method StoreAcked(outId: string, internalSeq: Option<string>, acked: seq<int>, count: int)
      modifies props
      ensures props.View() == CompletedStored(
        old(props.View())[Key(outId, NoOfOutGoingMessagesAcked) := PrintLong(count)], outId, internalSeq, acked)
    {
      var countKey := Key(outId, NoOfOutGoingMessagesAcked);
      var stored := props.Retrieve(countKey);
      if stored.None? { props.Insert(countKey, PrintLong(count)); } else { props.Update(countKey, PrintLong(count)); }
      var completedKey := Key(outId, ClientCompletedMessages);
      var completed := props.Retrieve(completedKey);
      if completed.None? && internalSeq.Some? {
        completedKey := Key(internalSeq.value, ClientCompletedMessages);
        props.Insert(completedKey, NULL_TEXT);
        completed := Some(NULL_TEXT);
      }
      var text := ArrayListToString(acked);
      if completed.Some? && text.Some? { props.Update(completedKey, text.value); }
    }

    /** Processing of one acknowledgement; found is what the store answered to the query. */
    method ProcessInMsg(outId: string, ranges: seq<AckRange>) returns (ok: bool, found: seq<Bean>)
      requires Valid()
      modifies props, sender
      ensures Valid()
      ensures ok <==> outId != ""
      ensures State() == ProcessAck(old(State()), outId, ranges, found)
      ensures State() != old(State()) ==>
        ResultOf(found, old(sender.beans), TextOf(old(props.View()), outId, OutgoingInternalSequenceId))
    {
      if |outId| == 0 { return false, []; }
      var internalSeq := props.Retrieve(Key(outId, OutgoingInternalSequenceId));
      if internalSeq.Some? {
        var terminated := props.Retrieve(Key(internalSeq.value, TerminateAdded));
        if terminated.Some? { return true, []; }
      }
      found := sender.FindCandidates(internalSeq);
      var acked := RemoveAcked(ranges, found);
      var count := CountAcked(ranges);
      StoreAcked(outId, internalSeq, acked, count);
      ok := true;
    }

    // ---- sequence ids ---------------------------------------------------------------------------

    /** An offer in a CreateSequence: outgoing id by internal id and back. */
    method ProcessOffer(incoming: string, offered: string)
      modifies props
      ensures props.View() == AcceptOffer(old(props.View()), incoming, offered)
    {
      if |offered| <= 1 { return; }
      var internalSeq := INTERNAL_PREFIX + incoming;
      props.Insert(Key(internalSeq, OutgoingSequenceId), offered);
      props.Insert(Key(offered, OutgoingInternalSequenceId), internalSeq);
    }

    /** The number a CloseSequence carries, if any message was prepared. */
    method LastMessageNumber(s: string) returns (last: Option<int>)
      ensures last == CloseNumber(props.View(), s)
    {
      var text := props.Retrieve(Key(s, LastOutMsgNo));
      last := if text.Some? then Some(ParseLong(text.value)) else None;
    }
  }

  lemma RemovedNone(found: seq<Bean>)
    ensures RemovedIds(found, []) == {}
  {
  }

  lemma {:induction false} FirstMatchFound(found: seq<Bean>, n: int)
    ensures FirstMatch(found, n).Some? ==> FirstMatch(found, n).value in found && FirstMatch(found, n).value.number == n
    ensures FirstMatch(found, n).None? ==> forall b :: b in found ==> b.number != n
  {
    if found != [] && found[0].number != n { FirstMatchFound(found[1..], n); }
  }

  /** The first bean with the number is at place i. */
  ghost predicate FirstAt(found: seq<Bean>, i: int, n: int) {
    0 <= i < |found| && found[i].number == n && forall j :: 0 <= j < i ==> found[j].number != n
  }

  /** Of several beans with one number the loops take the one found first. */
  lemma {:induction false} FirstMatchIsFirst(found: seq<Bean>, n: int, i: int)
    requires FirstAt(found, i, n)
    ensures FirstMatch(found, n) == Some(found[i])
  {
    if i > 0 {
      assert found[0].number != n;
      assert forall j :: 0 < j <= i ==> found[j] == found[1..][j - 1];
      FirstMatchIsFirst(found[1..], n, i - 1);
    }
  }

  lemma RemovedOneMore(found: seq<Bean>, acked: seq<int>, n: int)
    ensures RemovedIds(found, acked + [n])
         == RemovedIds(found, acked) + if FirstMatch(found, n).Some? then {FirstMatch(found, n).value.msgId} else {}
  {
    FirstMatchFound(found, n);
    var before, more := RemovedIds(found, acked), RemovedIds(found, acked + [n]);
    var first := if FirstMatch(found, n).Some? then {FirstMatch(found, n).value.msgId} else {};
    assert before <= more;
    assert first <= more by {
      if FirstMatch(found, n).Some? {
        var b := FirstMatch(found, n).value;
        assert b in found && b.number in acked + [n];
      }
    }
    forall id | id in more
      ensures id in before + first
    {
      var b :| b in found && b.number in acked + [n] && FirstMatch(found, b.number) == Some(b) && b.msgId == id;
      if b.number in acked { assert id in before; }
    }
  }
}
