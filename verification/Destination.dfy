/** The destination on its stores: the global in handler, the in handler, the application message
    processor and the close sequence processor. */
module Destination {
  import opened Prelude
  import opened ListText
  import opened AckRanges
  import opened Stores
  import opened DestinationModel

  /** The properties stored for one sequence, and what they stand for. */
  ghost predicate Stored(v: Props, d: Dest, s: string) {
    var closed, list, high := Key(s, SequenceClosed), Key(s, ServerCompletedMessages), Key(s, HighestInMsgNumber);
    && (s in d.closed <==> closed in v && v[closed] == TRUE)
    && (s in d.lists <==> list in v)
    && (list in v ==> Printed(v[list]) && Numbers(v[list]) == d.lists[s])
    && (s in d.highest <==> high in v)
    && (high in v ==> ParseLong(v[high]) == d.highest[s])
  }

  ghost predicate Represents(v: Props, d: Dest) {
    forall s :: Stored(v, d, s)
  }

  /** The stored text leaves no choice about the state it stands for. */
  lemma RepresentsOne(v: Props, d: Dest, e: Dest)
    requires Represents(v, d) && Represents(v, e)
    ensures d.(known := e.known, queue := e.queue) == e
  {
    forall s
      ensures s in d.closed <==> s in e.closed
      ensures s in d.lists <==> s in e.lists
      ensures s in d.lists ==> d.lists[s] == e.lists[s]
      ensures s in d.highest <==> s in e.highest
      ensures s in d.highest ==> d.highest[s] == e.highest[s]
    {
      assert Stored(v, d, s) && Stored(v, e, s);
    }
    assert d.closed == e.closed && d.lists == e.lists && d.highest == e.highest;
  }

  lemma WriteList(v: Props, d: Dest, s: string, text: string)
    requires Represents(v, d) && Printed(text)
    ensures Represents(v[Key(s, ServerCompletedMessages) := text], d.(lists := d.lists[s := Numbers(text)]))
  {
    var w, e := v[Key(s, ServerCompletedMessages) := text], d.(lists := d.lists[s := Numbers(text)]);
    forall t
      ensures Stored(w, e, t)
    {
      assert Stored(v, d, t);
    }
  }

  lemma WriteHighest(v: Props, d: Dest, s: string, n: int)
    requires Represents(v, d)
    ensures Represents(v[Key(s, HighestInMsgNumber) := PrintLong(n)], d.(highest := d.highest[s := n]))
  {
    ParsePrint(n);
    var w, e := v[Key(s, HighestInMsgNumber) := PrintLong(n)], d.(highest := d.highest[s := n]);
    forall t
      ensures Stored(w, e, t)
    {
      assert Stored(v, d, t);
    }
  }

  lemma WriteClosed(v: Props, d: Dest, s: string)
    requires Represents(v, d)
    ensures Represents(v[Key(s, SequenceClosed) := TRUE], d.(closed := d.closed + {s}))
  {
    var w, e := v[Key(s, SequenceClosed) := TRUE], d.(closed := d.closed + {s});
    forall t
      ensures Stored(w, e, t)
    {
      assert Stored(v, d, t);
    }
  }

  /** Known sequences and the queue are not properties. */
  lemma SameText(v: Props, d: Dest, known: set<string>, queue: seq<Invocation>)
    requires Represents(v, d)
    ensures Represents(v, d.(known := known, queue := queue))
  {
    forall t
      ensures Stored(v, d.(known := known, queue := queue), t)
    {
      assert Stored(v, d, t);
    }
  }

  /** The message context the handlers pass along; they set its actions and flags in place. */
  class MessageContext {
    const seqId: string
    const number: int
    const lastMarker: bool
    const bodyElement: bool
    const bodyChild: bool
    var wsaAction: Option<Action>
    var soapAction: Option<Action>
    var isolated: bool
    var paused: bool

    constructor (m: Message)
      ensures Msg() == m && !isolated && !paused
    {
      seqId, number, lastMarker := m.seqId, m.number, m.lastMarker;
      bodyElement, bodyChild := m.bodyElement, m.bodyChild;
      wsaAction, soapAction := m.wsaAction, m.soapAction;
      isolated, paused := false, false;
    }

    function Msg(): Message
      reads this
    {
      Message(seqId, number, wsaAction, soapAction, lastMarker, bodyElement, bodyChild)
    }
  }

  class Destination {
    const props: PropertyStore
    var nextMsg: set<string>
    var invoker: seq<Invocation>
    ghost var state: Dest

    constructor ()
      ensures Valid() && state == EMPTY && fresh(props)
    {
      props := new PropertyStore();
      nextMsg, invoker, state := {}, [], EMPTY;
      new;
      assert forall t :: Stored(map[], EMPTY, t);
    }

    ghost predicate Valid()
      reads this, props
    {
      && Represents(props.View(), state)
      && state.known == nextMsg
      && state.queue == invoker
    }

    /** An isolated last message leaves the handler with the last message action on it, so that the
        processor will recognise it again. */
    static method GlobalIn(ctx: MessageContext)
      modifies ctx
      ensures var bare := old(ctx.wsaAction.None? && ctx.soapAction.None?) && ctx.lastMarker && !ctx.bodyElement;
        && (ctx.isolated <==> old(ctx.isolated) || old(ctx.wsaAction) == Some(LastMessage) || bare)
        && ctx.wsaAction == (if bare then Some(LastMessage) else old(ctx.wsaAction))
        && ctx.soapAction == (if bare then Some(LastMessage) else old(ctx.soapAction))
      ensures ctx.paused == old(ctx.paused)
    {
      if ctx.wsaAction == Some(LastMessage) {
        ctx.isolated := true;
        return;
      }
      if ctx.soapAction.None? && ctx.wsaAction.None? {
        if ctx.lastMarker {
          if !ctx.bodyElement {
            ctx.soapAction := Some(LastMessage);
            ctx.wsaAction := Some(LastMessage);
            ctx.isolated := true;
          }
        }
      }
    }

    /** The list an acknowledgement generated now would carry. */
    method GenerateAck(s: string) returns (ranges: seq<AckRange>)
      requires Valid()
      ensures AckOf(ranges, Listed(state, s))
    {
      assert Stored(props.View(), state, s);
      var text := props.Retrieve(Key(s, ServerCompletedMessages));
      AppendNumber("", 0);
      ranges := GetAckRangeList(if text.Some? then text.value else "");
    }

    /** Write a list: a new bean the first time, an update afterwards. */
    method StoreList(s: string, text: string)
      requires Valid() && Printed(text)
      modifies this`state, props
      ensures Valid() && state == old(state).(lists := old(state.lists)[s := Numbers(text)])
      ensures OnlyDestination(old(props.View()), props.View())
    {
      assert Stored(props.View(), state, s);
      WriteList(props.View(), state, s, text);
      var key := Key(s, ServerCompletedMessages);
      var stored := props.Retrieve(key);
      if stored.None? { props.Insert(key, NULL_TEXT); }
      props.Update(key, text);
      assert props.View() == old(props.View())[key := text];
      state := state.(lists := state.lists[s := Numbers(text)]);
    }

    method DropIfDuplicate(ctx: MessageContext) returns (drop: bool)
      requires Valid()
      modifies this`state, props, ctx
      ensures Valid()
      ensures drop <==> 0 < ctx.number && ctx.number in Listed(old(state), ctx.seqId)
      ensures ctx.paused == (old(ctx.paused) || drop)
      ensures ctx.isolated == old(ctx.isolated) && ctx.soapAction == old(ctx.soapAction)
      ensures if 0 < ctx.number && !drop && !ctx.bodyChild
        then state == Record(old(state), ctx.seqId, ctx.number) && ctx.wsaAction == Some(LastMessage)
        else state == old(state) && ctx.wsaAction == old(ctx.wsaAction)
      ensures OnlyDestination(old(props.View()), props.View())
    {
      drop := false;
      var s, n := ctx.seqId, ctx.number;
      if 0 < n {
        assert Stored(props.View(), state, s);
        AppendNumber("", n);
        var received := props.Retrieve(Key(s, ServerCompletedMessages));
        var listed := if received.Some? then received.value else "";
        drop := ListedByNumber(listed, n);
        if !drop && !ctx.bodyChild {
          ctx.wsaAction := Some(LastMessage);
          AppendNumber(listed, n);
          StoreList(s, if 0 < |listed| then listed + "," + PrintLong(n) else PrintLong(n));
        }
      }
      if drop { ctx.paused := true; }
    }

    /** Keep the highest number received so far: a new bean the first time, an update afterwards. */
    method RaiseHighestIn(s: string, n: int)
      requires Valid()
      modifies this`state, props
      ensures Valid() && state == RaiseHighest(old(state), s, n)
      ensures OnlyDestination(old(props.View()), props.View())
    {
      assert Stored(props.View(), state, s);
      WriteHighest(props.View(), state, s, n);
      var key := Key(s, HighestInMsgNumber);
      var stored := props.Retrieve(key);
      var highest := if stored.Some? then ParseLong(stored.value) else 0;
      if n > highest {
        if stored.Some? { props.Update(key, PrintLong(n)); }
        else { props.Insert(key, PrintLong(n)); }
        state := state.(highest := state.highest[s := n]);
      }
    }

    /** Append the number to the completed list unless the list is found to contain it. */
    method CompleteNumber(s: string, n: int, byContent: bool) returns (present: bool)
      requires Valid()
      modifies this`state, props
      ensures Valid()
      ensures present <==> byContent && n in Listed(old(state), s)
      ensures state == if present then old(state) else Record(old(state), s, n)
      ensures OnlyDestination(old(props.View()), props.View())
    {
      assert Stored(props.View(), state, s);
      AppendNumber("", n);
      var stored := props.Retrieve(Key(s, ServerCompletedMessages));
      present := false;
      if stored.Some? { present := ListedByText(stored.value, n, byContent); }
      if !present {
        var text := PrintLong(n);
        if stored.Some? {
          AppendNumber(stored.value, n);
          text := stored.value + "," + PrintLong(n);
        }
        StoreList(s, text);
      }
    }

    /** Put a message into the invoker queue. */
    method Enqueue(s: string, n: int)
      requires Valid()
      modifies this
      ensures Valid() && nextMsg == old(nextMsg)
      ensures state == old(state).(queue := old(state.queue) + [Invocation(s, n)])
    {
      SameText(props.View(), state, state.known, invoker + [Invocation(s, n)]);
      invoker := invoker + [Invocation(s, n)];
      state := state.(queue := invoker);
    }

    /** The two fault checks: the sequence is not known, or it has been closed. */
    method IsRefused(s: string) returns (refused: bool)
      requires Valid()
      ensures refused <==> Refused(state, s)
    {
      assert Stored(props.View(), state, s);
      if s !in nextMsg { return true; }
      var closed := props.Retrieve(Key(s, SequenceClosed));
      refused := closed == Some(TRUE);
    }

    method AckIfDue(s: string, due: bool) returns (ack: Option<seq<AckRange>>)
      requires Valid()
      ensures ack.Some? <==> due
      ensures ack.Some? ==> AckOf(ack.value, Listed(state, s))
    {
      ack := None;
      if due {
        var ranges := GenerateAck(s);
        ack := Some(ranges);
      }
    }

    /** The processor's work on a listed number. */
    method DeliverMsg(ctx: MessageContext, present: bool, p: Pass) returns (ok: bool, ack: Option<seq<AckRange>>)
      requires Valid()
      modifies this, ctx
      ensures Valid()
      ensures var o := Deliver(old(state), ctx.seqId, ctx.number, present, LastAction(old(ctx.Msg())), p);
        && state == o.dest && ok == o.ok
        && ctx.paused == (old(ctx.paused) || o.paused)
        && (ack.Some? <==> o.acking && p.ackDue)
      ensures ack.Some? ==> AckOf(ack.value, Listed(state, ctx.seqId))
    {
      ack := None;
      var s, n := ctx.seqId, ctx.number;
      if present { ctx.paused := true; }
      if !p.serviceFound { return false, None; }
      if ctx.wsaAction == Some(LastMessage) || ctx.soapAction == Some(LastMessage) {
        ack := AckIfDue(s, p.ackDue);
        ctx.paused := true;
        return false, ack;
      }
      if p.serverSide && p.inOrder {
        Enqueue(s, n);
        ctx.paused := true;
      }
      ack := AckIfDue(s, p.ackDue);
      ok := p.ackSent;
    }

    method ProcessInMsg(ctx: MessageContext, p: Pass) returns (ok: bool, ack: Option<seq<AckRange>>)
      requires Valid()
      modifies this, props, ctx
      ensures Valid()
      ensures var o := Process(old(state), ctx.seqId, ctx.number, LastAction(old(ctx.Msg())), p);
        && state == o.dest && ok == o.ok
        && ctx.paused == (old(ctx.paused) || o.paused)
        && (ack.Some? <==> o.acking && p.ackDue)
      ensures ack.Some? ==> AckOf(ack.value, Listed(state, ctx.seqId))
      ensures OnlyDestination(old(props.View()), props.View())
    {
      ack := None;
      var s, n := ctx.seqId, ctx.number;
      var refused := IsRefused(s);
      if refused {
        if !p.faultSent { return false, None; }
        ctx.paused := true;
        return true, None;
      }
      if n == 0 { return false, None; }
      RaiseHighestIn(s, n);
      var present := CompleteNumber(s, n, p.byContent);
      ok, ack := DeliverMsg(ctx, present, p);
    }

    /** The in handler after the global handler, for a message with a Sequence header. Its own status
        does not depend on the processor's; what counts is whether the context ends up paused. */
    method Receive(m: Message, p: Pass) returns (passedOn: bool, ack: Option<seq<AckRange>>)
      requires Valid()
      modifies this, props
      ensures Valid()
      ensures var o := DestinationModel.Receive(old(state), m, p);
        && state == o.dest && passedOn == !o.paused
        && (ack.Some? <==> o.acking && p.ackDue)
      ensures ack.Some? ==> AckOf(ack.value, Listed(state, m.seqId))
      ensures OnlyDestination(old(props.View()), props.View())
    {
      ack := None;
      var ctx := new MessageContext(m);
      GlobalIn(ctx);
      var dropped := false;
      if !ctx.isolated { dropped := DropIfDuplicate(ctx); }
      if dropped {
        ack := AckIfDue(m.seqId, p.ackDue);
      } else {
        var ok;
        ok, ack := ProcessInMsg(ctx, p);
      }
      passedOn := !ctx.paused;
    }

    /** setup_new_incoming_sequence, as far as delivery is concerned. */
    method OpenSequence(s: string)
      requires Valid()
      modifies this, props
      ensures Valid() && state == Open(old(state), s)
      ensures OnlyDestination(old(props.View()), props.View())
    {
      AppendNumber("", 0);
      WriteList(props.View(), state, s, "");
      props.Insert(Key(s, ServerCompletedMessages), "");
      state := state.(lists := state.lists[s := []]);
      SameText(props.View(), state, nextMsg + {s}, invoker);
      nextMsg := nextMsg + {s};
      state := state.(known := nextMsg);
    }

    /** Record that the sequence is closed, and only then build the response's acknowledgement. */
    method CloseSequence(s: string) returns (ack: Option<seq<AckRange>>)
      requires Valid()
      modifies this`state, props
      ensures Valid() && state == Close(old(state), s)
      ensures ack.Some? <==> s in nextMsg
      ensures ack.Some? ==> AckOf(ack.value, Listed(state, s))
      ensures OnlyDestination(old(props.View()), props.View())
    {
      if s !in nextMsg { return None; }
      WriteClosed(props.View(), state, s);
      props.Insert(Key(s, SequenceClosed), TRUE);
      state := state.(closed := state.closed + {s});
      var ranges := GenerateAck(s);
      ack := Some(ranges);
    }
  }
}
