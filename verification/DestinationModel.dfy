/** The destination of a sequence as state and steps over message numbers. The class Destination
    carries these steps out on stored text. */
module DestinationModel {
  import opened Prelude

  /** LastMessage is the action of an isolated last message (the SOAP and the addressing constant are
      the same string). */
  datatype Action = LastMessage | Other(uri: string)

  /** An inbound message with a Sequence header. bodyElement: the body has an element in it;
      bodyChild: it has any child node at all. */
  datatype Message = Message(seqId: string, number: int,
                             wsaAction: Option<Action>, soapAction: Option<Action>,
                             lastMarker: bool, bodyElement: bool, bodyChild: bool)

  /** What the surroundings decide during one pass: deployment (server side, in-order invocation), which
      calls succeed (sending a fault, finding service and policy, sending the acknowledgement), whether
      an acknowledgement is due now, and whether the array list library compares strings by content. */
  datatype Pass = Pass(serverSide: bool, inOrder: bool, faultSent: bool, serviceFound: bool,
                       ackSent: bool, ackDue: bool, byContent: bool)

  datatype Invocation = Invocation(seqId: string, number: int)

  datatype Dest = Dest(known: set<string>, closed: set<string>,
                       lists: map<string, seq<int>>, highest: map<string, int>,
                       queue: seq<Invocation>)

  /** The result of a pass: the message context is paused (or the message goes on to the application),
      the status, and whether the pass came to where acknowledgements are generated. */
  datatype Outcome = Outcome(dest: Dest, paused: bool, ok: bool, acking: bool)

  const EMPTY := Dest({}, {}, map[], map[], [])

  function Listed(d: Dest, s: string): seq<int> { if s in d.lists then d.lists[s] else [] }

  function Highest(d: Dest, s: string): int { if s in d.highest then d.highest[s] else 0 }

  predicate Refused(d: Dest, s: string) { s !in d.known || s in d.closed }

  function Record(d: Dest, s: string, n: int): Dest {
    d.(lists := d.lists[s := Listed(d, s) + [n]])
  }

  function RaiseHighest(d: Dest, s: string, n: int): Dest {
    if n > Highest(d, s) then d.(highest := d.highest[s := n]) else d
  }

  /** The global handler's classification. */
  predicate Isolated(m: Message) {
    || m.wsaAction == Some(LastMessage)
    || (m.wsaAction.None? && m.soapAction.None? && m.lastMarker && !m.bodyElement)
  }

  predicate LastAction(m: Message) { m.wsaAction == Some(LastMessage) || m.soapAction == Some(LastMessage) }

  /** The processor after the number is listed: find the service, answer a last message, queue for
      in-order invocation. */
  function Deliver(d: Dest, s: string, n: int, present: bool, last: bool, p: Pass): Outcome {
    if !p.serviceFound then Outcome(d, present, false, false)
    else if last then Outcome(d, true, false, true)
    else if p.serverSide && p.inOrder then
      Outcome(d.(queue := d.queue + [Invocation(s, n)]), true, p.ackSent, true)
    else Outcome(d, present, p.ackSent, true)
  }

  /** The application message processor; last says that it will see a last message action. */
  function Process(d: Dest, s: string, n: int, last: bool, p: Pass): Outcome {
    if Refused(d, s) then Outcome(d, p.faultSent, p.faultSent, false)
    else if n == 0 then Outcome(d, false, false, false)
    else
      var present := p.byContent && n in Listed(d, s);
      var raised := RaiseHighest(d, s, n);
      var listed := if present then raised else Record(raised, s, n);
      Deliver(listed, s, n, present, last, p)
  }

  /** One message through both handlers and the processor. */
  function Receive(d: Dest, m: Message, p: Pass): Outcome {
    var s, n := m.seqId, m.number;
    if Isolated(m) then Process(d, s, n, true, p)
    else if 0 < n && n in Listed(d, s) then Outcome(d, true, true, true)
    else if 0 < n && !m.bodyChild then Process(Record(d, s, n), s, n, true, p)
    else Process(d, s, n, LastAction(m), p)
  }

  predicate Fresh(d: Dest, s: string) { s !in d.known && s !in d.lists && s !in d.highest && s !in d.closed }

  function Open(d: Dest, s: string): Dest { d.(known := d.known + {s}, lists := d.lists[s := []]) }

  function Close(d: Dest, s: string): Dest { if s in d.known then d.(closed := d.closed + {s}) else d }
}
