/** The source of a sequence as state and steps. The class Source carries these steps out on its stores,
    write by write and, for acknowledgements, range by range and number by number. */
module SourceModel {
  import opened Prelude
  import opened ListText
  import opened AckRanges
  import opened Stores

  datatype Src = Src(props: Props, beans: Beans)

  const EMPTY := Src(map[], map[])

  // ---- sending ------------------------------------------------------------------------------

  /** One application message to send. clientNumber is the number the client may have set; the flags say
      which parts outside the model succeed: setting up the sequence, sending CreateSequence, finding
      the policy, and the checks between the last number and the sender bean. */
  datatype Call = Call(seqKey: string, msgId: string, clientNumber: Option<int>, dummy: bool,
                       setupOk: bool, createOk: bool, policyFound: bool, versionFound: bool)

  datatype Reply =
    | Halted
    | Rejected
    | CreateFailed(number: int)
    | LetGo(number: int)
    | NoPolicy(number: int)
    | NoVersion(number: int)
    | Stored(number: int)

  /** creating: the call starts the create sequence exchange. */
  datatype SendResult = SendResult(src: Src, reply: Reply, creating: bool)

  function Prev(p: Props, s: string): int { LongOf(p, s, NextMsgNo, -1) }

  function LastOut(p: Props, s: string): int { LongOf(p, s, LastOutMsgNo, -1) }

  /** The last message number of a CloseSequence, if it carries one. */
  function CloseNumber(p: Props, s: string): Option<int> {
    if Key(s, LastOutMsgNo) in p then Some(LastOut(p, s)) else None
  }

  predicate TimedOut(p: Props, s: string) { TextOf(p, s, SequenceTimedOut) == Some(TRUE) }

  predicate Accepts(prev: int, client: Option<int>) { client.Some? ==> 0 < client.value && prev < client.value }

  function Chosen(prev: int, client: Option<int>): int {
    match client
    case Some(n) => n
    case None => if prev > 0 then prev + 1 else 1
  }

  predicate StartsCreate(p: Props, s: string, n: int) {
    n == 1 && Key(s, OutgoingSequenceId) !in p && Key(s, OutCreateSeqSent) !in p
  }

  /** The properties after the number has been chosen and before the message is prepared. */
  function Started(p: Props, c: Call, n: int): Props {
    var numbered := if c.dummy then p else p[Key(c.seqKey, NextMsgNo) := PrintLong(n)];
    var highest := numbered[Key(c.seqKey, HighestOutMsgNumber) := PrintLong(n)];
    var set_up := if n == 1 && c.setupOk then highest[Key(c.seqKey, ClientCompletedMessages) := ""] else highest;
    if StartsCreate(p, c.seqKey, n) then set_up[Key(c.seqKey, OutCreateSeqSent) := TRUE] else set_up
  }

  function NewBean(c: Call, n: int): Bean { Bean(c.msgId, c.seqKey, n, Application, true, true, -1) }

  function WithBean(beans: Beans, b: Bean): Beans { if b.msgId in beans then beans else beans[b.msgId := b] }

  function ProcessOut(src: Src, c: Call): SendResult {
    var s, p := c.seqKey, src.props;
    if TimedOut(p, s) then SendResult(src.(props := p - {Key(s, SequenceTimedOut)}), Halted, false)
    else if !Accepts(Prev(p, s), c.clientNumber) then SendResult(src, Rejected, false)
    else
      var n := Chosen(Prev(p, s), c.clientNumber);
      var creating := StartsCreate(p, s, n);
      var started := Started(p, c, n);
      if creating && !c.createOk then SendResult(src.(props := started), CreateFailed(n), creating)
      else if c.dummy then SendResult(src.(props := started), LetGo(n), creating)
      else if !c.policyFound then SendResult(src.(props := started), NoPolicy(n), creating)
      else
        var last := started[Key(s, LastOutMsgNo) := PrintLong(n)];
        if !c.versionFound then SendResult(src.(props := last), NoVersion(n), creating)
        else SendResult(Src(last, WithBean(src.beans, NewBean(c, n))), Stored(n), creating)
  }

  // ---- acknowledgements -----------------------------------------------------------------------

  /** get_retrans_entry: the first bean found with the number. */
  function FirstMatch(found: seq<Bean>, n: int): Option<Bean> {
    if found == [] then None
    else if found[0].number == n then Some(found[0])
    else FirstMatch(found[1..], n)
  }

  /** The message ids the loops remove. */
  function RemovedIds(found: seq<Bean>, acked: seq<int>): set<string> {
    set b | b in found && b.number in acked && FirstMatch(found, b.number) == Some(b) :: b.msgId
  }

  /** Where the acked list is stored: under the outgoing id if a list is there, else under the internal
      id, where a new bean without a value is inserted first. */
  function CompletedStored(p: Props, outId: string, internalSeq: Option<string>, acked: seq<int>): Props {
    var here := Key(outId, ClientCompletedMessages);
    if here in p then (if acked == [] then p else p[here := Joined(acked)])
    else match internalSeq
      case None => p
      case Some(i) => p[Key(i, ClientCompletedMessages) := if acked == [] then NULL_TEXT else Joined(acked)]
  }

  /** found is what the query for candidates returned. */
  function ProcessAck(src: Src, outId: string, ranges: seq<AckRange>, found: seq<Bean>): Src {
    var p := src.props;
    var internalSeq := TextOf(p, outId, OutgoingInternalSequenceId);
    if outId == "" then src
    else if internalSeq.Some? && Key(internalSeq.value, TerminateAdded) in p then src
    else
      var acked := Expand(ranges);
      var counted := p[Key(outId, NoOfOutGoingMessagesAcked) := PrintLong(|acked|)];
      Src(CompletedStored(counted, outId, internalSeq, acked), src.beans - RemovedIds(found, acked))
  }

  // ---- sequence ids -----------------------------------------------------------------------------

  const INTERNAL_PREFIX := "Sandesha2InternalSequence:"

  function InternalId(incoming: string): string { INTERNAL_PREFIX + incoming }

  /** The two id properties, each leading to the other. */
  function Link(p: Props, internalSeq: string, outId: string): Props {
    p[Key(internalSeq, OutgoingSequenceId) := outId][Key(outId, OutgoingInternalSequenceId) := internalSeq]
  }

  /** Single character offers are not accepted. */
  predicate OfferAccepted(offered: string) { 1 < |offered| }

  function AcceptOffer(p: Props, incoming: string, offered: string): Props {
    if OfferAccepted(offered) then Link(p, InternalId(incoming), offered) else p
  }

  // ---- giving up ----------------------------------------------------------------------------------

  predicate Kept(name: PropName) {
    name in {TerminateAdded, NoOfOutGoingMessagesAcked, OutgoingInternalSequenceId, SequenceClosed, SequenceTimedOut}
  }

  predicate Moved(name: PropName) { name in {ClientCompletedMessages, SequenceClosed, SequenceTimedOut} }

  /** Properties of the internal id are deleted, some after a copy was made under the outgoing id. */
  ghost function Cleaned(p: Props, s: string): Props {
    var outId := TextOf(p, s, OutgoingSequenceId);
    var copies := if outId.None? then map[]
      else map name | Key(s, name) in p && Moved(name) :: Key(outId.value, name) := p[Key(s, name)];
    var all := p + copies;
    map k | k in all && (k.seqId == s ==> Kept(k.name) && (Moved(k.name) ==> outId.None?)) :: all[k]
  }

  /** The retransmission adjuster stops a sequence: all its beans and properties go. */
  ghost function GiveUp(src: Src, s: string): Src {
    Src(Cleaned(src.props, s)[Key(s, SequenceTimedOut) := TRUE],
        WithoutSequence(src.beans, s))
  }
}
