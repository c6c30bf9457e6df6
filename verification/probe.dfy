/**
 Probing candidate ports: a probe opens the port, sends a ping carrying a fresh
 id and reads one reply. Opening, writing and reading are outside the model,
 so each probe is an observed `Attempt`, and what is modelled is the verdict
 drawn from it and the first-match search over the candidates.
 */
module Probing {
  import opened Wrappers
  import opened Fcs
  import opened Hdlc
  import opened Messages
  import opened Comms

  /** What a probe's read produced: a parsed message, or raw octets. */
  datatype Reply = MessageReply(msg: Message) | BytesReply(data: Bytes)

  /** One probe: it raised, or it wrote `written` octets of a ping with id
      `sentId` and then read `reply` (nothing on a timeout). */
  datatype Attempt = Raised | Exchange(sentId: int, written: int, reply: Option<Reply>)

  /** The ping a probe sends: command Ping, its id, one fragment, index 0, no payload. */
  function PingMessage(id: int): Message
  {
    Message(CommandValue(Ping), id, 1, 0, 0, [])
  }

  /** The verdict of the automatic probe: a write of at least one octet, then a
      message (not raw octets) whose command is Ping and whose id is the one sent. */
  predicate AutoLive(a: Attempt)
  {
    match a
    case Raised => false
    case Exchange(id, written, reply) =>
      if written <= 0 then false
      else if reply.None? || reply.value.BytesReply? then false
      else reply.value.msg.command == CommandValue(Ping) && reply.value.msg.id == id
  }

  /** The verdict of the configured probe. A raw-octet reply has no `command`
      attribute; the lookup raises and the catch-all handler answers false. */
  predicate DiscoveryLive(a: Attempt)
  {
    match a
    case Raised => false
    case Exchange(id, written, reply) =>
      if written <= 0 then false
      else match reply
        case None => false
        case Some(BytesReply(_)) => false
        case Some(MessageReply(m)) => m.command == CommandValue(Ping) && m.id == id
  }

  /** The two probes, written differently, reach the same verdict on every
      attempt, and a live verdict needs a reply that names the Ping command. */
  lemma LiveVerdictsAgree(a: Attempt)
    ensures AutoLive(a) <==> DiscoveryLive(a)
    ensures AutoLive(a) ==>
      (a.Exchange? && a.written > 0 && a.reply.Some? && a.reply.value.MessageReply?
       && CommandFromU16(a.reply.value.msg.command) == Some(Ping))
  {
  }

  /** A device that answers a ping by echoing it over the link is found live
      exactly when the echo carries the id just sent; a stale reply to an
      earlier ping is not taken for an answer. */
  lemma EchoIsLive(tx: Comm, rx: Comm, sentId: int, echoedId: int, written: int)
    requires Valid(rx) && Idle(rx.deframer) && rx.rxQueue == []
    requires 0 <= sentId <= 255 && 0 <= echoedId <= 255 && written > 0
    requires 0 <= tx.maxPayload
    requires rx.port.incoming ==
      [WriteMsg(tx, PingMessage(echoedId)).value.comm.port.written[|tx.port.written|..]]
    ensures ReadMsg(rx).1.Some?
    ensures AutoLive(Exchange(sentId, written, Some(MessageReply(ReadMsg(rx).1.value))))
      <==> sentId == echoedId
  {
    var m := PingMessage(echoedId);
    var b := ToBytes(m).value;
    assert WriteMsg(tx, m) == Success(Write(tx, b));
    Loopback(tx, rx, b);
    RoundTrip(m);
  }

  /** Which of the two probes judges the attempts. */
  datatype Prober = AutoProbe | ConfiguredProbe

  predicate Live(prober: Prober, a: Attempt)
  {
    match prober
    case AutoProbe => AutoLive(a)
    case ConfiguredProbe => DiscoveryLive(a)
  }

  /** The result of trying candidates in order: the first live one, if any, and
      the candidates probed, in order. */
  datatype Search = Search(found: Option<string>, probed: seq<string>)

  /** The probing loop: try each candidate in turn and stop at the first one
      whose probe attempt is judged live. */
  function FirstLive(candidates: seq<string>, probe: string -> Attempt, prober: Prober): (r: Search)
    ensures r.probed <= candidates
    ensures r.found.None? <==> forall p :: p in candidates ==> !Live(prober, probe(p))
    ensures r.found.None? ==> r.probed == candidates
    ensures r.found.Some? ==>
      && |r.probed| > 0
      && r.probed[|r.probed| - 1] == r.found.value
      && Live(prober, probe(r.found.value))
    ensures forall i :: 0 <= i < |r.probed| - 1 ==> !Live(prober, probe(r.probed[i]))
  {
    if |candidates| == 0 then Search(None, [])
    else if Live(prober, probe(candidates[0])) then Search(Some(candidates[0]), [candidates[0]])
    else
      var rest := FirstLive(candidates[1..], probe, prober);
      Search(rest.found, [candidates[0]] + rest.probed)
  }

  /** The port found is one of the candidates. */
  lemma FoundIsCandidate(candidates: seq<string>, probe: string -> Attempt, prober: Prober)
    ensures var r := FirstLive(candidates, probe, prober);
      r.found.Some? ==> r.found.value in candidates
  {
    var r := FirstLive(candidates, probe, prober);
    if r.found.Some? {
      assert r.probed[|r.probed| - 1] == candidates[|r.probed| - 1];
    }
  }

  /** Searching any ordering of a set of ports finds a live one of them, and
      finds nothing only when none of them is live. */
  lemma FirstLiveOfPermutation(candidates: seq<string>, all: seq<string>, probe: string -> Attempt, prober: Prober)
    requires multiset(candidates) == multiset(all)
    ensures var r := FirstLive(candidates, probe, prober);
      && (r.found.None? <==> forall p :: p in all ==> !Live(prober, probe(p)))
      && (r.found.Some? ==> r.found.value in all)
  {
    forall p
      ensures p in candidates <==> p in all
    {
      assert p in candidates <==> p in multiset(candidates);
    }
    FoundIsCandidate(candidates, probe, prober);
  }

  /** With a single live candidate, the search finds it. */
  lemma SingleResponder(candidates: seq<string>, probe: string -> Attempt, prober: Prober, p: string)
    requires p in candidates && Live(prober, probe(p))
    requires forall q :: q in candidates && Live(prober, probe(q)) ==> q == p
    ensures FirstLive(candidates, probe, prober).found == Some(p)
  {
    FoundIsCandidate(candidates, probe, prober);
  }

  /** The probe bodies as the source writes them. Each hands the ping `Message`
      itself to `comm.write`, whose framing then iterates over it as octets,
      and asks `comm.read` for a keyword it does not take; the automatic probe
      also passes keywords to `Comm` that the serial port constructor rejects.
      Every attempt raises before a reply is read. */
  function AttemptAsWritten(port: string): (a: Attempt)
    ensures !AutoLive(a) && !DiscoveryLive(a)
  {
    Raised
  }

  /** With the probes as written, a search never finds a port: it probes every
      candidate and returns nothing, even when a device on one of them would
      answer the ping (see `EchoIsLive`). */
  lemma AsWrittenFindsNothing(candidates: seq<string>, prober: Prober)
    ensures FirstLive(candidates, AttemptAsWritten, prober) == Search(None, candidates)
  {
    forall p
      ensures !Live(prober, AttemptAsWritten(p))
    {
      var a := AttemptAsWritten(p);
      assert !AutoLive(a) && !DiscoveryLive(a);
    }
  }
}
