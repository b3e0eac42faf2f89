/**
  The other side of netboot/fsys_tftp.c: a lock-step TFTP server (RFC 1350 with
  the options of RFC 2347, 2348 and 2349) behind a network that loses,
  duplicates and reorders packets, driven by an arbitrary finite script.
 */
module TftpPeer {
  import opened Wrappers
  import opened Numbers

  const DEFAULT_PACKET := 512
  const MAX_PACKET := 1432
  const BLOCK_MODULUS := 65536

  const MAX_RETRIES := 20
  const REXMT := 3 * 18          // TFTP_REXMT in timer ticks
  const GIVE_UP := 30 * 18       // TFTP_TIMEOUT in timer ticks

  /** An option of an OACK, with the number read by `getdec` (negative when there is none). */
  datatype OackOption = Blksize(n: int) | Tsize(n: int) | OtherOption

  /** `overlong`: larger than TFTP_MAX_PACKET; `overrun`: the option list runs past its end. */
  datatype OackMessage = OackMessage(options: seq<OackOption>, overlong: bool, overrun: bool)

  datatype Packet = Data(field: nat, payload: seq<Byte>) | Oack(message: OackMessage) | ErrorPacket | OtherPacket

  datatype Reply = Timeout | UserAbort | Arrived(packet: Packet)

  /** An option acknowledgement a client can agree to: nothing but a block size of at least 512 and a size. */
  predicate Agreeable(m: OackMessage) {
    !m.overlong && !m.overrun && forall o :: o in m.options ==> AgreeableOption(o)
  }

  predicate AgreeableOption(o: OackOption) {
    match o
    case Blksize(n) => n >= DEFAULT_PACKET
    case Tsize(n) => n >= 0
    case OtherOption => false
  }

  /** A block size and a size are agreed to from 512 and from 0 on. */
  lemma OptionsAgreed(blksize: int, size: int)
    ensures Agreeable(OackMessage([Blksize(blksize), Tsize(size)], false, false)) <==> blksize >= 512 && size >= 0
    ensures Agreeable(OackMessage([], false, false)) && !Agreeable(OackMessage([OtherOption], false, false))
  {
    var options := [Blksize(blksize), Tsize(size)];
    assert options[0] in options && options[1] in options && OtherOption in [OtherOption];
  }

  /** A packet a client hopes to see. */
  predicate Welcome(p: Packet) {
    p.Data? || (p.Oack? && Agreeable(p.message))
  }

  /** How many silences a client sits out: before it has agreed to the options of the server or, without
      options, received the first block; between that agreement and the first block, where it bears none; and
      then before each further block. */
  function Patience(n: nat, agreed: bool): nat {
    if n > 0 then (GIVE_UP - 1) / REXMT else if agreed then 0 else MAX_RETRIES
  }

  /** Data that carries the number a client with `n` blocks waits for. */
  predicate IsNext(r: Reply, n: nat) {
    r.Arrived? && r.packet.Data? && r.packet.field == n + 1
  }

  /** The silences since the last block the client accepted. */
  function Silences(before: nat, r: Reply, n: nat): nat {
    if r.Timeout? then before + 1 else if IsNext(r, n) then 0 else before
  }

  /** What counts as a failure of the network: a packet that is not welcome, the user's interruption, and more
      silence than a client is made to bear. Losses, repetitions and delays are no failures. */
  predicate IsFault(r: Reply, silences: nat, n: nat, agreed: bool) {
    match r
    case Timeout => silences > Patience(n, agreed)
    case UserAbort => true
    case Arrived(p) => !Welcome(p)
  }

  /** What the server and the network do next. */
  datatype Choice =
    | Serve(blksize: nat, oack: Option<OackMessage>)  // a read request is answered
    | LinkDown                                         // a request cannot be transmitted
    | Advance                                          // the server acts on an acknowledgement
    | DeliverData(k: nat) | DeliverOack                // a packet sent earlier arrives, maybe again
    | DeliverError | DeliverOther | Expire | Interrupt

  /** One transfer: the block size agreed by the server, the option acknowledgement it sends first (if
      any), the number of data blocks it has sent, and the ACK numbers the client has sent, in order. */
  datatype Session = Session(blksize: nat, oack: Option<OackMessage>, reach: nat, acks: seq<nat>)

  /** The length of `n` full blocks. */
  function Span(n: nat, blksize: nat): nat {
    n * blksize
  }

  /** Where block `k` begins; blocks count from 1 and only the last one is short, maybe empty. */
  function Start(blksize: nat, k: nat): (s: nat)
    requires k >= 1
  {
    Span(k - 1, blksize)
  }

  /** The contents of block `k` of `file`. */
  function Block(file: seq<Byte>, blksize: nat, k: nat): (b: seq<Byte>)
    requires k >= 1 && Start(blksize, k) <= |file|
    ensures |b| <= blksize
  {
    var s := Start(blksize, k);
    file[s..if s + blksize <= |file| then s + blksize else |file|]
  }

  /** An answer a conforming server gives: options it accepts are echoed truthfully, the block size is
      at most the one asked for (section 2 of RFC 2348), and stays 512 unless it is agreed. */
  predicate Conforming(file: seq<Byte>, blksize: nat, oack: Option<OackMessage>) {
    && 1 <= blksize <= MAX_PACKET
    && (oack.None? ==> blksize == DEFAULT_PACKET)
    && (oack.Some? ==>
          && (forall o :: o in oack.value.options ==> o.Blksize? ==> o.n == blksize)
          && (forall o :: o in oack.value.options ==> o.Tsize? && o.n >= 0 ==> o.n == |file|)
          && (blksize != DEFAULT_PACKET ==> exists o :: o in oack.value.options && o.Blksize?))
  }

  ghost predicate GoodSession(file: seq<Byte>, s: Session) {
    && Conforming(file, s.blksize, s.oack)
    && (s.reach >= 1 ==> Start(s.blksize, s.reach) <= |file|)
    && (s.oack.Some? && s.reach >= 1 ==> 0 in s.acks)
  }

  /** The server cannot be ahead of a client that has accepted `n` blocks and sent no ACK above `n`,
      except when the 16-bit block numbers are used up. */
  ghost predicate InStep(s: Session, n: nat) {
    && n < BLOCK_MODULUS
    && (forall a :: a in s.acks ==> a <= n)
    && (n < BLOCK_MODULUS - 1 ==> s.reach <= n + 1)
  }

  /** A packet the server has sent in session `s`. */
  ghost predicate Sent(file: seq<Byte>, s: Session, p: Packet)
    requires GoodSession(file, s)
  {
    match p
    case Data(field, payload) =>
      exists k: nat :: 1 <= k <= s.reach && Start(s.blksize, k) <= |file|
        && field == k % BLOCK_MODULUS && payload == Block(file, s.blksize, k)
    case Oack(m) => s.oack == Some(m)
    case _ => true
  }

  /** With a lock-step server, data of number `n + 1` can only be block `n + 1`. */
  lemma TheBlock(file: seq<Byte>, s: Session, n: nat, payload: seq<Byte>)
    requires GoodSession(file, s) && InStep(s, n) && Sent(file, s, Data(n + 1, payload))
    ensures s.reach >= 1 && Start(s.blksize, n + 1) <= |file| && payload == Block(file, s.blksize, n + 1)
    ensures s.oack.Some? ==> 0 in s.acks
  {
    var k: nat :| 1 <= k <= s.reach && Start(s.blksize, k) <= |file|
      && n + 1 == k % BLOCK_MODULUS && payload == Block(file, s.blksize, k);
    assert k == n + 1;
  }

  lemma OackIsSent(file: seq<Byte>, s: Session, m: OackMessage)
    requires GoodSession(file, s) && Sent(file, s, Oack(m))
    ensures s.oack == Some(m)
  {
  }

  // ----- what happens next

  /** The server sends the next block once the current one is acknowledged, by its 16-bit number. */
  function Advanced(file: seq<Byte>, s: Session): Session {
    if (s.reach % BLOCK_MODULUS) in s.acks && Start(s.blksize, s.reach + 1) <= |file| then s.(reach := s.reach + 1)
    else s
  }

  predicate CanDeliver(file: seq<Byte>, s: Option<Session>, k: nat) {
    s.Some? && 1 <= k <= s.value.reach && Start(s.value.blksize, k) <= |file|
  }

  datatype Delivery = Delivery(reply: Reply, session: Option<Session>, script: seq<Choice>)

  /** The next reply a client gets to see: any packet of the current transfer may arrive at any time, in any
      order and any number of times, or none does. */
  function Upcoming(file: seq<Byte>, s: Option<Session>, script: seq<Choice>): Delivery
    decreases |script|
  {
    if script == [] then Delivery(Timeout, s, []) else
    var rest := script[1..];
    match script[0]
    case Advance => Upcoming(file, if s.Some? then Some(Advanced(file, s.value)) else None, rest)
    case DeliverData(k) =>
      if CanDeliver(file, s, k)
      then Delivery(Arrived(Data(k % BLOCK_MODULUS, Block(file, s.value.blksize, k))), s, rest)
      else Upcoming(file, s, rest)
    case DeliverOack =>
      if s.Some? && s.value.oack.Some? then Delivery(Arrived(Oack(s.value.oack.value)), s, rest)
      else Upcoming(file, s, rest)
    case DeliverError => Delivery(Arrived(ErrorPacket), s, rest)
    case DeliverOther => Delivery(Arrived(OtherPacket), s, rest)
    case Expire => Delivery(Timeout, s, rest)
    case Interrupt => Delivery(UserAbort, s, rest)
    case Serve(_, _) => Upcoming(file, s, rest)
    case LinkDown => Upcoming(file, s, rest)
  }

  /** `n` is the number of blocks the client has accepted. */
  ghost predicate GoodFor(file: seq<Byte>, s: Option<Session>, n: nat) {
    s.Some? ==> GoodSession(file, s.value) && InStep(s.value, n)
  }

  /** The client has acknowledged something in this transfer. */
  predicate HasAcked(s: Option<Session>) {
    s.Some? && s.value.acks != []
  }

  ghost predicate SameTransfer(s: Option<Session>, t: Option<Session>) {
    (s.Some? <==> t.Some?) && (s.Some? ==> s.value.(reach := 0) == t.value.(reach := 0))
  }

  lemma AdvancedIsGood(file: seq<Byte>, s: Session, n: nat)
    requires GoodSession(file, s) && InStep(s, n)
    ensures GoodSession(file, Advanced(file, s)) && InStep(Advanced(file, s), n)
    ensures Advanced(file, s).(reach := 0) == s.(reach := 0)
  {
  }

  /** The block size of a transfer. */
  function SizeOf(s: Option<Session>): nat {
    if s.Some? then s.value.blksize else 0
  }

  ghost predicate NoStrays(script: seq<Choice>) {
    DeliverOther !in script
  }

  /** Without a transfer there is neither data nor an option acknowledgement. */
  lemma {:induction false} UpcomingWithoutTransfer(file: seq<Byte>, script: seq<Choice>)
    ensures var d := Upcoming(file, None, script);
      d.session.None? && (d.reply.Arrived? ==> d.reply.packet.ErrorPacket? || d.reply.packet.OtherPacket?)
    decreases |script|
  {
    if script != [] {
      UpcomingWithoutTransfer(file, script[1..]);
    }
  }

  /** Without stray packets on the way none arrives. */
  lemma {:induction false} UpcomingWithoutStrays(file: seq<Byte>, s: Option<Session>, script: seq<Choice>)
    requires NoStrays(script)
    ensures var d := Upcoming(file, s, script); NoStrays(d.script) && d.reply != Arrived(OtherPacket)
    decreases |script|
  {
    if script != [] {
      assert script[0] in script && NoStrays(script[1..]);
      var t := if script[0].Advance? && s.Some? then Some(Advanced(file, s.value)) else s;
      hide Advanced, NoStrays;
      UpcomingWithoutStrays(file, t, script[1..]);
    }
  }

  /** Only packets that the server has sent in this transfer arrive, and a lock-step server never gets more
      than one block ahead of the client. */
  lemma {:induction false} UpcomingIsSent(file: seq<Byte>, s: Option<Session>, script: seq<Choice>, n: nat)
    requires GoodFor(file, s, n)
    ensures var d := Upcoming(file, s, script);
      && GoodFor(file, d.session, n) && SameTransfer(s, d.session)
      && (if script == [] then d.script == [] && d.reply.Timeout? else |d.script| < |script|)
      && (d.reply.Arrived? && (d.reply.packet.Data? || d.reply.packet.Oack?) ==>
            d.session.Some? && Sent(file, d.session.value, d.reply.packet))
    decreases |script|
  {
    if script != [] {
      var t := if script[0].Advance? && s.Some? then Some(Advanced(file, s.value)) else s;
      if s.Some? {
        AdvancedIsGood(file, s.value, n);
      }
      hide Advanced, InStep, GoodSession;
      UpcomingIsSent(file, t, script[1..], n);
    }
  }

  /** A request for a file: how much the client had seen before, and the block size of the transfer it left (0 if
      there was none). */
  datatype Asking = Asking(seen: nat, left: nat)

  class Peer {
    const file: seq<Byte>
    var script: seq<Choice>
    var session: Option<Session>  // the transfer bound to the client's current port
    ghost var faults: nat         // failures of the network so far
    ghost var silences: nat       // silences since the last block the client accepted
    ghost var seen: seq<Reply>    // everything the client has got to see
    ghost var asked: seq<Asking>  // its requests for a file, apart from repetitions

    ghost predicate Valid()
      reads this`session
    {
      session.Some? ==> GoodSession(file, session.value)
    }

    constructor (file: seq<Byte>, script: seq<Choice>)
      ensures Valid() && this.file == file && this.script == script && session.None? && faults == 0 && seen == []
    {
      this.file, this.script, session, faults, silences, seen, asked := file, script, None, 0, 0, [], [];
    }

    /** A packet to the server's request port, from a port never used before: packets of an earlier
        transfer no longer reach the client. Only a read request opens a new transfer. `again`: it is sent for
        lack of an answer. */
    method Request(isRead: bool, ghost again: bool) returns (transmitted: bool)
      requires Valid()
      modifies this`script, this`session, this`faults, this`silences, this`asked
      ensures Valid() && |script| <= |old(script)|
      ensures session.Some? ==> isRead && session.value.acks == [] && session.value.reach <= 1
      ensures faults == old(faults) + if transmitted then 0 else 1
      ensures silences == (if again then old(silences) else 0)
      ensures asked == if again then old(asked) else old(asked) + [Asking(|seen|, SizeOf(old(session)))]
      ensures (NoStrays(old(script)) ==> NoStrays(script)) && (!isRead ==> session.None?)
      ensures old(script) != [] && old(script)[0].Serve? && isRead ==>
                var c := old(script)[0];
                && transmitted && script == old(script)[1..]
                && (Conforming(file, c.blksize, c.oack) ==>
                      session == Some(Session(c.blksize, c.oack, if c.oack.None? then 1 else 0, [])))
    {
      if !again {
        silences, asked := 0, asked + [Asking(|seen|, SizeOf(session))];
      }
      session, transmitted := None, true;
      if script != [] {
        var c := script[0];
        if c.LinkDown? {
          script, transmitted, faults := script[1..], false, faults + 1;
        } else if c.Serve? {
          script := script[1..];
          if isRead && Conforming(file, c.blksize, c.oack) {
            session := Some(Session(c.blksize, c.oack, if c.oack.None? then 1 else 0, []));
          }
        }
      }
    }

    method Ack(n: nat)
      requires Valid()
      modifies this`session
      ensures Valid() && (session.Some? <==> old(session).Some?)
      ensures session.Some? ==> session.value == old(session).value.(acks := old(session).value.acks + [n])
    {
      if session.Some? {
        session := Some(session.value.(acks := session.value.acks + [n]));
      }
    }

    /** `await_reply`. */
    method Await(ghost n: nat) returns (r: Reply)
      requires GoodFor(file, session, n)
      modifies this`script, this`session, this`faults, this`silences, this`seen
      ensures GoodFor(file, session, n) && SameTransfer(old(session), session)
      ensures Delivery(r, session, script) == Upcoming(file, old(session), old(script))
      ensures if old(script) == [] then script == [] && r.Timeout? else |script| < |old(script)|
      ensures r.Arrived? && (r.packet.Data? || r.packet.Oack?) ==> session.Some? && Sent(file, session.value, r.packet)
      ensures seen == old(seen) + [r] && silences == Silences(old(silences), r, n)
      ensures faults == old(faults) + if IsFault(r, silences, n, HasAcked(session)) then 1 else 0
    {
      hide Upcoming, GoodFor, SameTransfer, Sent, GoodSession;
      UpcomingIsSent(file, session, script, n);
      var d := Upcoming(file, session, script);
      r, session, script := d.reply, d.session, d.script;
      seen, silences := seen + [r], Silences(silences, r, n);
      faults := faults + if IsFault(r, silences, n, HasAcked(session)) then 1 else 0;
    }
  }
}
