/**
  The TFTP client of netboot/fsys_tftp.c: receiving blocks into a window over
  the file, sliding, skipping and reopening it under reads at any position.
 */
module Tftp {
  import opened Wrappers
  import opened Numbers
  import opened Sequences
  import opened TftpPeer
  import opened TftpLog
  import opened TftpWindow
  import opened TftpSchedule

  /** How `buf_fill` goes on after a packet: wait for more, leave the loop, or return zero. */
  datatype Verdict = Continue | Leave | Fail

  datatype Errnum = NoError | ErrRead | ErrWrite | ErrFileNotFound

  /** The value of `retry` after `k` silences. */
  function Wait(n: nat, k: nat): nat {
    if n == 0 then k else REXMT * k
  }

  // ----- what one or more turns of the receive loop do

  /** The state of a transfer, as far as the accounts of a fill go: where the window begins, the blocks
      accepted, the size of the file as it is known, what has been seen, whether the client has agreed to
      options, whether it has left the transfer behind, and so on. */
  datatype Tally = Tally(base: int, prevblock: nat, filemax: int, seen: seq<Reply>, asked: seq<Asking>, faults: nat,
                         left: nat, blksize: nat, agreed: bool, lost: bool)

  /** `q` is a later state than `p`. */
  ghost predicate Trails(p: Tally, q: Tally) {
    && q.base == p.base && p.prevblock <= q.prevblock && p.faults <= q.faults && q.left <= p.left
    && |p.seen| <= |q.seen| && q.seen[..|p.seen|] == p.seen && q.asked == p.asked && (p.lost ==> q.lost)
  }

  lemma TrailsOne(p: Tally, q: Tally, r: Reply)
    requires q.base == p.base && p.prevblock <= q.prevblock && p.faults <= q.faults && q.left <= p.left
    requires q.seen == p.seen + [r] && q.asked == p.asked && (p.lost ==> q.lost)
    ensures Trails(p, q)
  {
  }

  /** What has been seen in between. */
  ghost function Since(p: Tally, q: Tally): seq<Reply>
    requires Trails(p, q)
  {
    q.seen[|p.seen|..]
  }

  /** The first block comes with the first data, the size is known once it has been told before that, the
      transfer is the same from the first block on, and every block accepted has had room. Before the first
      block the client agrees to what it is offered, and is lost if a silence follows. */
  ghost predicate Tells(p: Tally, q: Tally, length: nat, buffer: nat)
    requires Trails(p, q)
  {
    && (q.prevblock == 0 <==> p.prevblock == 0 && NoData(Since(p, q)))
    && q.filemax == (if p.prevblock == 0 && Told(Since(p, q)) then length else p.filemax)
    && (p.prevblock > 0 ==> q.blksize == p.blksize)
    && (q.prevblock > p.prevblock ==> Span(q.prevblock, q.blksize) <= q.base + buffer)
    && (q.prevblock == 0 ==> (q.agreed <==> p.agreed || Agrees(Since(p, q))))
    && (p.prevblock == 0 && Stranded(Since(p, q), p.agreed) ==> q.lost)
  }

  lemma StandingStill(p: Tally, length: nat, buffer: nat)
    ensures Trails(p, p) && Since(p, p) == [] && Tells(p, p, length, buffer)
  {
    assert p.seen[|p.seen|..] == [];
    NothingStranded(p.agreed);
    hide Stranded, Agrees;
  }

  lemma TrailsOn(p: Tally, q: Tally, r: Tally)
    requires Trails(p, q) && Trails(q, r)
    ensures Trails(p, r) && Since(p, r) == Since(p, q) + Since(q, r)
    ensures p.faults <= q.faults <= r.faults && r.left <= q.left <= p.left
    ensures p.prevblock <= q.prevblock <= r.prevblock && (q.lost ==> r.lost)
  {
    assert p.seen == q.seen[..|p.seen|] == r.seen[..|q.seen|][..|p.seen|] == r.seen[..|p.seen|];
    assert q.seen == r.seen[..|q.seen|];
  }

  lemma TellsOn(p: Tally, q: Tally, r: Tally, length: nat, buffer: nat)
    requires Trails(p, q) && Trails(q, r) && Tells(p, q, length, buffer) && Tells(q, r, length, buffer)
    ensures Trails(p, r) && Tells(p, r, length, buffer)
  {
    TrailsOn(p, q, r);
    ToldConcat(Since(p, q), Since(q, r));
    NoDataConcat(Since(p, q), Since(q, r));
    AgreesConcat(Since(p, q), Since(q, r));
    StrandedConcat(Since(p, q), Since(q, r), p.agreed);
    hide Trails, Since, Told, NoData, Agrees, Stranded;
  }

  /** One reply. */
  lemma TellsOne(p: Tally, q: Tally, r: Reply, length: nat, buffer: nat)
    requires Trails(p, q) && q.seen == p.seen + [r]
    requires q.prevblock == 0 <==> p.prevblock == 0 && !IsData(r)
    requires q.filemax == if p.prevblock == 0 && TellsSize(r) then length else p.filemax
    requires p.prevblock > 0 ==> q.blksize == p.blksize
    requires q.prevblock > p.prevblock ==> Span(q.prevblock, q.blksize) <= q.base + buffer
    requires q.prevblock == 0 ==> (q.agreed <==> p.agreed || IsAgreed(r))
    requires p.prevblock == 0 && p.agreed && r.Timeout? ==> q.lost
    ensures Since(p, q) == [r] && Tells(p, q, length, buffer)
  {
    assert Since(p, q) == [r];
    ToldByOne(r);
    StrandedByOne(r, p.agreed);
    hide Trails, Since, Told, NoData, Agrees, Stranded, IsAgreed, TellsSize, Span;
  }

  /** What a client has got to see, its requests, and the block size of its transfer. */
  datatype Record = Record(seen: seq<Reply>, asked: seq<Asking>, blksize: nat)

  /** What is known of the network when a fill begins: it is lost, on schedule with blocks enough, or without; a stray
      packet comes first, or there are none. */
  datatype Outlook = Outlook(session: Option<Session>, script: seq<Choice>, silences: nat, asking: bool, bufRead: nat,
                             lost: bool, enough: bool, short: bool, stray: bool, clean: bool)
  {
    predicate Planned() {
      lost || enough || short
    }

    ghost predicate Untouched(now: Option<Session>, left: seq<Choice>, waited: nat, read: nat) {
      now == session && left == script && waited == silences && read == bufRead
    }

    /** Only the stray packet has come. */
    ghost predicate AfterStray(was: Tally, q: Tally, now: Option<Session>, left: seq<Choice>, waited: nat, read: nat) {
      && now == session && script != [] && left == script[1..] && waited == silences && read == bufRead
      && q.prevblock == was.prevblock && q.filemax == was.filemax && q.agreed == was.agreed
    }
  }

  class Client {
    const peer: Peer
    const buf: array<Byte>       // FSYS_BUF; its length is FSYS_BUFLEN
    ghost const half: nat        // half of it
    var retry: nat
    var block: nat               // unsigned short
    var prevblock: nat           // unsigned short
    var bcounter: nat
    var packetsize: int
    var bufEof: bool
    var bufRead: nat
    var savedFilepos: nat
    var filepos: nat
    var filemax: int
    var errnum: Errnum
    var tpIsRequest: bool        // `tp` still holds the read request
    var tpAck: nat               // tp.u.ack.block, once it does not
    ghost var received: nat      // bytes of the file accepted in this transfer

    ghost predicate Wired()
      reads peer`session
    {
      buf.Length >= MAX_PACKET && buf.Length == 2 * half && peer.Valid()
    }

    /** The transfer agrees with the server's view of it: no ACK names a block that was not accepted, ACKs
        never go back, data can only flow at the block size the client uses, and the blocks accepted are
        a prefix of the file. */
    ghost predicate InTransfer()
      reads this`prevblock, this`bcounter, this`packetsize, this`received, this`bufEof, peer`session
    {
      && Wired() && prevblock == bcounter < BLOCK_MODULUS && packetsize <= MAX_PACKET
      && (peer.session.None? ==> received == 0 && prevblock == 0 && !bufEof)
      && (peer.session.Some? ==>
            var s := peer.session.value;
            && InStep(s, prevblock)
            && AcksInOrder(s.acks, prevblock)
            && (packetsize == s.blksize || (packetsize == DEFAULT_PACKET && s.oack.Some?))
            && (s.acks != [] || prevblock != 0 ==> packetsize == s.blksize)
            && Accepted(prevblock, s.blksize))
    }

    ghost predicate AcksInOrder(acks: seq<nat>, n: nat) {
      (forall i, j :: 0 <= i < j < |acks| ==> acks[i] <= acks[j]) && (acks != [] ==> acks[|acks| - 1] == n)
    }

    /** The first `n` blocks have been received: all of them full, unless the file is at its end. */
    ghost predicate Accepted(n: nat, blksize: nat)
      reads this`received, this`bufEof
    {
      if bufEof then n >= 1 && received == |peer.file| && Span(n - 1, blksize) <= |peer.file| < Span(n, blksize)
      else received == Span(n, blksize) <= |peer.file|
    }

    /** `retry` counts the silences since the last block. */
    ghost predicate Patient()
      reads this`retry, this`prevblock, peer`silences
    {
      retry == Wait(prevblock, peer.silences)
    }

    /** Between packets: the last block seen is the last one accepted, and `tp` is the request or the ACK
        of that block. */
    ghost predicate InProtocol()
      reads this`prevblock, this`bcounter, this`packetsize, this`received, this`bufEof, this`block,
        this`tpIsRequest, this`tpAck, peer`session
    {
      && InTransfer() && block == prevblock
      && (tpIsRequest ==> prevblock == 0 && packetsize == DEFAULT_PACKET)
      && (!tpIsRequest && prevblock != 0 ==> tpAck == prevblock)
    }

    /** The buffer holds the last `bufRead` bytes received. */
    ghost predicate Buffered()
      reads this`bufRead, this`received, buf
    {
      && bufRead <= buf.Length && bufRead <= received <= |peer.file|
      && buf[..bufRead] == peer.file[received - bufRead..received]
    }

    ghost predicate Streaming()
      reads this`retry, this`prevblock, this`bcounter, this`packetsize, this`received, this`bufEof, this`block,
        this`tpIsRequest, this`tpAck, this`bufRead, peer`session, peer`silences, buf
    {
      InProtocol() && Patient() && Buffered()
    }

    /** The buffer is a window over the file that begins at `savedFilepos`. */
    ghost predicate Valid()
      reads this`retry, this`prevblock, this`bcounter, this`packetsize, this`received, this`bufEof, this`block,
        this`tpIsRequest, this`tpAck, this`bufRead, this`savedFilepos, peer`session, peer`silences, buf
    {
      Streaming() && savedFilepos + bufRead == received
    }

    ghost function Now(): Tally
      reads this`received, this`bufRead, this`prevblock, this`filemax, this`tpIsRequest, peer
    {
      Tally(received - bufRead, prevblock, filemax, peer.seen, peer.asked, peer.faults, |peer.script|,
            SizeOf(peer.session), !tpIsRequest, Abandoned())
    }

    /** The client has agreed to the options of a transfer and left it behind: what it sends from its new port is
        no request, and is not answered. */
    ghost predicate Abandoned()
      reads this`prevblock, this`tpIsRequest, peer`session
    {
      peer.session.None? && !tpIsRequest && prevblock == 0
    }

    /** The network is on schedule, and the size of the file is known once it has been told. */
    ghost predicate Smooth(plan: Plan)
      reads this`prevblock, this`filemax, this`tpIsRequest, peer`session, peer`script, peer`silences
    {
      SmoothAt(peer.session, peer.script, prevblock, peer.silences, filemax, tpIsRequest, plan)
    }

    ghost predicate SmoothAt(session: Option<Session>, script: seq<Choice>, n: nat, silences: nat, known: int,
                             asking: bool, plan: Plan)
    {
      && session.Some? && OnSchedule(peer.file, session, script, n, silences, plan)
      && (session.value.oack.Some? && session.value.acks != [] ==> known == |peer.file|)
      && (session.value.acks == [] ==> asking)
    }

    ghost function Form(): Shape
      requires peer.session.Some?
      reads peer`session
    {
      Shape(buf.Length, peer.session.value.blksize, |peer.file|)
    }

    constructor (peer: Peer, bufLen: nat)
      requires peer.Valid() && bufLen >= MAX_PACKET && bufLen % 2 == 0
      ensures this.peer == peer && buf.Length == bufLen && fresh(buf) && Wired()
    {
      this.peer := peer;
      buf := new Byte[bufLen](_ => 0);
      half := bufLen / 2;
      retry, block, prevblock, bcounter, packetsize := 0, 0, 0, 0, 0;
      bufEof, bufRead, savedFilepos, filepos, filemax := false, 0, 0, 0, 0;
      errnum, tpIsRequest, tpAck, received := NoError, false, 0, 0;
    }

    /** The options of an OACK, in order; false means the client rejects them. */
    method ProcessOack(m: OackMessage) returns (ok: bool)
      requires Wired() && peer.session.Some? && peer.session.value.oack == Some(m)
      requires packetsize == peer.session.value.blksize || packetsize == DEFAULT_PACKET
      modifies this`packetsize, this`filemax
      ensures packetsize == peer.session.value.blksize || packetsize == old(packetsize)
      ensures ok <==> Agreeable(m)
      ensures ok ==> packetsize == peer.session.value.blksize >= DEFAULT_PACKET
      ensures ok ==> filemax == if Sizes(m) then |peer.file| else old(filemax)
    {
      if m.overlong {
        return false;
      }
      var i := 0;
      while i < |m.options|
        invariant i <= |m.options| && forall j :: 0 <= j < i ==> AgreeableOption(m.options[j])
        invariant packetsize == peer.session.value.blksize || packetsize == old(packetsize)
        invariant (exists j :: 0 <= j < i && m.options[j].Blksize?) ==>
                    packetsize == peer.session.value.blksize >= DEFAULT_PACKET
        invariant filemax == if exists j :: 0 <= j < i && m.options[j].Tsize? then |peer.file| else old(filemax)
      {
        var o := m.options[i];
        assert o in m.options;
        match o {
          case Blksize(n) =>
            packetsize := n;
            if n < DEFAULT_PACKET {
              return false;
            }
          case Tsize(n) =>
            filemax := n;
            if n < 0 {
              filemax := -1;
              return false;
            }
          case OtherOption =>
            return false;
        }
        i := i + 1;
      }
      return !m.overrun;
    }

    /** `grub_memmove (buf + buf_read, data, len)`. */
    method Append(data: seq<Byte>)
      requires bufRead + |data| <= buf.Length
      modifies this`bufRead, buf
      ensures bufRead == old(bufRead) + |data|
      ensures buf[..bufRead] == old(buf[..bufRead]) + data
    {
      var i := 0;
      while i < |data|
        invariant i <= |data|
        invariant buf[..bufRead + i] == old(buf[..bufRead]) + data[..i]
        modifies buf
      {
        buf[bufRead + i] := data[i];
        i := i + 1;
      }
      assert data[..|data|] == data;
      bufRead := bufRead + |data|;
    }

    /** A transfer of which nothing has been received yet. */
    lemma FreshTransfer()
      requires Wired() && prevblock == bcounter == received == 0 && !bufEof && packetsize <= MAX_PACKET
      requires peer.session.Some? ==>
                 packetsize == DEFAULT_PACKET && peer.session.value.acks == [] && peer.session.value.reach <= 1
      ensures InTransfer()
    {
    }

    lemma WiredMeans()
      requires Wired()
      ensures buf.Length >= MAX_PACKET && buf.Length == 2 * half && peer.Valid()
    {
    }

    lemma FreshWindow()
      requires buf.Length >= MAX_PACKET && buf.Length == 2 * half && peer.Valid() && tpIsRequest
      requires prevblock == bcounter == received == block == bufRead == savedFilepos == 0
      requires !bufEof && packetsize == DEFAULT_PACKET && retry == peer.silences == 0
      requires peer.session.Some? ==> peer.session.value.acks == [] && peer.session.value.reach <= 1
      ensures Valid()
    {
      hide InTransfer;
      assert Wired();
      FreshTransfer();
    }

    /** `send_rrq`: a new transfer from the beginning of the file. */
    method SendRrq() returns (transmitted: bool)
      requires Wired() && tpIsRequest
      modifies this`retry, this`block, this`prevblock, this`packetsize, this`bcounter, this`bufEof, this`bufRead,
        this`savedFilepos, this`received, peer`script, peer`session, peer`faults, peer`silences, peer`asked
      ensures Valid() && savedFilepos == 0 && bufRead == 0 && !bufEof && prevblock == 0
      ensures |peer.script| <= old(|peer.script|)
      ensures peer.faults == old(peer.faults) + (if transmitted then 0 else 1)
      ensures peer.asked == old(peer.asked) + [Asking(|peer.seen|, SizeOf(old(peer.session)))] && peer.silences == 0
      ensures NoStrays(old(peer.script)) ==> NoStrays(peer.script)
      ensures ServesNext(peer.file, old(peer.script)) ==> transmitted && HasServed(old(peer.script))
    {
      hide Valid, Wired, InProtocol, Buffered, Streaming, Conforming, NoStrays, GoodSession;
      WiredMeans();
      retry, block, prevblock, packetsize, bcounter := 0, 0, 0, DEFAULT_PACKET, 0;
      bufEof, bufRead, savedFilepos, received := false, 0, 0, 0;
      transmitted := peer.Request(true, false);
      FreshWindow();
    }

    /** What is sent again at a silence: the ACK of the last block, or, to a server that answers it, the request. */
    ghost predicate Repeated(session: Option<Session>, script: seq<Choice>)
      reads this`prevblock, peer`session, peer`script
    {
      if prevblock > 0 then Acked(session) && peer.script == script
      else ServesNext(peer.file, script) ==> HasServed(script)
    }

    /** The first choice of `script` was to serve the request. */
    ghost predicate HasServed(script: seq<Choice>)
      reads peer`session, peer`script
    {
      script != [] && script[0].Serve? && peer.script == script[1..] && peer.session == Some(Answer(script[0]))
    }

    /** Nothing arrived: repeat the last packet sent, until the patience is used up: 20 silences before the first
        block, 9 before any other. True means to go on waiting. Before the first block this goes to the server's
        request port, from a new port, even if it is the acknowledgement of its options: then the transfer is
        lost. */
    method HandleSilence() returns (again: bool)
      requires InProtocol() && peer.silences >= 1 && retry == Wait(prevblock, peer.silences - 1)
      modifies this`retry, peer`script, peer`session, peer`faults, peer`silences, peer`asked
      ensures InProtocol() && Patient() && |peer.script| <= old(|peer.script|)
      ensures peer.silences == old(peer.silences) && peer.asked == old(peer.asked)
      ensures again ==> old(retry) < retry <= GIVE_UP
      ensures again <==> peer.silences <= Patience(prevblock, false) && peer.faults == old(peer.faults)
      ensures again ==> peer.silences <= if prevblock == 0 then 20 else 9
      ensures peer.silences <= (if prevblock == 0 then 20 else 9) && peer.faults == old(peer.faults) ==> again
      ensures old(peer.faults) <= peer.faults
      ensures prevblock > 0 ==> SameSize(old(peer.session))
      ensures prevblock == 0 && !tpIsRequest && again ==> Abandoned()
      ensures old(Abandoned()) ==> Abandoned()
      ensures again && (prevblock > 0 || tpIsRequest) ==> Repeated(old(peer.session), old(peer.script))
      ensures prevblock > 0 || (tpIsRequest && old(peer.script) != [] && old(peer.script)[0].Serve?) ==>
                peer.faults == old(peer.faults)
      ensures NoStrays(old(peer.script)) ==> NoStrays(peer.script)
    {
      hide InTransfer, GoodSession, Conforming, NoStrays;
      Counters();
      if block == 0 {
        retry := retry + 1;
        if retry <= MAX_RETRIES {
          again := peer.Request(tpIsRequest, true);
          FreshTransfer();
          return;
        }
      }
      if block != 0 {
        retry := retry + REXMT;
        if retry < GIVE_UP {
          SendAck();
          return true;
        }
      }
      return false;
    }

    // ----- one packet

    /** A data packet of the running transfer that carries the next number is the next block. */
    lemma NextBlock(s: Session, payload: seq<Byte>)
      requires InTransfer() && !bufEof && peer.session == Some(s)
      requires Sent(peer.file, s, Data(prevblock + 1, payload))
      ensures packetsize == s.blksize && Start(s.blksize, prevblock + 1) == received <= |peer.file|
      ensures payload == Block(peer.file, s.blksize, prevblock + 1)
    {
      hide Sent, InStep, GoodSession, Span;
      TheBlock(peer.file, s, prevblock, payload);
    }

    /** A short block is the last one; any other leaves the file as far as it has come. */
    lemma BlockTaken(file: seq<Byte>, b: nat, n: nat, payload: seq<Byte>)
      requires Start(b, n + 1) <= |file| && payload == Block(file, b, n + 1)
      ensures var r := Start(b, n + 1); var to := r + |payload|;
        && r == Span(n, b) && Span(n + 1, b) == r + b && |payload| <= b && to <= |file| && payload == file[r..to]
        && (|payload| < b ==> to == |file| < Span(n + 1, b))
        && (|payload| == b ==> to == Span(n + 1, b))
    {
    }

    /** The one packet sent since `before` is the ACK of the last block accepted. */
    ghost predicate Acked(before: Option<Session>)
      reads this`prevblock, peer`session
    {
      && before.Some? && peer.session.Some?
      && peer.session.value == before.value.(acks := before.value.acks + [prevblock])
    }

    /** An accepted block: the counters move on together and the payload joins the buffer. */
    method Accept(payload: seq<Byte>)
      requires prevblock == bcounter && block == prevblock + 1 && bufRead + |payload| <= buf.Length
      modifies this`prevblock, this`retry, this`bcounter, this`bufRead, this`bufEof, this`received, buf
      ensures prevblock == block == bcounter && retry == 0
      ensures bufRead == old(bufRead) + |payload| && buf[..bufRead] == old(buf[..bufRead]) + payload
      ensures received == old(received) + |payload|
      ensures bufEof == (old(bufEof) || |payload| < packetsize)
    {
      prevblock := block;
      retry := 0;
      bcounter := bcounter + 1;
      Append(payload);
      received := received + |payload|;
      if |payload| < packetsize {
        bufEof := true;
      }
    }

    /** Appending the next bytes of the file keeps the buffer a part of it. */
    lemma BufferedOn(file: seq<Byte>, from: nat, to: nat, before: seq<Byte>, payload: seq<Byte>)
      requires from <= to <= |file| && before == file[from..to] && to + |payload| <= |file|
      requires payload == file[to..to + |payload|]
      ensures before + payload == file[from..to + |payload|]
    {
    }

    /** The expected block is acknowledged and taken. */
    method TakeBlock(payload: seq<Byte>)
      requires InTransfer() && Buffered() && peer.session.Some? && !tpIsRequest
      requires !bufEof && bufRead + packetsize <= buf.Length && |payload| <= packetsize
      requires tpAck == block == prevblock + 1 < BLOCK_MODULUS
      requires Sent(peer.file, peer.session.value, Data(block, payload))
      modifies this`retry, this`prevblock, this`bcounter, this`bufEof, this`bufRead, this`received, peer`session, buf
      ensures InProtocol() && Buffered() && retry == 0 && prevblock == old(prevblock) + 1 && Acked(old(peer.session))
      ensures received - bufRead == old(received - bufRead) && received == old(received) + |payload|
      ensures Span(prevblock, peer.session.value.blksize) <= received - bufRead + buf.Length
    {
      hide Sent, Span, Start, Block, GoodSession, InStep, AcksInOrder;
      ghost var s := peer.session.value;
      NextBlock(s, payload);
      BlockTaken(peer.file, s.blksize, prevblock, payload);
      BufferedOn(peer.file, received - bufRead, received, buf[..bufRead], payload);
      OneMoreAck(s, prevblock);
      peer.Ack(tpAck);
      Accept(payload);
    }

    /** The ACK of the next block keeps the order. */
    lemma OneMoreAck(s: Session, n: nat)
      requires InStep(s, n) && AcksInOrder(s.acks, n) && n + 1 < BLOCK_MODULUS
      ensures var t := s.(acks := s.acks + [n + 1]); InStep(t, n + 1) && AcksInOrder(t.acks, n + 1)
    {
    }

    /** The ACK of the last block accepted is sent, for the first time or again. */
    method SendAck()
      requires InTransfer() && peer.session.Some? && !tpIsRequest && tpAck == block == prevblock
      requires packetsize == peer.session.value.blksize
      modifies peer`session
      ensures InProtocol() && Acked(old(peer.session))
    {
      hide Span, GoodSession;
      peer.Ack(tpAck);
    }

    lemma Counters()
      requires InTransfer()
      ensures Wired() && prevblock == bcounter < BLOCK_MODULUS && packetsize <= MAX_PACKET
      ensures prevblock == 0 ==> received == 0 && !bufEof
      ensures prevblock != 0 ==> peer.session.Some? && packetsize == peer.session.value.blksize
    {
    }

    /** The end of the receive loop's body: acknowledge what is expected, then take it or drop it. */
    method Acknowledge(payload: seq<Byte>, abort: bool) returns (v: Verdict)
      requires InTransfer() && (!abort ==> Buffered())
      requires peer.session.Some? && packetsize == peer.session.value.blksize
      requires !bufEof && tpAck == block < BLOCK_MODULUS
      requires block != 0 ==> bufRead + packetsize <= buf.Length && |payload| <= packetsize
      requires block != 0 ==> Sent(peer.file, peer.session.value, Data(block, payload))
      modifies this`retry, this`block, this`prevblock, this`bcounter, this`bufEof, this`bufRead,
        this`tpIsRequest, this`tpAck, this`received, peer`session, buf
      ensures Wired() && received - bufRead == old(received - bufRead) && !tpIsRequest
      ensures v == if abort then Leave else Continue
      ensures abort ==> prevblock == old(prevblock)
      ensures !abort ==> InProtocol() && Buffered() && Acked(old(peer.session))
      ensures !abort && old(block) == old(prevblock) + 1 ==>
                && prevblock == old(block) && retry == 0 && received == old(received) + |payload|
                && Span(prevblock, peer.session.value.blksize) <= received - bufRead + buf.Length
      ensures !abort && old(block) != old(prevblock) + 1 ==>
                prevblock == old(prevblock) && retry == old(retry) && received == old(received)
    {
      hide Sent, InTransfer, Buffered, Span;
      Counters();
      if (block != 0 || bcounter != 0) && block != prevblock + 1 {
        block := prevblock;
        tpAck := prevblock;
      }
      tpIsRequest := false;
      if abort {
        bufEof := true;
        return Leave;
      }
      if (block - prevblock) % BLOCK_MODULUS != 1 {
        SendAck();
      } else {
        TakeBlock(payload);
      }
      return Continue;
    }

    /** Data only flows once the client works at the server's block size. */
    lemma DataAtAgreedSize(p: Packet)
      requires InTransfer() && peer.session.Some? && p.Data? && Sent(peer.file, peer.session.value, p)
      ensures packetsize == peer.session.value.blksize && p.field < BLOCK_MODULUS && |p.payload| <= packetsize
      ensures prevblock == 0 ==> p.field == 1
    {
      hide Span;
    }

    /** An option acknowledgement, wanted only before the first block. */
    method HandleOack(m: OackMessage, abort: bool) returns (v: Verdict)
      requires InProtocol() && (!abort ==> Buffered()) && !bufEof
      requires peer.session.Some? && peer.session.value.oack == Some(m)
      modifies this`retry, this`block, this`prevblock, this`bcounter, this`packetsize, this`bufEof, this`bufRead,
        this`filemax, this`tpIsRequest, this`tpAck, this`received, peer`session, buf
      ensures Wired() && (v != Leave ==> InProtocol()) && (!abort ==> Buffered())
      ensures received - bufRead == old(received - bufRead) && prevblock == old(prevblock)
      ensures v == if prevblock != 0 then Continue else if !Agreeable(m) then Fail
                   else if abort then Leave else Continue
      ensures v != Leave || !abort ==> retry == old(retry)
      ensures v == Continue ==> filemax == if prevblock == 0 && Sizes(m) then |peer.file| else old(filemax)
      ensures v == Continue && prevblock == 0 ==> Acked(old(peer.session)) && !tpIsRequest
      ensures v == Continue && prevblock != 0 ==> peer.session == old(peer.session)
    {
      hide Sent, Span;
      if prevblock != 0 {
        return Continue;
      }
      var ok := ProcessOack(m);
      if !ok {
        tpIsRequest := false;
        return Fail;
      }
      block, tpAck := 0, 0;
      v := Acknowledge([], abort);
    }

    /** The body of the receive loop for one arrived packet, `waited` silences after the last block. */
    method HandlePacket(p: Packet, abort: bool, ghost waited: nat) returns (v: Verdict)
      requires InProtocol() && (!abort ==> Buffered())
      requires !bufEof && bufRead + packetsize <= buf.Length
      requires p.Data? || p.Oack? ==> peer.session.Some? && Sent(peer.file, peer.session.value, p)
      requires retry == Wait(prevblock, waited) && peer.silences == Silences(waited, Arrived(p), prevblock)
      modifies this`retry, this`block, this`prevblock, this`bcounter, this`packetsize, this`bufEof, this`bufRead,
        this`filemax, this`tpIsRequest, this`tpAck, this`received, peer`session, buf
      ensures Wired() && received - bufRead == old(received - bufRead)
      ensures v != Leave ==> InProtocol() && Patient()
      ensures !abort ==> Streaming()
      ensures !abort ==> (v == Leave <==> p.OtherPacket?) && (v == Fail ==> !Welcome(p))
      ensures prevblock == if !abort && p.Data? && p.field == old(prevblock) + 1 then p.field else old(prevblock)
      ensures !abort && old(prevblock) == 0 && p.Data? ==> prevblock == 1
      ensures !abort && v != Fail ==>
                filemax == if old(prevblock) == 0 && TellsSize(Arrived(p)) then |peer.file| else old(filemax)
      ensures !abort && v == Continue && (p.Data? || prevblock == 0) ==> Acked(old(peer.session))
      ensures !abort && p.Data? && prevblock > old(prevblock) ==> received == old(received) + |p.payload|
      ensures !abort && v == Continue && !p.Data? && prevblock != 0 ==> peer.session == old(peer.session)
      ensures !abort && v == Leave ==>
                peer.session == old(peer.session) && bufRead == old(bufRead) && tpIsRequest == old(tpIsRequest)
      ensures !abort && v != Fail && prevblock == 0 ==> tpIsRequest == (old(tpIsRequest) && !IsAgreed(Arrived(p)))
      ensures old(Abandoned()) ==> Abandoned()
      ensures old(prevblock) > 0 && !abort ==> SameSize(old(peer.session))
      ensures prevblock > old(prevblock) ==>
                peer.session.Some? && Span(prevblock, peer.session.value.blksize) <= received - bufRead + buf.Length
    {
      hide InTransfer, Buffered, Sent, Span, GoodSession, Agreeable, Sizes;
      match p
      case ErrorPacket =>
        Counters();
        return Fail;
      case OtherPacket =>
        Counters();
        return Leave;
      case Oack(m) =>
        Counters();
        OackIsSent(peer.file, peer.session.value, m);
        v := HandleOack(m, abort);
      case Data(field, payload) =>
        Counters();
        DataAtAgreedSize(p);
        if |payload| > packetsize {
          return Continue;
        }
        block, tpAck := field, field;
        v := Acknowledge(payload, abort);
    }

    /** The server's block size is still that of `before`. */
    ghost predicate SameSize(before: Option<Session>)
      reads peer`session
    {
      before.Some? && peer.session.Some? && peer.session.value.blksize == before.value.blksize
    }

    /** Waiting for a reply leaves the transfer as it is; only the server may have moved on. */
    method Receive() returns (r: Reply)
      requires InProtocol()
      modifies peer`script, peer`session, peer`faults, peer`silences, peer`seen
      ensures InProtocol() && SameTransfer(old(peer.session), peer.session)
      ensures Delivery(r, peer.session, peer.script) == Upcoming(peer.file, old(peer.session), old(peer.script))
      ensures if old(peer.script) == [] then peer.script == [] && r.Timeout? else |peer.script| < |old(peer.script)|
      ensures r.Arrived? && (r.packet.Data? || r.packet.Oack?) ==>
                peer.session.Some? && Sent(peer.file, peer.session.value, r.packet)
      ensures peer.seen == old(peer.seen) + [r] && peer.silences == Silences(old(peer.silences), r, prevblock)
      ensures peer.faults == old(peer.faults)
                             + if IsFault(r, peer.silences, prevblock, HasAcked(old(peer.session))) then 1 else 0
      ensures NoStrays(old(peer.script)) ==> NoStrays(peer.script) && !IsStray(r)
      ensures old(Abandoned()) ==>
                Abandoned() && (r.Arrived? ==> r.packet.ErrorPacket? || r.packet.OtherPacket?)
    {
      hide Span, Sent, Upcoming, GoodSession, NoStrays;
      if NoStrays(peer.script) {
        UpcomingWithoutStrays(peer.file, peer.session, peer.script);
      }
      UpcomingWithoutTransfer(peer.file, peer.script);
      r := peer.Await(prevblock);
    }

    // ----- the receive loop

    /** On schedule, with more to come. */
    ghost predicate OnCourse(plan: Plan)
      reads this`prevblock, this`filemax, this`tpIsRequest, peer`session, peer`script, peer`silences
    {
      Smooth(plan) && More(peer.file, peer.session.value, prevblock, plan)
    }

    ghost predicate StrayNext()
      reads peer`script
    {
      peer.script != [] && peer.script[0] == DeliverOther
    }

    lemma StrayArrives(session: Option<Session>, script: seq<Choice>)
      requires script != [] && script[0] == DeliverOther
      ensures Upcoming(peer.file, session, script) == Delivery(Arrived(OtherPacket), session, script[1..])
    {
    }

    /** The transfer will not get any further. */
    ghost predicate Lost(plan: Plan)
      reads this`prevblock, this`tpIsRequest, peer`session, peer`script, peer`silences
    {
      Hopeless(peer.file, peer.session, peer.script, prevblock, peer.silences, tpIsRequest, plan)
    }

    /** On schedule, the right packet arrives, and once it is acknowledged the next one will. */
    lemma StaysSmooth(before: Option<Session>, script: seq<Choice>, n: nat, silences: nat, known: int, reply: Reply,
                      plan: Plan)
      requires OnSchedule(peer.file, before, script, n, silences, plan) && More(peer.file, before.value, n, plan)
      requires !Quiet(before.value, n, silences, plan)
      requires before.value.oack.Some? && before.value.acks != [] ==> known == |peer.file|
      requires var d := Upcoming(peer.file, before, script);
        && reply == d.reply && peer.script == d.script && d.session.Some? && peer.session.Some?
        && peer.session.value == d.session.value.(acks := d.session.value.acks + [prevblock])
      requires prevblock == if IsNext(reply, n) then n + 1 else n
      requires filemax == if n == 0 && TellsSize(reply) then |peer.file| else known
      requires peer.silences == Silences(silences, reply, n)
      ensures KeepsCourse(before, known, plan)
    {
      assert before.Some?;
      hide Upcoming, OnSchedule, Quiet, LastInReach;
      Agenda(before, script, n, silences, plan);
      ScheduleContinues(peer.file, before, peer.session, script, n, silences, plan);
    }

    /** So it will behind a silence. */
    lemma StaysPatient(before: Option<Session>, script: seq<Choice>, n: nat, silences: nat, plan: Plan)
      requires OnSchedule(peer.file, before, script, n, silences, plan) && More(peer.file, before.value, n, plan)
      requires Quiet(before.value, n, silences, plan) && prevblock == n && script != []
      requires before.value.acks == [] ==> tpIsRequest
      requires before.value.oack.Some? && before.value.acks != [] ==> filemax == |peer.file|
      requires peer.silences == silences + 1 && Repeated(before, script[1..])
      ensures KeepsCourse(before, filemax, plan)
    {
      var s := before.value;
      if s.acks == [] {
        assert prevblock == 0 && s.reach == if s.oack.Some? then 0 else 1;
        ScheduleRetries(peer.file, before, script, n, silences, plan);
        hide OnSchedule, Conforming;
        assert peer.session == before;
      } else {
        assert n > 0;
        ScheduleWaits(peer.file, before, peer.session, script, n, silences, plan);
      }
    }

    /** The same transfer is still on schedule. */
    ghost predicate KeepsCourse(before: Option<Session>, known: int, plan: Plan)
      reads this`prevblock, this`filemax, this`tpIsRequest, peer`session, peer`script, peer`silences
    {
      Smooth(plan) && Goes(before, known, peer.session, filemax)
    }

    /** A transfer goes on; the size of the file that is known is no longer changed once the options are agreed. */
    ghost predicate Goes(before: Option<Session>, known: int, session: Option<Session>, max: int) {
      && before.Some? && session.Some?
      && session.value.blksize == before.value.blksize && session.value.oack == before.value.oack
      && (!AwaitsOack(before.value) ==> !AwaitsOack(session.value) && max == known)
    }

    lemma GoesOn(before: Option<Session>, known: int, mid: Option<Session>, midMax: int)
      requires Goes(before, known, mid, midMax) && Goes(mid, midMax, peer.session, filemax)
      ensures Goes(before, known, peer.session, filemax)
    {
    }

    /** A turn of the receive loop keeps to the schedule. */
    lemma CourseKept(was: Tally, session: Option<Session>, script: seq<Choice>, silences: nat, d: Delivery, v: Verdict,
                     plan: Plan)
      requires SmoothAt(session, script, was.prevblock, silences, was.filemax, !was.agreed, plan)
      requires More(peer.file, session.value, was.prevblock, plan)
      requires d == Upcoming(peer.file, session, script)
      requires peer.silences == Silences(silences, d.reply, was.prevblock)
      requires d.reply.Arrived? ==> peer.script == d.script && Answered(was, d, v)
      requires d.reply.Timeout? ==> Waited(was, d, v)
      requires (v == Fail ==> was.faults < peer.faults) && (v == Leave <==> IsStray(d.reply))
      ensures v == Continue && peer.faults == was.faults && KeepsCourse(session, was.filemax, plan)
    {
      hide Upcoming, OnSchedule, Quiet, LastInReach, Agreeable, KeepsCourse, Repeated, More, FullOack;
      Agenda(session, script, was.prevblock, silences, plan);
      if Quiet(session.value, was.prevblock, silences, plan) {
        StaysPatient(session, script, was.prevblock, silences, plan);
      } else {
        StaysSmooth(session, script, was.prevblock, silences, was.filemax, d.reply, plan);
      }
    }

    /** Behind an option acknowledgement that comes to nothing, each turn is a step to losing the transfer. */
    lemma DoomedOn(was: Tally, session: Option<Session>, script: seq<Choice>, silences: nat, d: Delivery, plan: Plan)
      requires Doomed(peer.file, session, script, was.prevblock, silences, !was.agreed, plan)
      requires d == Upcoming(peer.file, session, script) && NoStrays(peer.script)
      requires session.None? ==> Abandoned()
      requires peer.silences == Silences(silences, d.reply, was.prevblock)
      requires d.reply.Arrived? ==> peer.script == d.script && Answered(was, d, Continue)
      requires d.reply.Timeout? ==> Waited(was, d, Continue)
      ensures Lost(plan) && prevblock == was.prevblock
    {
      if session.Some? {
        hide Upcoming, NoStrays, Agreeable, Conforming, FullOack, Retries;
        DoomedSees(peer.file, session, script, was.prevblock, silences, !was.agreed, plan);
      }
      hide Upcoming, NoStrays;
      assert Doomed(peer.file, peer.session, peer.script, prevblock, peer.silences, tpIsRequest, plan);
    }

    /** Without an answer, the client goes on asking for twenty times. */
    lemma OverdueOn(was: Tally, session: Option<Session>, script: seq<Choice>, silences: nat, d: Delivery, plan: Plan)
      requires Overdue(peer.file, session, script, was.prevblock, silences, !was.agreed, plan)
      requires d == Upcoming(peer.file, session, script)
      requires peer.silences == Silences(silences, d.reply, was.prevblock)
      requires d.reply.Timeout? ==> Waited(was, d, Continue)
      ensures Lost(plan) && prevblock == was.prevblock
    {
      hide Upcoming, Conforming, FullOack, Retries;
      OverdueSees(peer.file, session, script, was.prevblock, silences, !was.agreed, plan);
      assert Overdue(peer.file, peer.session, peer.script, prevblock, peer.silences, tpIsRequest, plan);
    }

    /** Without a block, it repeats its acknowledgement nine times. */
    lemma DesertedOn(was: Tally, session: Option<Session>, script: seq<Choice>, silences: nat, d: Delivery, plan: Plan)
      requires Deserted(peer.file, session, script, was.prevblock, silences, !was.agreed, plan)
      requires d == Upcoming(peer.file, session, script)
      requires peer.silences == Silences(silences, d.reply, was.prevblock)
      requires d.reply.Timeout? ==> Waited(was, d, Continue)
      ensures Lost(plan) && prevblock == was.prevblock
    {
      hide Upcoming, Left, FallsSilent;
      NextOfSilent(peer.file, session, plan.tail, silences);
      assert Deserted(peer.file, peer.session, peer.script, prevblock, peer.silences, tpIsRequest, plan);
    }

    /** No stray packet ends the wait of such a client. */
    lemma LostSeesNoStray(plan: Plan)
      requires Lost(plan)
      ensures NoStrays(peer.script) || !IsStray(Upcoming(peer.file, peer.session, peer.script).reply)
    {
      hide Upcoming, NoStrays, Left;
      var s, c, n, k, a := peer.session, peer.script, prevblock, peer.silences, tpIsRequest;
      if Overdue(peer.file, s, c, n, k, a, plan) {
        OverdueSees(peer.file, s, c, n, k, a, plan);
      } else if Deserted(peer.file, s, c, n, k, a, plan) {
        NextOfSilent(peer.file, s, plan.tail, k);
      }
    }

    lemma LostOn(was: Tally, session: Option<Session>, script: seq<Choice>, silences: nat, d: Delivery, plan: Plan)
      requires Hopeless(peer.file, session, script, was.prevblock, silences, !was.agreed, plan)
      requires d == Upcoming(peer.file, session, script) && (NoStrays(script) ==> NoStrays(peer.script))
      requires was.prevblock == 0 && session.None? && was.agreed ==> Abandoned()
      requires peer.silences == Silences(silences, d.reply, was.prevblock)
      requires d.reply.Arrived? ==> peer.script == d.script && Answered(was, d, Continue)
      requires d.reply.Timeout? ==> Waited(was, d, Continue)
      ensures Lost(plan) && prevblock == was.prevblock
    {
      hide Upcoming, NoStrays, Answered, Waited, Lost, Overdue, Deserted;
      if Doomed(peer.file, session, script, was.prevblock, silences, !was.agreed, plan) {
        DoomedOn(was, session, script, silences, d, plan);
      } else if Overdue(peer.file, session, script, was.prevblock, silences, !was.agreed, plan) {
        OverdueOn(was, session, script, silences, d, plan);
      } else {
        DesertedOn(was, session, script, silences, d, plan);
      }
    }

    /** What a schedule brings: a silence that can be borne, or a packet that is welcome. */
    lemma Agenda(before: Option<Session>, script: seq<Choice>, n: nat, silences: nat, plan: Plan)
      requires OnSchedule(peer.file, before, script, n, silences, plan) && More(peer.file, before.value, n, plan)
      ensures var d := Upcoming(peer.file, before, script); var s := before.value;
        if Quiet(s, n, silences, plan) then
          && d == Delivery(Timeout, before, script[1..]) && script != []
          && silences + 1 <= Patience(n, HasAcked(before)) <= Patience(n, false)
          && (s.acks == [] ==> n == 0 && |script| >= 2 && script[1].Serve?) && (s.acks != [] ==> n > 0)
        else
          && d.reply.Arrived? && d.session.Some? && d.session.value.acks == s.acks && d.session.value.oack == s.oack
          && d.session.value.blksize == s.blksize
          && (AwaitsOack(s) ==>
                n == 0 && d.reply == Arrived(Oack(FullOack(s.blksize, |peer.file|))) && TellsSize(d.reply))
          && (!AwaitsOack(s) ==> IsNext(d.reply, n)) && Welcome(d.reply.packet)
    {
      assert before.Some?;
      hide OnSchedule, Quiet, LastInReach, More, Upcoming, Agreeable, TellsSize, FullOack;
      if Quiet(before.value, n, silences, plan) {
        QuietAgenda(before, script, n, silences, plan);
      } else {
        ScheduleDelivers(peer.file, before, script, n, silences, plan);
        OackIsWelcome(before, script, n, silences, plan);
      }
    }

    lemma QuietAgenda(before: Option<Session>, script: seq<Choice>, n: nat, silences: nat, plan: Plan)
      requires OnSchedule(peer.file, before, script, n, silences, plan) && More(peer.file, before.value, n, plan)
      requires Quiet(before.value, n, silences, plan)
      ensures var s := before.value;
        && script != [] && Upcoming(peer.file, before, script) == Delivery(Timeout, before, script[1..])
        && silences + 1 <= Patience(n, HasAcked(before)) <= Patience(n, false)
        && (s.acks == [] ==> n == 0 && |script| >= 2 && script[1].Serve?) && (s.acks != [] ==> n > 0)
    {
      hide Upcoming, Blocks, Coming, Retries, FullOack, Serving;
      ScheduleDelivers(peer.file, before, script, n, silences, plan);
      if before.value.acks == [] {
        ScheduleRetries(peer.file, before, script, n, silences, plan);
        hide OnSchedule;
      }
    }

    lemma OackIsWelcome(before: Option<Session>, script: seq<Choice>, n: nat, silences: nat, plan: Plan)
      requires OnSchedule(peer.file, before, script, n, silences, plan)
      ensures before.Some? && (AwaitsOack(before.value) ==> n == 0)
      ensures var m := FullOack(before.value.blksize, |peer.file|); Agreeable(m) && TellsSize(Arrived(Oack(m)))
    {
      hide Blocks, Coming, Retries, LastInReach;
      var m := FullOack(before.value.blksize, |peer.file|);
      FullOackIsGood(peer.file, before.value.blksize);
      assert m.options[1] in m.options && m.options[1].Tsize?;
    }

    /** What is done about a reply, `waited` silences after the last block. */
    method Respond(r: Reply, abort: bool, ghost waited: nat) returns (v: Verdict)
      requires InProtocol() && (!abort ==> Buffered())
      requires !bufEof && bufRead + packetsize <= buf.Length
      requires r.Arrived? && (r.packet.Data? || r.packet.Oack?) ==>
                 peer.session.Some? && Sent(peer.file, peer.session.value, r.packet)
      requires retry == Wait(prevblock, waited) && peer.silences == Silences(waited, r, prevblock)
      modifies this`retry, this`block, this`prevblock, this`bcounter, this`packetsize, this`bufEof, this`bufRead,
        this`filemax, this`tpIsRequest, this`tpAck, this`received, peer`script, peer`session, peer`faults, peer`asked,
        peer`silences, buf
      ensures Wired() && received - bufRead == old(received - bufRead)
      ensures v != Leave ==> InProtocol() && Patient()
      ensures !abort ==> Streaming()
      ensures prevblock == if !abort && IsNext(r, old(prevblock)) then old(prevblock) + 1 else old(prevblock)
      ensures !abort && old(prevblock) == 0 && IsData(r) ==> prevblock == 1
      ensures |peer.script| <= old(|peer.script|) && old(peer.faults) <= peer.faults && peer.asked == old(peer.asked)
      ensures !abort ==> (v == Leave <==> IsStray(r))
      ensures !abort && v == Fail ==>
                IsFault(r, old(peer.silences), old(prevblock), false) || old(peer.faults) < peer.faults
      ensures !abort && v != Fail ==>
                filemax == if old(prevblock) == 0 && TellsSize(r) then |peer.file| else old(filemax)
      ensures !abort && old(prevblock) > 0 ==> SameSize(old(peer.session))
      ensures prevblock > old(prevblock) ==>
                peer.session.Some? && Span(prevblock, peer.session.value.blksize) <= received - bufRead + buf.Length
      ensures !abort && r.Arrived? ==> peer.script == old(peer.script) && peer.faults == old(peer.faults)
      ensures !abort && v == Continue && (IsData(r) || (r.Arrived? && prevblock == 0)) ==> Acked(old(peer.session))
      ensures !abort && v == Leave ==>
                && peer.session == old(peer.session) && bufRead == old(bufRead) && tpIsRequest == old(tpIsRequest)
                && peer.silences == old(peer.silences)
      ensures v == Continue && !r.Arrived? ==> old(retry) < retry <= GIVE_UP
      ensures peer.silences == Silences(waited, r, old(prevblock))
      ensures r.Timeout? ==>
                && (v == Continue <==> peer.silences <= Patience(prevblock, false) && peer.faults == old(peer.faults))
                && filemax == old(filemax) && tpIsRequest == old(tpIsRequest)
      ensures r.Timeout? && v == Continue && (prevblock > 0 || tpIsRequest) ==>
                Repeated(old(peer.session), old(peer.script))
      ensures r.Timeout? && (prevblock > 0 || (tpIsRequest && old(peer.script) != [] && old(peer.script)[0].Serve?)) ==>
                peer.faults == old(peer.faults)
      ensures !abort && v != Fail && prevblock == 0 ==> tpIsRequest == (old(tpIsRequest) && !IsAgreed(r))
      ensures v != Fail && r.Timeout? && old(prevblock) == 0 && !old(tpIsRequest) ==> Abandoned()
      ensures old(Abandoned()) ==> Abandoned()
      ensures NoStrays(old(peer.script)) ==> NoStrays(peer.script)
    {
      hide InTransfer, Buffered, Sent, Span, GoodSession, Agreeable, Sizes, NoStrays, Repeated, Conforming;
      Counters();
      match r
      case Arrived(p) =>
        v := HandlePacket(p, abort, waited);
      case UserAbort =>
        v := Fail;
      case Timeout =>
        var again := HandleSilence();
        Counters();
        v := if again then Continue else Fail;
    }

    /** One reply, and what is done about it: the accounts are kept. `d` is what the network does. */
    method Exchange(abort: bool) returns (v: Verdict, ghost d: Delivery)
      requires InProtocol() && Patient() && (!abort ==> Buffered())
      requires !bufEof && bufRead + packetsize <= buf.Length
      modifies this`retry, this`block, this`prevblock, this`bcounter, this`packetsize, this`bufEof, this`bufRead,
        this`filemax, this`tpIsRequest, this`tpAck, this`received, peer, buf
      ensures d == Upcoming(peer.file, old(peer.session), old(peer.script)) && peer.seen == old(peer.seen) + [d.reply]
      ensures Wired() && Trails(old(Now()), Now())
      ensures v != Leave ==> InProtocol() && Patient()
      ensures !abort ==> Streaming()
      ensures !abort && v == Fail ==> old(peer.faults) < peer.faults
      ensures !abort && v != Fail ==> Tells(old(Now()), Now(), |peer.file|, buf.Length)
      ensures !abort ==> (v == Leave <==> IsStray(d.reply))
      ensures !abort && v == Leave ==>
                && old(peer.faults) < peer.faults && |peer.script| < old(|peer.script|) && bufRead == old(bufRead)
                && prevblock == old(prevblock) && filemax == old(filemax) && peer.session == d.session
                && tpIsRequest == old(tpIsRequest)
      ensures v == Continue ==>
                || |peer.script| < old(|peer.script|)
                || (|peer.script| == old(|peer.script|) && old(retry) < retry <= GIVE_UP)
      ensures peer.silences == Silences(old(peer.silences), d.reply, old(prevblock))
      ensures !abort && d.reply.Arrived? ==> peer.script == d.script && Answered(old(Now()), d, v)
      ensures d.reply.Timeout? ==> Waited(old(Now()), d, v)
      ensures NoStrays(old(peer.script)) ==> NoStrays(peer.script) && !IsStray(d.reply)
    {
      hide InProtocol, Streaming, Buffered, Wired, Sent, Span, Upcoming, Agreeable, Repeated, NoStrays, Sizes, Trails,
        Tells, Since, Told, NoData, GoodFor;
      ghost var was, k := Now(), peer.silences;
      var r := Receive();
      d := Delivery(r, peer.session, peer.script);
      v := Respond(r, abort, k);
      TrailsOne(was, Now(), r);
      if !abort && v != Fail {
        TellsOne(was, Now(), r, |peer.file|, buf.Length);
      }
    }

    /** What an arrived packet has led to. */
    ghost predicate Answered(was: Tally, d: Delivery, v: Verdict)
      reads this`prevblock, this`filemax, this`tpIsRequest, peer`session, peer`faults
    {
      && prevblock == (if IsNext(d.reply, was.prevblock) then was.prevblock + 1 else was.prevblock)
      && (v != Fail ==> filemax == if was.prevblock == 0 && TellsSize(d.reply) then |peer.file| else was.filemax)
      && (d.reply.Arrived? && Welcome(d.reply.packet) ==> peer.faults == was.faults)
      && (v == Continue && (IsData(d.reply) || prevblock == 0) ==> Acked(d.session))
      && (v == Continue && prevblock == 0 && IsAgreed(d.reply) ==> !tpIsRequest)
    }

    /** What a silence has led to. */
    ghost predicate Waited(was: Tally, d: Delivery, v: Verdict)
      reads this`prevblock, this`filemax, this`tpIsRequest, peer`session, peer`script, peer`faults, peer`silences
    {
      && prevblock == was.prevblock && filemax == was.filemax && tpIsRequest == !was.agreed
      && (v != Fail && prevblock == 0 && was.agreed ==> Abandoned())
      && (v == Continue && (prevblock > 0 || tpIsRequest) ==> Repeated(d.session, d.script))
      && (v == Continue ==> peer.silences <= Patience(prevblock, false))
      && (peer.silences <= Patience(prevblock, HasAcked(d.session))
          && (prevblock > 0 || (tpIsRequest && d.script != [] && d.script[0].Serve?)) ==>
            v == Continue && peer.faults == was.faults)
    }

    /** One turn of the receive loop. */
    method Turn(abort: bool, ghost plan: Plan) returns (v: Verdict)
      requires InProtocol() && Patient() && (!abort ==> Buffered())
      requires !bufEof && bufRead + packetsize <= buf.Length
      modifies this`retry, this`block, this`prevblock, this`bcounter, this`packetsize, this`bufEof, this`bufRead,
        this`filemax, this`tpIsRequest, this`tpAck, this`received, peer, buf
      ensures Wired() && Trails(old(Now()), Now()) && |peer.seen| == |old(peer.seen)| + 1
      ensures v != Leave ==> InProtocol() && Patient()
      ensures !abort ==> Streaming()
      ensures !abort && v == Fail ==> old(peer.faults) < peer.faults
      ensures !abort && v != Fail ==>
                && Tells(old(Now()), Now(), |peer.file|, buf.Length)
                && (v == Leave <==> IsStray(peer.seen[|old(peer.seen)|]))
      ensures !abort && v == Leave ==>
                && old(peer.faults) < peer.faults && |peer.script| < old(|peer.script|) && bufRead == old(bufRead)
                && prevblock == old(prevblock) && filemax == old(filemax)
      ensures v == Continue ==>
                || |peer.script| < old(|peer.script|)
                || (|peer.script| == old(|peer.script|) && old(retry) < retry <= GIVE_UP)
      ensures !abort && old(OnCourse(plan)) ==> v == Continue && peer.faults == old(peer.faults)
      ensures !abort && old(OnCourse(plan)) ==> KeepsCourse(old(peer.session), old(filemax), plan)
      ensures !abort && old(StrayNext()) ==>
                && v == Leave && peer.script == old(peer.script)[1..] && peer.session == old(peer.session)
                && peer.silences == old(peer.silences) && tpIsRequest == old(tpIsRequest)
      ensures !abort && NoStrays(old(peer.script)) ==> NoStrays(peer.script) && v != Leave
      ensures !abort && old(Lost(plan)) ==> v != Leave && (v == Continue ==> Lost(plan) && prevblock == old(prevblock))
    {
      hide InProtocol, Streaming, Buffered, Wired, Patient, Upcoming, NoStrays, Trails, Tells, Hopeless, Answered,
        Waited, SmoothAt, More, KeepsCourse;
      ghost var was, course, lost, stray := Now(), OnCourse(plan), Lost(plan), StrayNext();
      ghost var session, script, silences := peer.session, peer.script, peer.silences;
      if stray {
        StrayArrives(session, script);
      }
      if lost {
        LostSeesNoStray(plan);
      }
      ghost var d;
      v, d := Exchange(abort);
      if !abort {
        if course {
          CourseKept(was, session, script, silences, d, v, plan);
        }
        if lost && v == Continue {
          TrailsMeans(was, Now());
          LostOn(was, session, script, silences, d, plan);
        }
      }
    }

    /** A whole fill stays within the blocks that can be had. */
    ghost predicate Enough(plan: Plan)
      reads this`received, this`bufRead, peer`session
    {
      FillTakes(SizeOf(peer.session), received - bufRead) <= plan.most
    }

    /** The blocks received by a whole fill of a window that begins at `base`. */
    ghost function FillTakes(blksize: nat, base: int): nat {
      var g := Shape(buf.Length, blksize, |peer.file|);
      if base >= 0 && g.Sound() then g.Target(base) else 0
    }

    /** A fill is complete at the end of the file, or when another packet might not fit. */
    ghost predicate Complete()
      reads this`bufEof, this`bufRead, this`packetsize
    {
      bufEof || bufRead + packetsize > buf.Length
    }

    /** On schedule, there is more to come until the fill is complete or the network leaves off. */
    lemma Progress(plan: Plan)
      requires InProtocol() && Buffered() && Smooth(plan) && !Complete()
      ensures OnCourse(plan) ||
              (prevblock == plan.most > 0 && !Enough(plan) && peer.script == plan.tail && peer.silences == 0)
    {
      hide OnSchedule, InStep, GoodSession;
      var s := peer.session.value;
      WithinPlan(plan);
      if s.acks != [] {
        BelowTarget(Form(), received - bufRead, prevblock);
        if !OnCourse(plan) {
          Quotient(|peer.file|, s.blksize, prevblock);
          ScheduleEnds(peer.file, peer.session, peer.script, prevblock, peer.silences, plan);
        }
      }
    }

    lemma WithinPlan(plan: Plan)
      requires Smooth(plan)
      ensures peer.session.Some? && peer.session.value.blksize >= 1 && 1 <= plan.most <= MOST_BLOCKS
      ensures prevblock <= LastInReach(peer.file, peer.session.value.blksize, plan.most) <= plan.most
    {
    }

    lemma CompleteHasBlock()
      requires InProtocol() && Complete() && Buffered()
      ensures prevblock >= 1
    {
      Counters();
    }

    lemma StrayAtTheEnd(p: Tally, q: Tally, r: Tally)
      requires Trails(p, q) && Trails(q, r) && |r.seen| == |q.seen| + 1 && NoStray(Since(p, q))
      ensures Trails(p, r) && Since(p, r) == Since(p, q) + [r.seen[|q.seen|]] && StrayOnlyLast(Since(p, r))
      ensures !IsStray(r.seen[|q.seen|]) ==> NoStray(Since(p, r))
    {
      TrailsOn(p, q, r);
    }

    ghost predicate NoStray(log: seq<Reply>) {
      forall i :: 0 <= i < |log| ==> !IsStray(log[i])
    }

    /** What a fill has come to, given that there are no failures before its end: it is complete, or a stray
        packet has put an end to it. */
    ghost predicate FillEnded(was: Tally)
      reads this`prevblock, this`received, this`bufRead, this`filemax, this`bufEof, this`packetsize, this`tpIsRequest,
        peer
    {
      && Trails(was, Now()) && Tells(was, Now(), |peer.file|, buf.Length) && StrayOnlyLast(Since(was, Now()))
      && (prevblock == 0 ==> Since(was, Now()) != [] && IsStray(Since(was, Now())[|Since(was, Now())| - 1]))
      && (Complete() || (was.faults < peer.faults && |peer.script| < was.left))
    }

    /** What a fill has come to so far. */
    ghost predicate Filling(was: Tally)
      reads this`prevblock, this`received, this`bufRead, this`filemax, this`tpIsRequest, peer
    {
      Trails(was, Now()) && Tells(was, Now(), |peer.file|, buf.Length) && NoStray(Since(was, Now()))
    }

    /** A turn of the receive loop goes on with it or ends it. */
    lemma FillingOn(was: Tally, p: Tally, v: Verdict)
      requires Trails(was, p) && Tells(was, p, |peer.file|, buf.Length) && NoStray(Since(was, p))
      requires Trails(p, Now()) && Tells(p, Now(), |peer.file|, buf.Length) && |peer.seen| == |p.seen| + 1
      requires v == Leave <==> IsStray(peer.seen[|p.seen|])
      requires v == Leave ==> p.faults < peer.faults && |peer.script| < p.left
      ensures if v == Leave then FillEnded(was) else Filling(was)
    {
      hide Tells, IsStray, NoStray, StrayOnlyLast, Since, Trails;
      TrailsOn(was, p, Now());
      TellsOn(was, p, Now(), |peer.file|, buf.Length);
      StrayAtTheEnd(was, p, Now());
    }

    lemma FillingEnds(was: Tally)
      requires Filling(was) && Complete() && prevblock >= 1
      ensures FillEnded(was)
    {
      hide Tells, Trails, Since;
    }

    /** `buf_fill`: receives blocks until the end of the file or until another packet might not fit. */
    method BufFill(abort: bool, ghost plan: Plan) returns (ok: bool)
      requires InProtocol() && Patient() && (!abort ==> Buffered())
      modifies this`retry, this`block, this`prevblock, this`bcounter, this`packetsize, this`bufEof, this`bufRead,
        this`filemax, this`tpIsRequest, this`tpAck, this`received, peer, buf
      ensures Wired() && Trails(old(Now()), Now())
      ensures !abort ==> Streaming()
      ensures !abort && !ok ==> old(peer.faults) < peer.faults
      ensures !abort && ok ==> FillEnded(old(Now()))
      ensures !abort && old(Smooth(plan) && Enough(plan)) ==>
                && ok && Complete() && peer.faults == old(peer.faults)
                && KeepsCourse(old(peer.session), old(filemax), plan)
      ensures !abort && old(StrayNext() && !Complete()) ==>
                && ok && peer.script == old(peer.script)[1..] && peer.session == old(peer.session)
                && bufRead == old(bufRead) && prevblock == old(prevblock) && filemax == old(filemax)
                && peer.silences == old(peer.silences) && tpIsRequest == old(tpIsRequest)
      ensures !abort && NoStrays(old(peer.script)) ==> NoStrays(peer.script) && (ok ==> Complete() && prevblock >= 1)
      ensures !abort && old(Smooth(plan) && !Enough(plan)) && FallsSilent(plan.tail) ==> !ok
      ensures !abort && old(Lost(plan)) && plan.most == 0 ==> !ok
      ensures abort && old(bufEof) ==> Now() == old(Now()) && peer.script == old(peer.script)
    {
      hide InTransfer, Buffered, Tells, Trails, Since, NoStrays, Lost, Smooth, Wired, Filling, FillEnded, Span,
        FallsSilent, Prospect, KeepsCourse;
      ghost var was, o := Now(), OutlookNow(plan);
      ghost var stuck := o.lost;
      StandingStill(was, |peer.file|, buf.Length);
      NoneFilled(was);
      ProspectBegins(was, o, plan);
      while !bufEof && bufRead + packetsize <= buf.Length
        invariant InProtocol() && Patient() && (!abort ==> Buffered())
        invariant Trails(was, Now()) && (!abort ==> Filling(was) && Prospect(was, o, plan, stuck))
        invariant abort && old(bufEof) ==> bufEof && Now() == was && peer.script == old(peer.script)
        decreases |peer.script|, if retry < GIVE_UP then GIVE_UP - retry else 0
      {
        var v;
        if abort {
          ghost var p := Now();
          v := Turn(true, plan);
          TrailsOn(was, p, Now());
        } else {
          v, stuck := FillTurn(was, o, plan, stuck);
        }
        if v == Leave {
          return true;
        } else if v == Fail {
          return false;
        }
      }
      Counters();
      if !abort {
        CompleteHasBlock();
        FillingEnds(was);
        ProspectEnds(was, o, plan, stuck);
      }
      return true;
    }

    /** What is known of the network when a fill begins. */
    ghost function OutlookNow(plan: Plan): Outlook
      reads this`prevblock, this`filemax, this`tpIsRequest, this`received, this`bufRead, this`bufEof, this`packetsize,
        peer`session, peer`script, peer`silences
    {
      Outlook(peer.session, peer.script, peer.silences, tpIsRequest, bufRead, Lost(plan) && plan.most == 0,
              Smooth(plan) && Enough(plan), Smooth(plan) && !Enough(plan) && FallsSilent(plan.tail),
              StrayNext() && !Complete(), NoStrays(peer.script))
    }

    /** What that means while it goes on. */
    ghost predicate Prospect(was: Tally, o: Outlook, plan: Plan, stuck: bool)
      reads this`prevblock, this`filemax, this`tpIsRequest, this`received, this`bufRead, this`bufEof, this`packetsize,
        peer
    {
      && (o.Planned() ==> OnPlan(was, o.session, plan, stuck)) && (o.lost ==> stuck) && (o.enough ==> !stuck)
      && (o.enough ==> FillTakes(SizeOf(o.session), was.base) <= plan.most)
      && (o.short ==> FillTakes(SizeOf(o.session), was.base) > plan.most && FallsSilent(plan.tail))
      && (o.stray ==> Now() == was && o.Untouched(peer.session, peer.script, peer.silences, bufRead) && !Complete())
      && (o.stray ==> StrayNext())
      && (o.clean ==> NoStrays(peer.script))
    }

    lemma ProspectBegins(was: Tally, o: Outlook, plan: Plan)
      requires was == Now() && o == OutlookNow(plan)
      ensures Prospect(was, o, plan, o.lost)
    {
      hide Lost, FallsSilent, NoStrays, FillTakes, SmoothAt, StrayNext;
      if o.lost || o.enough || o.short {
        PlanBegins(was, plan, o.lost);
      }
    }

    lemma ProspectEnds(was: Tally, o: Outlook, plan: Plan, stuck: bool)
      requires InProtocol() && Buffered() && Complete() && FillEnded(was) && Prospect(was, o, plan, stuck)
      ensures !o.lost && !o.short && !o.stray && prevblock >= 1 && (o.clean ==> NoStrays(peer.script))
      ensures o.enough ==> peer.faults == was.faults && KeepsCourse(o.session, was.filemax, plan)
    {
      CompleteHasBlock();
      hide InProtocol, Buffered, FillEnded, OnPlan, FillTakes, FallsSilent, NoStrays, StrayNext, KeepsCourse;
      if o.Planned() {
        PlanEnds(was, o.session, plan, stuck);
      }
    }

    /** One turn of a fill. */
    method FillTurn(ghost was: Tally, ghost o: Outlook, ghost plan: Plan, ghost stuck: bool)
      returns (v: Verdict, ghost now: bool)
      requires InProtocol() && Patient() && Buffered() && !Complete()
      requires Trails(was, Now()) && Filling(was) && Prospect(was, o, plan, stuck)
      modifies this`retry, this`block, this`prevblock, this`bcounter, this`packetsize, this`bufEof, this`bufRead,
        this`filemax, this`tpIsRequest, this`tpAck, this`received, peer, buf
      ensures Wired() && Streaming() && Trails(was, Now())
      ensures v == Continue ==>
                || |peer.script| < old(|peer.script|)
                || (|peer.script| == old(|peer.script|) && old(retry) < retry <= GIVE_UP)
      ensures v == Continue ==> Filling(was) && Prospect(was, o, plan, now)
      ensures v == Fail ==> was.faults < peer.faults && !o.enough && !o.stray
      ensures v == Leave ==> FillEnded(was) && !o.Planned() && !o.clean
      ensures o.stray ==> o.AfterStray(was, Now(), peer.session, peer.script, peer.silences, bufRead)
      ensures o.clean ==> NoStrays(peer.script)
    {
      hide InProtocol, Streaming, Buffered, Wired, Tells, Trails, Since, NoStrays, Lost, Filling, FillEnded, Span,
        FallsSilent, OnPlan, OnCourse, Patient, Goes, FillTakes;
      ghost var p, mid := Now(), peer.session;
      FillingMeans(was);
      now := stuck;
      if o.Planned() {
        TrailsMeans(was, p);
        now := PlanNow(was, o.session, plan, stuck);
      }
      v := Turn(false, plan);
      TrailsOn(was, p, Now());
      TrailsMeans(p, Now());
      if v != Fail {
        FillingOn(was, p, v);
        if o.Planned() && v == Continue {
          SameSizeOn(p, Now());
          PlanOn(was, o.session, p, mid, plan, now);
        }
      }
    }

    /** A fill that follows a plan since `was`, when its transfer was `session`: it is on schedule or, if `stuck`,
        all that is delivered has been received, and more is needed. */
    ghost predicate OnPlan(was: Tally, session: Option<Session>, plan: Plan, stuck: bool)
      reads this`prevblock, this`filemax, this`tpIsRequest, peer`session, peer`script, peer`silences, peer`faults
    {
      if stuck then Lost(plan) && (plan.most == 0 || FillTakes(SizeOf(peer.session), was.base) > plan.most)
      else peer.faults == was.faults && Smooth(plan) && Goes(session, was.filemax, peer.session, filemax)
    }

    lemma PlanBegins(was: Tally, plan: Plan, stuck: bool)
      requires was == Now() && if stuck then Lost(plan) && plan.most == 0 else Smooth(plan)
      ensures OnPlan(was, peer.session, plan, stuck)
      ensures plan.most == 0 ==> !Smooth(plan)
    {
      hide Hopeless;
      if Smooth(plan) {
        WithinPlan(plan);
      }
    }

    /** The next packet of the schedule will come, or none. */
    lemma PlanNow(was: Tally, session: Option<Session>, plan: Plan, stuck: bool) returns (now: bool)
      requires InProtocol() && Buffered() && !Complete() && OnPlan(was, session, plan, stuck)
      requires was.base == received - bufRead
      requires stuck || FillTakes(SizeOf(session), was.base) <= plan.most || FallsSilent(plan.tail)
      ensures stuck ==> now
      ensures !stuck && FillTakes(SizeOf(session), was.base) <= plan.most ==> !now
      ensures if now then Lost(plan) && (plan.most == 0 || FillTakes(SizeOf(peer.session), was.base) > plan.most)
              else OnCourse(plan) && peer.faults == was.faults && Goes(session, was.filemax, peer.session, filemax)
    {
      hide InProtocol, Buffered, Hopeless, FillTakes, FallsSilent, SmoothAt;
      now := stuck;
      if !stuck {
        Progress(plan);
        if !OnCourse(plan) {
          WithinPlan(plan);
          LeftAlone(plan);
          now := true;
        }
      }
    }

    lemma PlanOn(was: Tally, session: Option<Session>, p: Tally, mid: Option<Session>, plan: Plan, stuck: bool)
      requires SizeOf(mid) == p.blksize && (p.prevblock > 0 ==> SizeOf(peer.session) == p.blksize)
      requires if stuck
        then && Lost(plan) && prevblock == p.prevblock
             && (plan.most == 0 || FillTakes(p.blksize, was.base) > plan.most)
        else && peer.faults == was.faults && KeepsCourse(mid, p.filemax, plan)
             && Goes(session, was.filemax, mid, p.filemax)
      ensures OnPlan(was, session, plan, stuck)
    {
      hide Hopeless, FillTakes, SmoothAt;
      if stuck {
        NoneDelivered(plan);
      } else {
        GoesOn(session, was.filemax, mid, p.filemax);
      }
    }

    lemma PlanEnds(was: Tally, session: Option<Session>, plan: Plan, stuck: bool)
      requires InProtocol() && Buffered() && Complete() && FillEnded(was) && OnPlan(was, session, plan, stuck)
      ensures !stuck && FillTakes(SizeOf(session), was.base) <= plan.most
      ensures peer.faults == was.faults && KeepsCourse(session, was.filemax, plan)
    {
      hide InProtocol, Buffered, Hopeless, FillEnded, Shape.Target, SmoothAt, Span, Trails, Tells;
      CompleteHasBlock();
      EndMeans(was);
      TrailsMeans(was, Now());
      WindowFacts();
      Fitting();
      FilledUp(was.prevblock);
      if stuck {
        NoneDelivered(plan);
      } else {
        WithinPlan(plan);
      }
    }

    lemma SameSizeOn(p: Tally, q: Tally)
      requires Trails(p, q) && Tells(p, q, |peer.file|, buf.Length)
      ensures p.prevblock > 0 ==> q.blksize == p.blksize
    {
    }

    lemma NoneDelivered(plan: Plan)
      requires Lost(plan)
      ensures prevblock == plan.most
    {
    }

    lemma LeftAlone(plan: Plan)
      requires prevblock == plan.most > 0 && peer.script == plan.tail && peer.silences == 0 && FallsSilent(plan.tail)
      requires peer.session.Some?
      ensures Lost(plan)
    {
      assert Deserted(peer.file, peer.session, peer.script, prevblock, peer.silences, tpIsRequest, plan);
    }

    lemma NoneFilled(was: Tally)
      requires was == Now() && Trails(was, was) && Tells(was, was, |peer.file|, buf.Length) && Since(was, was) == []
      ensures Filling(was)
    {
    }

    lemma FillingMeans(was: Tally)
      requires Filling(was)
      ensures Trails(was, Now()) && Tells(was, Now(), |peer.file|, buf.Length) && NoStray(Since(was, Now()))
    {
    }

    // ----- reading through the window

    /** `grub_memmove (addr, buf + from, amt)`, at offset `at` of the caller's area. */
    method CopyOut(addr: array<Byte>, at: nat, from: nat, amt: nat)
      requires addr != buf && at + amt <= addr.Length && from + amt <= buf.Length
      modifies addr
      ensures addr[..at + amt] == old(addr[..at]) + buf[from..from + amt]
      ensures addr[at + amt..] == old(addr[at + amt..])
    {
      var i := 0;
      while i < amt
        invariant i <= amt
        invariant addr[..at + i] == old(addr[..at]) + buf[from..from + i]
        invariant addr[at + i..] == old(addr[at + i..])
      {
        addr[at + i] := buf[from + i];
        i := i + 1;
      }
    }

    /** `grub_memmove (buf, buf + length, length)`. */
    method MoveDown(length: nat, ghost used: nat)
      requires 2 * length == buf.Length && length <= used <= buf.Length
      modifies buf
      ensures buf[..used - length] == old(buf[length..used])
    {
      ghost var was := buf[..];
      var i := 0;
      while i < length
        invariant i <= length
        invariant forall k :: 0 <= k < i ==> buf[k] == was[length + k]
        invariant forall k :: length <= k < buf.Length ==> buf[k] == was[k]
      {
        buf[i] := buf[length + i];
        i := i + 1;
      }
      assert |buf[..used - length]| == |was[length..used]|;
      forall k | 0 <= k < used - length ensures buf[..used - length][k] == was[length..used][k] {
        assert buf[k] == was[length + k];
      }
      assert old(buf[length..used]) == was[length..used];
    }

    /** Moves the upper half of the buffer down, and the window with it. */
    method SlideHalf(length: nat)
      requires Valid() && 2 * length == buf.Length && length <= bufRead
      modifies this`bufRead, this`savedFilepos, buf
      ensures Valid() && savedFilepos == old(savedFilepos) + length
    {
      hide InProtocol;
      WindowBytes(length, bufRead);
      MoveDown(length, bufRead);
      bufRead := bufRead - length;
      savedFilepos := savedFilepos + length;
    }

    /** What a read has delivered so far: the bytes of the file from `start` up to `filepos`. */
    ghost predicate Delivered(addr: array<Byte>, start: nat)
      reads this`filepos, addr
    {
      && start <= filepos && filepos - start <= addr.Length
      && (start < filepos ==> filepos <= |peer.file|)
      && (start < filepos ==> addr[..filepos - start] == peer.file[start..filepos])
    }

    /** Part of the window is the same part of the file. */
    lemma WindowBytes(from: nat, to: nat)
      requires Valid() && from <= to <= bufRead
      ensures buf[from..to] == peer.file[savedFilepos + from..savedFilepos + to]
    {
      hide InProtocol;
      SliceOfSlice(buf[..], 0, bufRead, from, to);
      SliceOfSlice(peer.file, savedFilepos, received, from, to);
      assert buf[..][0..bufRead] == buf[..bufRead] && buf[..][from..to] == buf[from..to];
    }

    /** `grub_memmove (addr, buf + filepos - saved_filepos, amt)` and the moves of the two positions. */
    method CopyWindow(addr: array<Byte>, ghost start: nat, ret: nat, amt: nat)
      requires Valid() && savedFilepos <= filepos && addr != buf && filepos + amt <= savedFilepos + bufRead
      requires Delivered(addr, start) && ret == filepos - start && ret + amt <= addr.Length
      modifies this`filepos, addr
      ensures filepos == old(filepos) + amt && Delivered(addr, start)
    {
      hide InProtocol, Buffered;
      var from := filepos - savedFilepos;
      ghost var file, front := peer.file, addr[..ret];
      Fitting();
      WindowBytes(from, from + amt);
      NothingMissing(file, start, filepos, front, filepos + amt);
      CopyOut(addr, ret, from, amt);
      filepos := filepos + amt;
    }

    lemma NothingMissing(file: seq<Byte>, start: nat, pos: nat, front: seq<Byte>, end: nat)
      requires start <= pos <= end <= |file| && |front| == pos - start && (start < pos ==> front == file[start..pos])
      ensures front + file[pos..end] == file[start..end]
    {
    }

    /** Copies what the window holds at `filepos`, at most `size` bytes, and slides it when its free space
        gets small; a window that ends before `filepos` is given up. */
    method Consume(addr: array<Byte>, ghost start: nat, ret: nat, size: nat) returns (amt: nat)
      requires Valid() && savedFilepos <= filepos && size > 0 && addr != buf
      requires Delivered(addr, start) && ret == filepos - start && ret + size <= addr.Length
      modifies this`filepos, this`bufRead, this`savedFilepos, buf, addr
      ensures Valid() && savedFilepos <= filepos && Delivered(addr, start) && filepos == old(filepos) + amt
      ensures amt == if received > old(filepos) then Min(received - old(filepos), size) else 0
      ensures savedFilepos ==
                if received <= old(filepos) then received
                else if filepos - old(savedFilepos) > buf.Length / 2 then old(savedFilepos) + buf.Length / 2
                else old(savedFilepos)
    {
      hide InProtocol, Delivered;
      amt := 0;
      if bufRead + savedFilepos > filepos {
        amt := bufRead + savedFilepos - filepos;
        if amt > size {
          amt := size;
        }
        CopyWindow(addr, start, ret, amt);
        var length := buf.Length / 2;
        if filepos - savedFilepos > length {
          WindowFacts();
          SlideHalf(length);
        }
      } else {
        savedFilepos := savedFilepos + bufRead;
        bufRead := 0;
      }
    }

    /** What the protocol says about the window. */
    lemma WindowFacts()
      requires InProtocol()
      ensures Wired() && buf.Length == 2 * half && packetsize <= buf.Length
      ensures prevblock == 0 ==> received == 0
      ensures bufEof ==> received == |peer.file|
      ensures peer.session.Some? ==>
                Form().Sound() && received == Form().Bytes(prevblock) && received <= Span(MOST_BLOCKS, Form().blksize)
      ensures prevblock > 0 ==> peer.session.Some?
    {
      if peer.session.Some? {
        var b := peer.session.value.blksize;
        if prevblock < MOST_BLOCKS {
          ProductLess(prevblock, MOST_BLOCKS, b);
        }
      }
    }

    /** A fill that leaves the buffer empty without a failure is at the end of the file. */
    lemma EmptyFill()
      requires Valid() && bufRead == 0 && Complete()
      ensures received == |peer.file|
    {
      WindowFacts();
    }

    /** A complete fill has received its target. */
    lemma FilledUp(n: nat)
      requires InProtocol() && Buffered() && Complete() && peer.session.Some? && n <= prevblock
      requires prevblock > n ==> Span(prevblock, peer.session.value.blksize) <= received - bufRead + buf.Length
      ensures Form().Sound() && prevblock == Max(n, Form().Target(received - bufRead)) && prevblock >= 1
    {
      hide InStep, GoodSession, Shape.Target, Wired;
      WindowFacts();
      CompleteHasBlock();
      FilledToTarget(Form(), received - bufRead, n, prevblock, bufEof);
    }

    /** A backward seek: the running transfer is broken off and the file requested again. */
    method Reopen(ghost plan: Plan) returns (ok: bool)
      requires Valid()
      modifies this`retry, this`block, this`prevblock, this`bcounter, this`packetsize, this`bufEof, this`bufRead,
        this`savedFilepos, this`filemax, this`tpIsRequest, this`tpAck, this`received, peer, buf
      ensures Valid() && savedFilepos == 0 && old(peer.faults) <= peer.faults && (ok || old(peer.faults) < peer.faults)
      ensures prevblock == 0
      ensures old(bufEof && Served(plan)) ==>
                && ok && peer.faults == old(peer.faults) && Smooth(plan)
                && SizeOf(peer.session) == SizeIn(old(peer.script))
    {
      hide InProtocol, Buffered, Served, Trails;
      ghost var was := Now();
      bufRead := 0;
      was := Now();
      var _ := BufFill(true, plan);
      TrailsMeans(was, Now());
      ok := Ask(plan, []);
    }

    /** The window lies before `filepos`, in a transfer that has begun. */
    ghost predicate Direct()
      reads this`prevblock, this`savedFilepos, this`filepos, peer`session
    {
      peer.session.Some? && prevblock > 0 && savedFilepos <= filepos && Form().Sound()
    }

    /** The blocks it takes to read on up to `end`. */
    ghost function NeedTo(end: nat): nat
      requires Direct()
      reads this`prevblock, this`savedFilepos, this`filepos, peer`session
    {
      Need(Form(), savedFilepos, prevblock, filepos, end)
    }

    /** The blocks it takes to read up to `end` in a transfer that may not have begun. */
    ghost function TakesTo(end: nat): nat
      requires peer.session.Some? && Form().Sound() && savedFilepos <= filepos
      reads this`prevblock, this`savedFilepos, this`filepos, peer`session
    {
      if prevblock > 0 then NeedTo(end) else FirstNeed(Form(), filepos, end)
    }

    /** By the time a read has come to `end`, it will have taken `need` blocks of a transfer of shape `g`. */
    ghost predicate Takes(g: Shape, need: nat, end: nat)
      reads this`prevblock, this`savedFilepos, this`filepos, peer`session
    {
      && peer.session.Some? && Form() == g && g.Sound() && savedFilepos <= filepos
      && need == if filepos == end then prevblock else TakesTo(end)
    }

    /** `buf_fill (0)` and the sanity check behind it. */
    method Refill(ghost plan: Plan) returns (ok: bool)
      requires Valid()
      modifies this`retry, this`block, this`prevblock, this`bcounter, this`packetsize, this`bufEof, this`bufRead,
        this`filemax, this`tpIsRequest, this`tpAck, this`received, peer, buf
      ensures Valid() && old(peer.faults) <= peer.faults && bufRead <= received <= |peer.file|
      ensures ok ==> bufRead > 0
      ensures !ok ==> old(peer.faults) < peer.faults || received == |peer.file| == savedFilepos
      ensures ok && peer.faults == old(peer.faults) ==>
                && peer.session.Some? && Form().Sound() && prevblock >= 1
                && prevblock == Max(old(prevblock), Form().Target(savedFilepos))
                && (old(prevblock) > 0 ==> SameSize(old(peer.session)))
      ensures old(Smooth(plan) && Enough(plan)) ==>
                peer.faults == old(peer.faults) && Smooth(plan) && SameSize(old(peer.session))
      ensures old(Smooth(plan) && !Enough(plan)) && FallsSilent(plan.tail) ==> !ok
      ensures old(Abandoned()) ==> Abandoned() && !ok
    {
      hide InProtocol, Buffered, OnSchedule, Tells, Trails, Since, StrayOnlyLast, Shape.Target, Span, Wired;
      ghost var was := Now();
      WindowFacts();
      ok := BufFill(false, plan);
      Fitting();
      WindowFacts();
      TrailsMeans(was, Now());
      if ok {
        EndMeans(was);
        if Complete() {
          CompleteHasBlock();
          FilledUp(was.prevblock);
        }
      }
      if bufRead == 0 {
        if ok && Complete() {
          EmptyFill();
        }
        return false;
      }
    }

    /** One turn of the read loop: copy, and fill the window if that was not enough. */
    method ReadTurn(addr: array<Byte>, ghost start: nat, ret: nat, left: nat, ghost g: Shape, ghost need: nat,
                    ghost plan: Plan)
      returns (amt: nat, ok: bool)
      requires Valid() && savedFilepos <= filepos && left > 0 && addr != buf
      requires Delivered(addr, start) && ret == filepos - start && ret + left <= addr.Length
      modifies this`retry, this`block, this`prevblock, this`bcounter, this`packetsize, this`bufEof, this`bufRead,
        this`savedFilepos, this`filepos, this`filemax, this`tpIsRequest, this`tpAck, this`received, peer, buf, addr
      ensures Valid() && savedFilepos <= filepos && Delivered(addr, start) && filepos == old(filepos) + amt
      ensures amt <= left
      ensures received <= |peer.file| && (amt == left ==> filepos <= received)
      ensures old(peer.faults) <= peer.faults && (amt == left ==> ok)
      ensures !ok ==> old(peer.faults) < peer.faults || old(filepos) + left > |peer.file|
      ensures ok && amt == 0 ==> old(received) < received
      ensures ok && old(prevblock) > 0 && peer.faults == old(peer.faults) && old(Takes(g, need, filepos + left)) ==>
                prevblock > 0 && Takes(g, need, old(filepos) + left)
      ensures ok && old(prevblock) == 0 && peer.faults == old(peer.faults) ==>
                && amt == 0 && prevblock > 0 && peer.session.Some? && Form().Sound()
                && Takes(Form(), FirstNeed(Form(), filepos, filepos + left), filepos + left)
      ensures old(Smooth(plan) && Takes(g, need, filepos + left)) && old(filepos) + left <= |peer.file|
              && need <= plan.most ==>
                ok && peer.faults == old(peer.faults) && Smooth(plan) && Form() == g
      ensures ok && old(Smooth(plan) && Takes(g, need, filepos + left)) && FallsSilent(plan.tail) ==>
                peer.faults == old(peer.faults) && Smooth(plan) && Form() == g
      ensures old(Abandoned()) ==> Abandoned() && !ok && amt == 0
    {
      hide Valid, Delivered, Smooth, Shape.Target, Shape.Sound, Span, Takes, TakesTo, FirstNeed, Enough, Resumes;
      ghost var n, end := prevblock, filepos + left;
      WindowIsSound();
      amt := CopyTurn(addr, start, ret, left, g, need);
      if amt == left {
        return amt, true;
      }
      WindowIsSound();
      ghost var resumes := peer.session.Some? && Form() == g && Resumes(g, need, end, prevblock, savedFilepos);
      if resumes && need <= plan.most {
        ResumesEnough(g, need, end, plan);
      }
      ok := Refill(plan);
      WindowIsSound();
      if ok && peer.faults == old(peer.faults) {
        if n == 0 {
          TakesFirst(end);
        }
        if resumes && SameSize(old(peer.session)) {
          TakesAgain(g, need, end, n);
        }
      }
    }

    /** When a window from `from` on, with `n` blocks received, has been filled, a read up to `end` will take `need`
        blocks. */
    ghost predicate Resumes(g: Shape, need: nat, end: nat, n: nat, from: nat)
      reads this`filepos
    {
      && g.Sound() && from <= filepos < end && g.Target(from) <= need
      && need == Need(g, from, Max(n, g.Target(from)), filepos, end)
    }

    lemma ResumesEnough(g: Shape, need: nat, end: nat, plan: Plan)
      requires Resumes(g, need, end, prevblock, savedFilepos) && need <= plan.most
      requires peer.session.Some? && Form() == g && savedFilepos + bufRead == received
      ensures Enough(plan)
    {
      hide Shape.Target, Shape.Sound, Need;
    }

    lemma TakesFirst(end: nat)
      requires peer.session.Some? && Form().Sound() && savedFilepos == 0 && prevblock == Form().Target(0) > 0
      requires filepos < end
      ensures Takes(Form(), FirstNeed(Form(), filepos, end), end)
    {
      hide Need, Shape.Target;
    }

    lemma TakesAgain(g: Shape, need: nat, end: nat, n: nat)
      requires Resumes(g, need, end, n, savedFilepos) && peer.session.Some? && Form() == g
      requires prevblock == Max(n, g.Target(savedFilepos)) && prevblock > 0
      ensures Takes(g, need, end)
    {
      hide Need, Shape.Target;
    }

    /** The copying half of a turn leaves what is needed unchanged. */
    method CopyTurn(addr: array<Byte>, ghost start: nat, ret: nat, left: nat, ghost g: Shape, ghost need: nat)
      returns (amt: nat)
      requires Valid() && savedFilepos <= filepos && left > 0 && addr != buf
      requires Delivered(addr, start) && ret == filepos - start && ret + left <= addr.Length
      modifies this`filepos, this`bufRead, this`savedFilepos, buf, addr
      ensures Valid() && savedFilepos <= filepos && Delivered(addr, start) && filepos == old(filepos) + amt
      ensures amt == if received > old(filepos) then Min(received - old(filepos), left) else 0
      ensures received <= old(filepos) ==> savedFilepos == received
      ensures old(Takes(g, need, filepos + left)) && (received > old(filepos) || received < |peer.file|) ==>
                && peer.session.Some? && Form() == g
                && if amt == left then prevblock > 0 ==> Takes(g, need, filepos)
                   else Resumes(g, need, old(filepos) + left, prevblock, savedFilepos)
    {
      hide Valid, Delivered, Shape.Target, Shape.Sound, Span, Takes, Shape.Bytes, Need, FirstNeed, Resumes;
      ghost var takes, n, from, pos, end := Takes(g, need, filepos + left), prevblock, savedFilepos, filepos,
        filepos + left;
      WindowIsSound();
      if takes {
        TakesMeans(g, need, end);
      }
      amt := Consume(addr, start, ret, left);
      if takes && (received > pos || received < |peer.file|) {
        TakesMoved(g, need, from, pos, end);
      }
    }

    lemma TakesMoved(g: Shape, need: nat, from: nat, pos: nat, end: nat)
      requires peer.session.Some? && Form() == g && g.Sound() && from <= pos < end && received == g.Bytes(prevblock)
      requires prevblock == 0 ==> from == received == 0
      requires need == if prevblock > 0 then Need(g, from, prevblock, pos, end) else FirstNeed(g, pos, end)
      requires received > pos || received < g.length
      requires filepos == pos + if received > pos then Min(received - pos, end - pos) else 0
      requires savedFilepos == if received <= pos then received
                               else if filepos - from > g.buffer / 2 then from + g.buffer / 2 else from
      ensures if filepos == end then prevblock > 0 ==> Takes(g, need, filepos)
              else Resumes(g, need, end, prevblock, savedFilepos)
    {
      hide Shape.Target, Need, Shape.Bytes;
      assert Moves(g, from, prevblock, pos, end, savedFilepos, filepos);
      NeedOn(g, from, prevblock, pos, end, savedFilepos, filepos);
    }

    /** What a read takes, told by the window. */
    lemma TakesMeans(g: Shape, need: nat, end: nat)
      requires Takes(g, need, end) && filepos < end
      ensures peer.session.Some? && Form() == g && g.Sound() && savedFilepos <= filepos
      ensures prevblock > 0 ==> need == Need(g, savedFilepos, prevblock, filepos, end)
      ensures prevblock == 0 ==> need == FirstNeed(g, filepos, end) && g.Target(0) <= need
    {
      hide Need, Shape.Target;
    }

    lemma Fitting()
      requires Buffered()
      ensures bufRead <= buf.Length && bufRead <= received <= |peer.file|
    {
    }

    lemma TrailsMeans(p: Tally, q: Tally)
      requires Trails(p, q)
      ensures q.base == p.base && p.prevblock <= q.prevblock && p.faults <= q.faults && q.left <= p.left
      ensures p.lost ==> q.lost
    {
    }

    lemma EndMeans(was: Tally)
      requires FillEnded(was)
      ensures Trails(was, Now()) && (Complete() || was.faults < peer.faults)
      ensures was.prevblock > 0 ==> Now().blksize == was.blksize
      ensures prevblock > was.prevblock ==> Span(prevblock, Now().blksize) <= received - bufRead + buf.Length
    {
      hide StrayOnlyLast, NoData, Told;
    }

    /** The read begins a transfer, after a backward seek or because no block has come yet. */
    ghost predicate Anew()
      reads this`prevblock, this`savedFilepos, this`filepos
    {
      filepos < savedFilepos || prevblock == 0
    }

    /** A backward seek from the end of the file, to a server that serves it again, and a read up to `end` that gets
        by with the blocks there are. */
    ghost predicate ServedAgain(end: nat, plan: Plan)
      reads this`bufEof, this`savedFilepos, this`filepos, peer`script
    {
      filepos < savedFilepos && bufEof && Served(plan) &&
      var g := Shape(buf.Length, SizeIn(peer.script), |peer.file|);
      g.Sound() && FirstNeed(g, filepos, end) <= plan.most
    }

    /** `tftp_read`: either exactly the bytes of the file at `filepos`, or an error. An error is only
        reported when the network has failed during this call or when the request reaches beyond the end of the
        file; what was copied before it are still bytes of the file. Nothing beyond 65535 blocks is ever
        delivered; and without a failure a read succeeds if and only if the window gets by with 65535 blocks, from
        where it is or, behind a backward seek, from the beginning of the file: only then, and also then if the
        network is on schedule. */
    method Read(addr: array<Byte>, size: int, ghost plan: Plan) returns (ret: int)
      requires Valid() && addr != buf && size <= addr.Length
      modifies this, peer, buf, addr
      ensures Valid()
      ensures ret > 0 ==> ret == size == filepos - old(filepos) && filepos <= |peer.file|
      ensures ret > 0 ==> addr[..size] == peer.file[old(filepos)..filepos] && errnum == old(errnum)
      ensures ret > 0 ==> peer.session.Some? && filepos <= Span(MOST_BLOCKS, peer.session.value.blksize)
      ensures ret <= 0 ==> ret == 0
      ensures ret == 0 && size > 0 ==> errnum.ErrRead? || errnum.ErrWrite?
      ensures ret == 0 && size > 0 ==> old(peer.faults) < peer.faults || old(filepos) + size > |peer.file|
      ensures ret > 0 && old(Direct()) && peer.faults == old(peer.faults) ==> old(NeedTo(filepos + size)) <= MOST_BLOCKS
      ensures ret > 0 && old(Anew()) && peer.faults == old(peer.faults) ==>
                Form().Sound() && FirstNeed(Form(), old(filepos), old(filepos) + size) <= MOST_BLOCKS
      ensures old(peer.faults) <= peer.faults
      ensures old(filepos) <= filepos && Delivered(addr, old(filepos))
      ensures size > 0 && old(Direct() && Smooth(plan)) && old(filepos) + size <= |peer.file|
              && old(NeedTo(filepos + size)) <= plan.most ==>
                ret > 0 && peer.faults == old(peer.faults) && Smooth(plan)
      ensures ret > 0 && old(Direct() && Smooth(plan)) && FallsSilent(plan.tail) ==>
                old(NeedTo(filepos + size)) <= plan.most
      ensures size > 0 && old(filepos) + size <= |peer.file| && old(ServedAgain(filepos + size, plan)) ==>
                ret > 0 && peer.faults == old(peer.faults) && Smooth(plan)
      ensures old(Abandoned()) ==> Abandoned() && ret == 0
    {
      hide InProtocol, Buffered, Delivered, OnSchedule, Need, Span, Served, Wired;
      WindowFacts();
      if filepos < savedFilepos {
        NothingDelivered(addr);
        var ok := Reopen(plan);
        if !ok {
          errnum := ErrWrite;
          return 0;
        }
      }
      WindowFacts();
      ret := ReadOn(addr, size, plan);
    }

    /** The loop of `tftp_read`, with the window before `filepos`. */
    method ReadOn(addr: array<Byte>, size: int, ghost plan: Plan) returns (ret: int)
      requires Valid() && savedFilepos <= filepos && addr != buf && size <= addr.Length
      modifies this, peer, buf, addr
      ensures Valid()
      ensures ret > 0 ==> ret == size == filepos - old(filepos) && filepos <= |peer.file|
      ensures ret > 0 ==> addr[..size] == peer.file[old(filepos)..filepos] && errnum == old(errnum)
      ensures ret > 0 ==> peer.session.Some? && filepos <= Span(MOST_BLOCKS, peer.session.value.blksize)
      ensures ret <= 0 ==> ret == 0
      ensures ret == 0 && size > 0 ==>
                errnum.ErrRead? && (old(peer.faults) < peer.faults || old(filepos) + size > |peer.file|)
      ensures ret > 0 && old(Direct()) && peer.faults == old(peer.faults) ==> old(NeedTo(filepos + size)) <= MOST_BLOCKS
      ensures ret > 0 && old(prevblock) == 0 && peer.faults == old(peer.faults) ==>
                Form().Sound() && FirstNeed(Form(), old(filepos), old(filepos) + size) <= MOST_BLOCKS
      ensures old(peer.faults) <= peer.faults
      ensures old(filepos) <= filepos && Delivered(addr, old(filepos))
      ensures size > 0 && old(Smooth(plan)) && old(filepos) + size <= |peer.file|
              && old(Form().Sound() && TakesTo(filepos + size) <= plan.most) ==>
                ret > 0 && peer.faults == old(peer.faults) && Smooth(plan)
      ensures ret > 0 && old(Smooth(plan) && Form().Sound()) && FallsSilent(plan.tail) ==>
                old(TakesTo(filepos + size)) <= plan.most
      ensures old(Abandoned()) ==> Abandoned() && ret == 0
    {
      hide Valid, Delivered, Smooth, Need, FirstNeed, Shape.Sound, Span, Takes, TakesTo, NeedTo, Direct;
      ghost var start, end, lost, anew := filepos, filepos + size, Abandoned(), prevblock == 0;
      WindowIsSound();
      SmoothMeans(plan);
      ghost var smooth := peer.session.Some? && 0 < size && end <= |peer.file| && Smooth(plan)
        && TakesTo(end) <= plan.most;
      ghost var silent := peer.session.Some? && 0 < size && Smooth(plan) && FallsSilent(plan.tail);
      ghost var g := if peer.session.Some? then Form() else Shape(0, 0, 0);
      ghost var need: nat := if size > 0 && peer.session.Some? then TakesTo(end) else 0;
      if size > 0 && peer.session.Some? {
        TakesBegins(end);
      }
      ret := 0;
      NothingDelivered(addr);
      var left := size;
      while left > 0
        invariant Valid() && savedFilepos <= filepos && Delivered(addr, start)
        invariant ret == filepos - start && (if size > 0 then 0 <= left == size - ret else left == size && ret == 0)
        invariant errnum == old(errnum) && old(peer.faults) <= peer.faults && received <= |peer.file|
        invariant ret > 0 && left == 0 ==> filepos <= received
        invariant prevblock == 0 && peer.faults == old(peer.faults) ==> ret == 0 && anew
        invariant size > 0 && peer.faults == old(peer.faults) && (smooth || silent || prevblock > 0) ==>
                    Takes(g, need, end) && (anew ==> g.Sound() && need == FirstNeed(g, start, end))
        invariant size > 0 && !anew ==> need == old(TakesTo(filepos + size))
        invariant smooth ==> peer.faults == old(peer.faults) && Smooth(plan) && need <= plan.most
        invariant silent ==> peer.faults == old(peer.faults) && Smooth(plan) && need == old(TakesTo(filepos + size))
        invariant lost ==> Abandoned() && left == size
        decreases left, |peer.file| - received
      {
        ghost var begins := prevblock == 0;
        var amt, ok := ReadTurn(addr, start, ret, left, g, need, plan);
        left := left - amt;
        ret := ret + amt;
        if !ok {
          errnum := ErrRead;
          return 0;
        }
        if begins && peer.faults == old(peer.faults) {
          g, need := Form(), FirstNeed(Form(), start, end);
        }
      }
      if ret > 0 {
        WindowIsSound();
        DeliveredAll(addr, start);
        TakesEnds(g, need);
        if silent {
          WithinPlan(plan);
        }
      }
    }

    lemma SmoothMeans(plan: Plan)
      ensures (Smooth(plan) ==> peer.session.Some?) && (Direct() ==> peer.session.Some? && prevblock > 0)
    {
    }

    lemma WindowIsSound()
      requires Valid()
      ensures received <= |peer.file| && prevblock <= MOST_BLOCKS && (prevblock == 0 ==> received == 0)
      ensures prevblock > 0 ==> peer.session.Some?
      ensures peer.session.Some? ==>
                && Form().Sound() && received <= Span(MOST_BLOCKS, Form().blksize)
                && received == Form().Bytes(prevblock)
      ensures savedFilepos + bufRead == received
    {
      hide InProtocol, Buffered;
      WindowFacts();
      Fitting();
      EnoughBlocks();
    }

    lemma TakesBegins(end: nat)
      requires peer.session.Some? && Form().Sound() && savedFilepos <= filepos < end
      ensures Takes(Form(), TakesTo(end), end)
      ensures prevblock == 0 ==> TakesTo(end) == FirstNeed(Form(), filepos, end)
      ensures Direct() ==> TakesTo(end) == NeedTo(end)
    {
      hide FirstNeed, Need;
    }

    lemma TakesEnds(g: Shape, need: nat)
      ensures Takes(g, need, filepos) ==> peer.session.Some? && Form() == g && g.Sound() && need == prevblock
    {
    }

    lemma NothingDelivered(addr: array<Byte>)
      ensures Delivered(addr, filepos)
    {
    }

    lemma DeliveredAll(addr: array<Byte>, start: nat)
      requires Delivered(addr, start) && start < filepos
      ensures filepos - start <= addr.Length && filepos <= |peer.file|
      ensures addr[..filepos - start] == peer.file[start..filepos]
    {
    }

    lemma EnoughBlocks()
      requires InProtocol()
      ensures prevblock <= MOST_BLOCKS && (prevblock == 0 ==> received == 0)
    {
      Counters();
    }

    // ----- opening

    /** Forgets the contents of the buffer. */
    method Discard()
      requires Streaming()
      modifies this`bufRead
      ensures Streaming() && bufRead == 0
    {
      hide InTransfer;
      bufRead := 0;
    }

    /** What has been measured so far, when `log` is what has been seen since `n` blocks had been accepted. */
    ghost predicate Measured(n: nat, log: seq<Reply>)
      reads this`prevblock, this`filemax, this`bufRead, this`received
    {
      && (prevblock == 0 <==> n == 0 && NoData(log))
      && filemax + bufRead == received + if n == 0 && Told(log) then |peer.file| else 0
    }

    /** Before the first block the client agrees to what it is offered, and is lost if a silence follows; `agreed`
        if it had done so before `log`. */
    ghost predicate Follows(n: nat, log: seq<Reply>, agreed: bool)
      reads this`prevblock, this`tpIsRequest, peer`session
    {
      && (prevblock == 0 ==> (!tpIsRequest <==> agreed || Agrees(log)))
      && (n == 0 && Stranded(log, agreed) ==> Abandoned())
    }

    /** Another fill, of a window that has been emptied, goes into the measure. */
    lemma MeasuredOn(n: nat, log: seq<Reply>, was: Tally, agreed: bool)
      requires FillEnded(was)
      requires was.prevblock == 0 <==> n == 0 && NoData(log)
      requires was.filemax == was.base + if n == 0 && Told(log) then |peer.file| else 0
      requires was.prevblock == 0 ==> was.base == 0
      requires was.prevblock == 0 ==> (was.agreed <==> agreed || Agrees(log))
      requires n == 0 && Stranded(log, agreed) ==> was.lost
      ensures peer.seen == was.seen + Since(was, Now()) && Measured(n, log + Since(was, Now()))
      ensures Follows(n, log + Since(was, Now()), agreed)
    {
      var more := Since(was, Now());
      ToldConcat(log, more);
      NoDataConcat(log, more);
      AgreesConcat(log, more);
      StrandedConcat(log, more, agreed);
      assert peer.seen == was.seen + more;
      hide Told, NoData, StrayOnlyLast, Agrees, Stranded;
    }

    lemma AtTheEnd()
      requires InProtocol() && bufEof
      ensures received == |peer.file| < Span(MOST_BLOCKS, SizeOf(peer.session)) && prevblock >= 1
    {
      hide InStep;
      WindowFacts();
      var b := peer.session.value.blksize;
      if prevblock < MOST_BLOCKS {
        ProductLess(prevblock, MOST_BLOCKS, b);
      }
    }

    /** A file of less than one block, whose size is to be told. */
    ghost predicate Tiny(plan: Plan)
      reads this`prevblock, this`filemax, this`received, this`bufRead, this`tpIsRequest, peer`session, peer`script,
        peer`silences
    {
      && Smooth(plan) && prevblock == received == bufRead == 0 && AwaitsOack(peer.session.value)
      && |peer.file| < peer.session.value.blksize <= buf.Length
    }

    lemma TinyIsEnough(plan: Plan)
      requires Tiny(plan)
      ensures Enough(plan) && Form().Last() == 1 == Form().Target(0)
    {
      Quotient(|peer.file|, Form().blksize, 1);
      Quotient(buf.Length, Form().blksize, 1);
    }

    /** It has been received, and the size has been told. */
    lemma TinyIsRead(plan: Plan)
      requires Streaming() && Smooth(plan) && Complete() && bufRead == received && peer.session.value.oack.Some?
      requires |peer.file| < peer.session.value.blksize <= buf.Length
      ensures bufEof && received == |peer.file| == filemax && peer.script == plan.tail
    {
      hide OnSchedule, InStep, GoodSession;
      var b := peer.session.value.blksize;
      CompleteHasBlock();
      ProductAtLeast(prevblock, b);
      assert bufEof;
      if prevblock >= 2 {
        ProductAtLeast(prevblock - 1, b);
      }
      Quotient(|peer.file|, b, 1);
      WithinPlan(plan);
      ScheduleEnds(peer.file, peer.session, peer.script, prevblock, peer.silences, plan);
    }

    /** One turn of the loop that measures a file: a size that is told only now is counted on top. */
    method CountTurn(ghost n: nat, ghost log: seq<Reply>, ghost agreed: bool, ghost plan: Plan)
      returns (ok: bool, ghost more: seq<Reply>)
      requires Streaming() && Measured(n, log) && Follows(n, log, agreed)
      modifies this`retry, this`block, this`prevblock, this`bcounter, this`packetsize, this`bufEof, this`bufRead,
        this`filemax, this`tpIsRequest, this`tpAck, this`received, peer, buf
      ensures Streaming() && received <= |peer.file|
      ensures peer.seen == old(peer.seen) + more && peer.asked == old(peer.asked)
      ensures old(peer.faults) <= peer.faults && (!ok ==> old(peer.faults) < peer.faults)
      ensures ok ==> Measured(n, log + more) && Follows(n, log + more, agreed)
      ensures ok ==> old(received) <= received && |peer.script| <= old(|peer.script|)
      ensures ok && !bufEof ==> old(received) < received || |peer.script| < old(|peer.script|)
      ensures ok && bufEof ==> received == |peer.file| < Span(MOST_BLOCKS, SizeOf(peer.session)) && prevblock >= 1
      ensures old(Tiny(plan) && filemax == 0) ==>
                ok && bufEof && peer.script == plan.tail && filemax == bufRead == |peer.file|
      ensures NoStrays(old(peer.script)) ==> NoStrays(peer.script)
      ensures old(Abandoned()) ==> Abandoned()
    {
      hide InTransfer, Buffered, Told, NoData, OnSchedule, Tells, Trails, Since, StrayOnlyLast, Span, Enough, Wired,
        Agrees, Stranded, NoStrays;
      ghost var tiny := Tiny(plan) && filemax == 0;
      Fitting();
      WindowFacts();
      filemax := filemax + bufRead;
      Discard();
      ghost var was := Now();
      if tiny {
        TinyIsEnough(plan);
      }
      ok := BufFill(false, plan);
      Fitting();
      WindowFacts();
      TrailsSeen(was, Now());
      more := peer.seen[|was.seen|..];
      if !ok {
        return;
      }
      EndMeans(was);
      MeasuredOn(n, log, was, agreed);
      assert Since(was, Now()) == more;
      if tiny {
        TinyIsRead(plan);
      }
      if bufEof {
        AtTheEnd();
      }
    }

    /** The do-while loop of `tftp_dir` that measures a file whose size the server did not tell. */
    method CountSize(ghost plan: Plan) returns (ok: bool, ghost log: seq<Reply>)
      requires Streaming() && received == bufRead
      modifies this`retry, this`block, this`prevblock, this`bcounter, this`packetsize, this`bufEof, this`bufRead,
        this`filemax, this`tpIsRequest, this`tpAck, this`received, peer, buf
      ensures Wired() && peer.seen == old(peer.seen) + log && peer.asked == old(peer.asked)
      ensures old(peer.faults) <= peer.faults && (!ok ==> old(peer.faults) < peer.faults)
      ensures ok ==> filemax == |peer.file| + (if old(prevblock) == 0 && Told(log) then |peer.file| else 0)
      ensures ok ==> |peer.file| < Span(MOST_BLOCKS, SizeOf(peer.session))
      ensures ok ==> !old(Abandoned()) && !(old(prevblock) == 0 && Stranded(log, old(!tpIsRequest)))
      ensures old(Tiny(plan)) ==> ok && peer.script == plan.tail && filemax == 2 * |peer.file|
      ensures NoStrays(old(peer.script)) ==> NoStrays(peer.script)
    {
      hide InTransfer, Buffered, Told, NoData, OnSchedule, Span, Agrees, Stranded, NoStrays;
      ghost var n, agreed, tiny := prevblock, !tpIsRequest, Tiny(plan);
      log := [];
      NothingTold();
      NothingStranded(agreed);
      WindowFacts();
      Fitting();
      filemax := 0;
      while true
        invariant Streaming() && received <= |peer.file| && old(peer.faults) <= peer.faults
        invariant peer.seen == old(peer.seen) + log && peer.asked == old(peer.asked)
        invariant Measured(n, log) && Follows(n, log, agreed) && (old(Abandoned()) ==> Abandoned())
        invariant tiny ==> Tiny(plan) && filemax == 0
        invariant NoStrays(old(peer.script)) ==> NoStrays(peer.script)
        decreases |peer.file| - received, |peer.script|
      {
        ghost var more;
        ok, more := CountTurn(n, log, agreed, plan);
        log := log + more;
        WindowFacts();
        if !ok {
          return;
        }
        if bufEof {
          break;
        }
      }
      filemax := filemax + bufRead;
    }

    lemma NothingTold()
      ensures NoData([]) && !Told([])
    {
    }

    lemma TrailsSeen(p: Tally, q: Tally)
      requires Trails(p, q)
      ensures p.seen <= q.seen && p.faults <= q.faults && q.base == p.base && q.left <= p.left && q.asked == p.asked
      ensures p.lost ==> q.lost
    {
    }

    /** What is known when a file has been opened; `log` is what has been seen since. */
    ghost predicate Opened(log: seq<Reply>, known: int)
      reads this`prevblock, this`filemax, this`tpIsRequest, peer`session
    {
      && Follows(0, log, false)
      && filemax == (if Told(log) then |peer.file| else known)
      && (prevblock == 0 <==> NoData(log)) && StrayOnlyLast(log)
      && (NoData(log) ==> log != [] && IsStray(log[|log| - 1]))
    }

    lemma OpenedBy(was: Tally)
      requires FillEnded(was) && was.prevblock == 0 && !was.agreed
      ensures peer.seen == was.seen + Since(was, Now()) && Opened(Since(was, Now()), was.filemax)
    {
      hide Told, NoData, StrayOnlyLast, Agrees, Stranded;
    }

    /** The network will serve the whole file, on schedule. */
    ghost predicate Served(plan: Plan)
      reads peer`script
    {
      OffersTransfer(peer.file, peer.script, plan)
    }

    ghost function Recorded(): Record
      reads peer
    {
      Record(peer.seen, peer.asked, SizeOf(peer.session))
    }

    /** A request, and what has been seen behind it. */
    ghost predicate Logged(was: Record, log: seq<Reply>, now: Record) {
      now.seen == was.seen + log && now.asked == was.asked + [Asking(|was.seen|, was.blksize)]
    }

    /** Only what has been seen is new. */
    ghost predicate Watched(was: Record, log: seq<Reply>, now: Record) {
      now.seen == was.seen + log && now.asked == was.asked
    }

    lemma LoggedBehind(was: Record, mid: Record, log: seq<Reply>, now: Record)
      requires Logged(was, [], mid) && Watched(mid, log, now)
      ensures Logged(was, log, now)
    {
      assert was.seen + [] == was.seen;
    }

    /** `send_rrq` with a new request. */
    method Ask(ghost plan: Plan, ghost rest: seq<Choice>) returns (sent: bool)
      requires Wired()
      modifies this`retry, this`block, this`prevblock, this`packetsize, this`bcounter, this`bufEof, this`bufRead,
        this`savedFilepos, this`received, this`tpIsRequest, peer`script, peer`session, peer`faults, peer`silences,
        peer`asked
      ensures Valid() && savedFilepos == bufRead == received == prevblock == 0 && !Complete() && tpIsRequest
      ensures peer.faults == old(peer.faults) + (if sent then 0 else 1) && peer.silences == 0
      ensures Logged(old(Recorded()), [], Recorded())
      ensures old(Served(plan)) ==>
                && sent && Smooth(plan) && SizeOf(peer.session) == SizeIn(old(peer.script))
                && HasOptions(peer.session) == OptionsIn(old(peer.script))
      ensures NoHope(peer.file, old(peer.script), plan) ==> sent && Lost(plan) && plan.most == 0
      ensures old(Disturbed(rest)) ==> sent && Astray(rest)
      ensures NoStrays(old(peer.script)) ==> NoStrays(peer.script)
    {
      hide InTransfer, SmoothAt, OffersTransfer, NoStrays, NoHope, Disturbs, Hopeless, Astray, HasServed, ServesNext,
        SizeIn, OptionsIn, HasOptions;
      ghost var script, served, hopeless, disturbed := peer.script, Served(plan), NoHope(peer.file, peer.script, plan),
        Disturbed(rest);
      WillBeServed(script, plan, rest);
      tpIsRequest := true;
      sent := SendRrq();
      WindowFacts();
      if served {
        SmoothBegins(script, plan);
      }
      if disturbed {
        DisturbedBegins(script, rest);
      }
      if hopeless {
        WillBeLost(script, plan);
      }
    }

    lemma WillBeServed(script: seq<Choice>, plan: Plan, rest: seq<Choice>)
      ensures OffersTransfer(peer.file, script, plan) ==> ServesNext(peer.file, script)
      ensures Disturbs(peer.file, script, rest) ==> ServesNext(peer.file, script)
      ensures NoHope(peer.file, script, plan) ==> ServesNext(peer.file, script)
      ensures NoHope(peer.file, script, plan) ==> plan.most == 0
    {
      FullOackIsGood(peer.file, DEFAULT_PACKET);
      if OffersTransfer(peer.file, script, plan) {
        ScheduleBegins(peer.file, script[0].blksize, script[0].oack.Some?, script, plan);
      }
      hide Transfer, Stranding, Unheard, Conforming;
    }

    lemma SmoothBegins(script: seq<Choice>, plan: Plan)
      requires OffersTransfer(peer.file, script, plan) && HasServed(script)
      requires prevblock == peer.silences == 0 && tpIsRequest
      ensures Smooth(plan) && SizeOf(peer.session) == SizeIn(script) && HasOptions(peer.session) == OptionsIn(script)
    {
      ScheduleBegins(peer.file, script[0].blksize, script[0].oack.Some?, script, plan);
      hide Transfer, OnSchedule, Conforming;
    }

    lemma SizeIsKnown(plan: Plan)
      requires Smooth(plan) && prevblock >= 1 && peer.session.value.oack.Some?
      ensures filemax == |peer.file|
    {
    }

    ghost predicate Disturbed(rest: seq<Choice>)
      reads peer`script
    {
      Disturbs(peer.file, peer.script, rest)
    }

    lemma DisturbedBegins(script: seq<Choice>, rest: seq<Choice>)
      requires Disturbs(peer.file, script, rest) && HasServed(script) && peer.silences == 0
      ensures Astray(rest)
    {
      assert script[1..] == [DeliverOther] + rest;
    }

    /** The request has been served with options, and a stray packet comes before their acknowledgement. */
    ghost predicate Astray(rest: seq<Choice>)
      reads peer`script, peer`session, peer`silences
    {
      && StrayNext() && peer.script[1..] == rest && peer.silences == 0
      && peer.session == Some(Answer(Serving(peer.file, DEFAULT_PACKET, true)))
    }

    /** It has come. */
    ghost predicate Misfilled(rest: seq<Choice>, known: int)
      reads this`prevblock, this`filemax, this`tpIsRequest, peer`script, peer`session, peer`silences
    {
      && peer.script == rest && prevblock == 0 && filemax == known && tpIsRequest && peer.silences == 0
      && peer.session == Some(Answer(Serving(peer.file, DEFAULT_PACKET, true)))
    }

    /** The network will leave the client alone before the first fill is complete. */
    ghost predicate WillFail(plan: Plan)
      reads peer`script
    {
      NoHope(peer.file, peer.script, plan) || (Served(plan) && !CanFill(plan) && FallsSilent(plan.tail))
    }

    lemma WillBeLost(script: seq<Choice>, plan: Plan)
      requires NoHope(peer.file, script, plan) && HasServed(script)
      requires tpIsRequest && prevblock == peer.silences == 0
      ensures Lost(plan)
    {
      NoHopeBegins(peer.file, script, plan);
    }

    /** The first fill behind a request. */
    method FirstFill(ghost plan: Plan, ghost rest: seq<Choice>) returns (ok: bool, ghost log: seq<Reply>)
      requires Valid() && savedFilepos == bufRead == received == prevblock == 0 && !Complete() && tpIsRequest
      modifies this`retry, this`block, this`prevblock, this`packetsize, this`bcounter, this`bufEof, this`bufRead,
        this`received, this`filemax, this`tpIsRequest, this`tpAck, peer, buf
      ensures Wired() && Watched(old(Recorded()), log, Recorded())
      ensures old(peer.faults) <= peer.faults && (!ok ==> old(peer.faults) < peer.faults)
      ensures ok ==> Valid() && received == bufRead && Opened(log, old(filemax))
      ensures ok && peer.faults == old(peer.faults) ==> Filled()
      ensures NoStrays(old(peer.script)) ==> NoStrays(peer.script) && (ok ==> prevblock >= 1)
      ensures old(peer.session.Some? && Smooth(plan) && Enough(plan)) ==>
                && ok && peer.faults == old(peer.faults) && Smooth(plan) && SameSize(old(peer.session))
                && filemax == (if HasOptions(old(peer.session)) then |peer.file| else old(filemax))
      ensures old(Astray(rest)) ==> ok && Misfilled(rest, old(filemax))
      ensures old(Smooth(plan) && !Enough(plan)) && FallsSilent(plan.tail) ==> !ok
      ensures old(Lost(plan)) && plan.most == 0 ==> !ok
    {
      hide InTransfer, Buffered, OnSchedule, Tells, Trails, Since, Told, NoData, StrayOnlyLast, Span, Shape.Target,
        Shape.Sound, Wired, NoStrays, Lost, Agrees, Stranded, Enough, Opened, FallsSilent;
      ghost var was, smooth := Now(), peer.session.Some? && Smooth(plan) && Enough(plan);
      ok := BufFill(false, plan);
      Fitting();
      TrailsSeen(was, Now());
      log := peer.seen[|was.seen|..];
      if ok {
        OpenedBy(was);
        assert Since(was, Now()) == log;
        EndMeans(was);
        if Complete() {
          CompleteHasBlock();
          WindowFacts();
          FilledUp(0);
        }
        if smooth && peer.session.value.oack.Some? {
          SizeIsKnown(plan);
        }
      }
    }

    /** A request for the file, and the first fill. */
    method Open(ghost plan: Plan, ghost rest: seq<Choice>) returns (sent: bool, ok: bool, ghost log: seq<Reply>)
      requires Wired()
      modifies this`retry, this`block, this`prevblock, this`packetsize, this`bcounter, this`bufEof, this`bufRead,
        this`savedFilepos, this`received, this`filemax, this`tpIsRequest, this`tpAck, peer, buf
      ensures Wired() && Logged(old(Recorded()), log, Recorded())
      ensures old(peer.faults) <= peer.faults && (!(sent && ok) ==> old(peer.faults) < peer.faults)
      ensures sent && ok ==> Valid() && savedFilepos == 0 && received == bufRead && Opened(log, old(filemax))
      ensures sent && ok && peer.faults == old(peer.faults) ==> Filled()
      ensures NoStrays(old(peer.script)) ==> NoStrays(peer.script) && (sent && ok ==> prevblock >= 1)
      ensures old(Served(plan) && CanFill(plan)) ==>
                && sent && ok && peer.faults == old(peer.faults)
                && Smooth(plan) && SizeOf(peer.session) == SizeIn(old(peer.script))
                && filemax == (if OptionsIn(old(peer.script)) then |peer.file| else old(filemax))
      ensures old(Disturbed(rest)) ==> sent && ok && Misfilled(rest, old(filemax))
      ensures old(WillFail(plan)) ==> sent && !ok
    {
      hide Valid, Smooth, OffersTransfer, Disturbs, SizeIn, OptionsIn, HasOptions, FillTakes, Wired, NoStrays, NoHope,
        Lost, Opened, Filled, Astray, Misfilled, FallsSilent, Logged, Watched, Recorded;
      ghost var served, was := Served(plan), Recorded();
      sent := Ask(plan, rest);
      ghost var mid := Recorded();
      log := [];
      if !sent {
        ValidMeans();
        return sent, false, log;
      }
      if served {
        SmoothMeans(plan);
      }
      ok, log := FirstFill(plan, rest);
      LoggedBehind(was, mid, log, Recorded());
    }

    lemma ValidMeans()
      requires Valid()
      ensures Wired()
    {
      hide Buffered;
      WindowFacts();
    }

    /** The first fill has received its target. */
    ghost predicate Filled()
      reads this`prevblock, peer`session
    {
      prevblock >= 1 && peer.session.Some? && Form().Sound() && prevblock == Form().Target(0)
    }

    /** The first fill is within the blocks that can be had. */
    ghost predicate CanFill(plan: Plan)
      reads peer`script
    {
      FillTakes(SizeIn(peer.script), 0) <= plan.most
    }

    /** The network will serve the whole file, with or without options, and the first fill is possible. */
    ghost predicate Offered(plan: Plan, oack: bool)
      reads peer`script
    {
      Served(plan) && CanFill(plan) && OptionsIn(peer.script) == oack
    }

    lemma MisleadingBegins()
      requires peer.script == Misleading(peer.file)
      ensures Disturbed(BehindStray(peer.file))
    {
    }

    lemma MisleadingGoesOn()
      requires |peer.file| < DEFAULT_PACKET && InProtocol() && prevblock == 0 && bufRead == received
      requires Misfilled(BehindStray(peer.file), filemax)
      ensures Tiny(Prompt(Again(peer.file)))
    {
      WindowFacts();
      assert Never()(0) == 0;
      hide Again, Blocks;
    }

    lemma MisleadingEnds()
      requires |peer.file| < DEFAULT_PACKET && Wired() && peer.script == Again(peer.file)
      ensures Offered(Prompt([]), false)
    {
      hide Blocks, Retries;
    }

    /** The size `tftp_dir` comes to, by what has been seen until the file is requested again and behind that. */
    ghost function SizeBy(first: seq<Reply>, second: seq<Reply>): nat {
      if Late(first) && !Told(second) then 2 * |peer.file| else |peer.file|
    }

    ghost predicate Misled()
      reads peer`script
    {
      |peer.file| < DEFAULT_PACKET && peer.script == Misleading(peer.file)
    }

    /** From the label `reopen` on: opens the file, and measures it if its size is not known; `done` unless it
        has to be opened once more behind that. */
    method Attempt(ghost plan: Plan) returns (ok: bool, done: bool, ghost log: seq<Reply>)
      requires Wired()
      modifies this, peer, buf
      ensures Wired()
      ensures Logged(old(Recorded()), log, Recorded())
      ensures old(peer.faults) <= peer.faults && (!ok ==> old(peer.faults) < peer.faults)
      ensures if ok then errnum == old(errnum) else errnum in {ErrWrite, ErrRead, ErrFileNotFound}
      ensures ok && done ==>
                && Valid() && savedFilepos == 0 && !Late(log)
                && filemax == (if Told(log) then |peer.file| else old(filemax))
                && (Stranded(log, false) ==> Abandoned())
      ensures ok && done && peer.faults == old(peer.faults) ==> Filled()
      ensures ok && !done ==>
                && old(filemax) == -1 && filemax == SizeBy(log, []) && !Stranded(log, false)
                && |peer.file| < Span(MOST_BLOCKS, SizeOf(peer.session))
                && (peer.faults == old(peer.faults) ==> !Late(log))
      ensures ok && old(filemax) == -1 ==> (done <==> Told(log) && !Late(log))
      ensures ok && old(filemax) != -1 ==> done
      ensures NoStrays(old(peer.script)) ==> NoStrays(peer.script) && (ok && done ==> prevblock >= 1)
      ensures old(Offered(plan, true)) ==>
                && ok && done && peer.faults == old(peer.faults) && Smooth(plan)
                && SizeOf(peer.session) == SizeIn(old(peer.script))
      ensures old(Offered(plan, false) && filemax != -1) ==>
                ok && done && peer.faults == old(peer.faults) && Smooth(plan) && filemax == old(filemax)
      ensures old(Misled() && filemax == -1) ==>
                ok && !done && filemax == 2 * |peer.file| && peer.script == Again(peer.file)
      ensures old(WillFail(plan)) ==> !ok && errnum.ErrFileNotFound?
    {
      hide InTransfer, Buffered, OnSchedule, Told, Late, NoData, StrayOnlyLast, Span, Transfer, FullOack, Misleading,
        Blocks, BehindStray, Again, Shape.Target, Wired, CanFill, Served, Disturbed, WillFail, NoStrays, Agrees,
        Stranded;
      ghost var misled := Misled() && filemax == -1;
      if misled {
        MisleadingBegins();
      }
      NothingTold();
      var sent;
      sent, ok, log := Open(plan, BehindStray(peer.file));
      done := false;
      if !sent {
        errnum := ErrWrite;
        return false, done, log;
      }
      if !ok {
        errnum := ErrFileNotFound;
        return;
      }
      if filemax != -1 {
        ToldInTime(log);
        return true, true, log;
      }
      if misled {
        MisleadingGoesOn();
      }
      ghost var more;
      ok, more := CountSize(Prompt(Again(peer.file)));
      if !ok {
        errnum := ErrRead;
      }
      ToldWhileMeasuring(log, more);
      ToldConcat(log, more);
      StrandedConcat(log, more, false);
      log := log + more;
    }

    lemma SizeOn(first: seq<Reply>, second: seq<Reply>)
      ensures SizeBy(first, second) == (if Told(second) then |peer.file| else SizeBy(first, []))
      ensures !Late(first) ==> SizeBy(first, second) == |peer.file|
    {
      hide Told, Late;
      NothingTold();
    }

    /** What has been seen since then. */
    ghost predicate Viewed(was: Record, first: seq<Reply>, second: seq<Reply>)
      reads peer`seen
    {
      peer.seen == was.seen + first + second
    }

    /** The file has been requested once. */
    ghost predicate AskedOnce(was: Record, second: seq<Reply>)
      reads peer`asked
    {
      peer.asked == was.asked + [Asking(|was.seen|, was.blksize)] && second == []
    }

    /** It has been requested once more behind `first`, from a transfer with this block size. */
    ghost predicate AskedTwice(was: Record, first: seq<Reply>, blksize: nat)
      reads peer`asked
    {
      peer.asked == was.asked + [Asking(|was.seen|, was.blksize)] + [Asking(|was.seen| + |first|, blksize)]
    }

    lemma LoggedOnce(was: Record, first: seq<Reply>)
      requires Logged(was, first, Recorded())
      ensures Viewed(was, first, []) && AskedOnce(was, [])
    {
    }

    lemma LoggedTwice(was: Record, first: seq<Reply>, middle: Record, second: seq<Reply>)
      requires Logged(was, first, middle) && Logged(middle, second, Recorded())
      ensures Viewed(was, first, second) && AskedTwice(was, first, middle.blksize)
    {
    }

    lemma NothingLogged()
      ensures Viewed(Recorded(), [], [])
    {
    }

    lemma RecordedSize()
      ensures Recorded().blksize == SizeOf(peer.session)
    {
    }

    lemma MisledMeans()
      ensures Misled() <==> |peer.file| < DEFAULT_PACKET && peer.script == Misleading(peer.file)
    {
    }

    lemma BlockIsKept()
      ensures Abandoned() ==> prevblock == 0
    {
    }

    /** `tftp_dir`: opens the file at its beginning and finds out its size, by asking or by reading it
        through once. The size is right unless it was told only when the file was being measured (behind a
        stray packet and before any data), and not told again. Without being told in time the file must end
        within 65535 blocks of the transfer in which it is measured; their size is `blksize`. A silence between
        the option acknowledgement and the first block leaves nothing to read, and without stray packets the
        file is not even opened. */
    method Dir(printPossibilities: bool, ghost plan: Plan)
      returns (ok: bool, ghost first: seq<Reply>, ghost second: seq<Reply>, ghost blksize: nat)
      requires Wired()
      modifies this, peer, buf
      ensures printPossibilities ==> ok && errnum == old(errnum)
      ensures ok && !printPossibilities ==> Valid() && savedFilepos == 0 && errnum == old(errnum)
      ensures Viewed(old(Recorded()), first, second)
      ensures ok && !printPossibilities ==>
                if Told(first) && !Late(first) then AskedOnce(old(Recorded()), second)
                else AskedTwice(old(Recorded()), first, blksize) && |peer.file| < Span(MOST_BLOCKS, blksize)
      ensures ok && !printPossibilities ==> filemax == SizeBy(first, second)
      ensures ok && !printPossibilities && (Stranded(first, false) || Stranded(second, false)) ==> Abandoned()
      ensures ok && !printPossibilities && NoStrays(old(peer.script)) ==>
                prevblock >= 1 && !Stranded(first, false) && !Stranded(second, false)
      ensures old(peer.faults) <= peer.faults
      ensures ok && !printPossibilities && peer.faults == old(peer.faults) ==> Filled() && filemax == |peer.file|
      ensures !ok ==> old(peer.faults) < peer.faults && errnum in {ErrWrite, ErrRead, ErrFileNotFound}
      ensures !printPossibilities && old(Offered(plan, true)) ==>
                && ok && peer.faults == old(peer.faults) && Smooth(plan)
                && SizeOf(peer.session) == SizeIn(old(peer.script))
      ensures !printPossibilities && |peer.file| < DEFAULT_PACKET && old(peer.script) == Misleading(peer.file) ==>
                ok && filemax == 2 * |peer.file|
      ensures !printPossibilities && old(WillFail(plan)) ==> !ok && errnum.ErrFileNotFound?
    {
      hide *;
      first, second, blksize := [], [], 0;
      NothingLogged();
      if printPossibilities {
        return true, first, second, blksize;
      }
      ghost var measured, misled, was := false, Misled(), Recorded();
      ghost var middle := was;
      MisledMeans();
      NothingTold();
      NothingStranded(false);
      filemax := -1;
      while true
        invariant Wired() && errnum == old(errnum) && old(peer.faults) <= peer.faults
        invariant second == [] && middle == Recorded()
        invariant measured ==>
                    && filemax == SizeBy(first, []) && !(Told(first) && !Late(first)) && !Stranded(first, false)
                    && |peer.file| < Span(MOST_BLOCKS, middle.blksize) && blksize == middle.blksize
                    && Logged(was, first, middle)
        invariant !measured ==>
                    && filemax == -1 && first == [] && middle == was
                    && peer.script == old(peer.script) && peer.faults == old(peer.faults)
        invariant NoStrays(old(peer.script)) ==> NoStrays(peer.script)
        invariant measured && peer.faults == old(peer.faults) ==> !Late(first)
        invariant measured ==> !old(Offered(plan, true)) && !old(WillFail(plan))
        invariant measured && misled ==> filemax == 2 * |peer.file| && Offered(Prompt([]), false)
        decreases !measured
      {
        ghost var log;
        var done;
        ok, done, log := Attempt(if measured then Prompt([]) else plan);
        if !measured {
          first := log;
          LoggedOnce(was, first);
        } else {
          second := log;
          LoggedTwice(was, first, middle, second);
        }
        SizeOn(first, second);
        BlockIsKept();
        if !ok || done {
          return;
        }
        if misled {
          MisleadingEnds();
        }
        RecordedSize();
        measured, middle, blksize := true, Recorded(), SizeOf(peer.session);
      }
    }

    /** `tftp_close`: tells the server to stop, if it is still sending. */
    method Close()
      requires InProtocol() && Patient()
      modifies this, peer, buf
      ensures Wired() && savedFilepos == old(savedFilepos) && filepos == old(filepos) && errnum == old(errnum)
    {
      hide InProtocol;
      bufRead := 0;
      var _ := BufFill(true, Prompt([]));
    }

    lemma BlocksAreSmall()
      requires Wired() && peer.session.Some?
      ensures peer.session.value.blksize <= MAX_PACKET
    {
    }
  }

  // ----- whole runs

  datatype Request = Request(pos: nat, size: nat)

  /** What a read has yielded, if anything, is what was asked for; and that is within the blocks there are
      numbers for. */
  ghost predicate Serves(file: seq<Byte>, r: Request, result: Option<seq<Byte>>) {
    result.Some? ==>
      && r.pos + r.size <= |file| && r.pos + r.size <= 65535 * 1432
      && result.value == file[r.pos..r.pos + r.size]
  }

  ghost predicate Inside(file: seq<Byte>, r: Request) {
    0 < r.size && r.pos + r.size <= |file|
  }

  lemma WithinLargest(blksize: nat, end: nat)
    requires blksize <= MAX_PACKET && end <= Span(MOST_BLOCKS, blksize)
    ensures end <= 65535 * 1432
  {
  }

  /** One read at any position. */
  method ReadAt(c: Client, r: Request, ghost plan: Plan) returns (result: Option<seq<Byte>>)
    requires c.Valid()
    modifies c, c.peer, c.buf
    ensures c.Valid() && old(c.peer.faults) <= c.peer.faults && Serves(c.peer.file, r, result)
    ensures c.peer.faults == old(c.peer.faults) && Inside(c.peer.file, r) ==> result.Some?
    ensures old(c.savedFilepos) == 0 && old(c.Filled()) ==>
              var need := FirstNeedOf(old(c.Form()), old(c.prevblock), r);
              && (result.Some? && c.peer.faults == old(c.peer.faults) ==> need <= MOST_BLOCKS)
              && (old(c.Smooth(plan)) && Inside(c.peer.file, r) && need <= plan.most ==>
                    result.Some? && c.peer.faults == old(c.peer.faults))
              && (result.Some? && old(c.Smooth(plan)) && FallsSilent(plan.tail) ==> need <= plan.most)
    ensures old(c.Abandoned()) ==> c.Abandoned() && result.None?
  {
    hide c.InProtocol, c.Buffered, Need, OnSchedule, Shape.Sound, Shape.Target;
    var addr := new Byte[r.size](_ => 0);
    c.filepos := r.pos;
    var ret := c.Read(addr, r.size, plan);
    c.WindowFacts();
    if ret > 0 {
      c.BlocksAreSmall();
      WithinLargest(c.peer.session.value.blksize, r.pos + r.size);
      return Some(addr[..]);
    }
    return None;
  }

  /** The blocks a read takes from the beginning of the file on, when `n` have been received. */
  ghost function FirstNeedOf(g: Shape, n: nat, r: Request): nat
    requires g.Sound()
  {
    Need(g, 0, n, r.pos, r.pos + r.size)
  }

  /** Any run of reads at any positions, forwards and backwards: each yields exactly the bytes asked for, or an
      error, and the next one starts from a window in good order all the same. As long as the network does not
      fail, every read inside the file succeeds; and once the transfer has been left behind, none does. */
  method ReadMany(c: Client, requests: seq<Request>) returns (results: seq<Option<seq<Byte>>>)
    requires c.Valid()
    modifies c, c.peer, c.buf
    ensures c.Valid() && |results| == |requests| && old(c.peer.faults) <= c.peer.faults
    ensures forall i :: 0 <= i < |requests| ==> Serves(c.peer.file, requests[i], results[i])
    ensures c.peer.faults == old(c.peer.faults) ==>
              forall i :: 0 <= i < |requests| && Inside(c.peer.file, requests[i]) ==> results[i].Some?
    ensures old(c.Abandoned()) ==> forall i :: 0 <= i < |results| ==> results[i].None?
  {
    hide c.InProtocol, c.Buffered;
    results := [];
    for i := 0 to |requests|
      invariant c.Valid() && |results| == i && old(c.peer.faults) <= c.peer.faults
      invariant forall j :: 0 <= j < i ==> Serves(c.peer.file, requests[j], results[j])
      invariant c.peer.faults == old(c.peer.faults) ==>
                  forall j :: 0 <= j < i && Inside(c.peer.file, requests[j]) ==> results[j].Some?
      invariant old(c.Abandoned()) ==> c.Abandoned() && forall j :: 0 <= j < i ==> results[j].None?
    {
      var result := ReadAt(c, requests[i], Prompt([]));
      results := results + [result];
    }
  }

  /** What is seen in one of the transfers includes a silence between the option acknowledgement and the first
      block. */
  ghost predicate LeftBehind(first: seq<Reply>, second: seq<Reply>) {
    Stranded(first, false) || Stranded(second, false)
  }

  /** A file opened and read, from the first request on: a network that does not fail gives its size and every
      byte asked for, and one that does never gives a wrong byte. `first` and `second` is what has been seen when
      the file has been opened. Behind a single silence at the wrong time, whatever comes later, nothing is
      read; and then the file is not found at all, unless stray packets come. */
  method OpenAndRead(file: seq<Byte>, script: seq<Choice>, bufLen: nat, requests: seq<Request>)
    returns (found: bool, size: int, results: seq<Option<seq<Byte>>>, ghost faults: nat, ghost first: seq<Reply>,
             ghost second: seq<Reply>)
    requires bufLen >= MAX_PACKET && bufLen % 2 == 0
    ensures !found ==> faults > 0
    ensures found ==> |results| == |requests|
    ensures found ==> forall i :: 0 <= i < |requests| ==> Serves(file, requests[i], results[i])
    ensures found && faults == 0 ==> size == |file|
    ensures found && faults == 0 ==> forall i :: 0 <= i < |requests| && Inside(file, requests[i]) ==> results[i].Some?
    ensures found && LeftBehind(first, second) ==> forall i :: 0 <= i < |results| ==> results[i].None?
    ensures LeftBehind(first, second) && NoStrays(script) ==> !found
  {
    hide Client.InProtocol, Client.Buffered, Client.Opened, Client.Wired, Misleading, Late, Told, Transfer, OnSchedule,
      NoStrays, Stranded;
    var peer := new Peer(file, script);
    var c := new Client(peer, bufLen);
    ghost var blksize;
    found, first, second, blksize := c.Dir(false, Prompt([]));
    size, results := c.filemax, [];
    if found {
      results := ReadMany(c, requests);
    }
    faults := peer.faults;
  }

  /** A network without hope. */
  method NotFound(file: seq<Byte>, script: seq<Choice>, bufLen: nat, ghost plan: Plan) returns (found: bool)
    requires bufLen >= MAX_PACKET && bufLen % 2 == 0 && NoHope(file, script, plan)
    ensures !found
  {
    hide Client.InProtocol, Client.Buffered, Client.Opened, Client.Wired, Misleading, Late, Told, Transfer, OnSchedule,
      NoStrays, Stranded, NoHope, FallsSilent;
    var peer := new Peer(file, script);
    var c := new Client(peer, bufLen);
    ghost var first, second, size;
    found, first, second, size := c.Dir(false, plan);
  }

  /** A single silence behind the option acknowledgement: the file is not found, however well the network does
      before, `late` silences, and later. */
  method LostBehindOack(file: seq<Byte>, blksize: nat, late: nat, more: seq<Choice>, bufLen: nat) returns (found: bool)
    requires bufLen >= 1432 && bufLen % 2 == 0 && late <= 20
    requires 512 <= blksize <= 1432 && NoStrays(more)
    ensures !found
  {
    var script := Stranding(file, blksize, late, more);
    ghost var plan := Plan(_ => late, 0, more);
    FullOackIsGood(file, blksize);
    assert script[0] == Serving(file, blksize, true);
    hide Stranding, Unheard, Conforming, NoStrays;
    found := NotFound(file, script, bufLen, plan);
  }

  /** The 21st silence before any answer: the file is not found, whatever comes later. */
  method LostWithoutAnswer(file: seq<Byte>, blksize: nat, oack: bool, more: seq<Choice>, bufLen: nat)
    returns (found: bool)
    requires bufLen >= 1432 && bufLen % 2 == 0
    requires 512 <= blksize <= 1432 && (!oack ==> blksize == 512)
    ensures !found
  {
    var script := Unheard(file, blksize, oack, [Expire] + more);
    ghost var plan := Plan(Never(), 0, [Expire] + more);
    FullOackIsGood(file, blksize);
    PlainIsGood(file);
    assert script[0] == Serving(file, blksize, oack);
    hide Stranding, Unheard, Conforming, NoStrays;
    found := NotFound(file, script, bufLen, plan);
  }

  /** A file of three bytes, which the server offers twice more. */
  method NotFoundForOneSilence() returns (found: bool)
    ensures !found
  {
    var file := [1, 2, 3];
    var offer := [Serving(file, DEFAULT_PACKET, true), DeliverOack, Advance, DeliverData(1)];
    found := LostBehindOack(file, DEFAULT_PACKET, 0, offer + offer, 0x8000);
  }

  /** The first read of a file, on any network: `g` is the shape of the transfer. Whatever the network does, if
      it does not fail, the read is only served if it takes no more than 65535 blocks. */
  method ReadFirst(file: seq<Byte>, script: seq<Choice>, bufLen: nat, r: Request)
    returns (result: Option<seq<Byte>>, ghost faults: nat, ghost g: Shape)
    requires bufLen >= MAX_PACKET && bufLen % 2 == 0
    ensures Serves(file, r, result)
    ensures result.Some? && faults == 0 ==>
              && g.Sound() && g.buffer == bufLen && g.blksize <= MAX_PACKET && g.length == |file|
              && FirstNeed(g, r.pos, r.pos + r.size) <= MOST_BLOCKS
  {
    hide Client.InProtocol, Client.Buffered, Client.Opened, OnSchedule, Need, Shape.Sound, Shape.Target, Misleading,
      Late, Told, NoStrays, Stranded;
    var peer := new Peer(file, script);
    var c := new Client(peer, bufLen);
    g := Shape(0, 0, 0);
    ghost var first, second, blksize;
    var found;
    found, first, second, blksize := c.Dir(false, Prompt([]));
    result := None;
    if found {
      if peer.faults == 0 {
        g := c.Form();
        c.WindowFacts();
        c.BlocksAreSmall();
      }
      result := ReadAt(c, r, Prompt([]));
    }
    faults := peer.faults;
  }

  lemma FirstNeedIs(g: Shape, r: Request)
    requires g.Sound()
    ensures FirstNeedOf(g, g.Target(0), r) == FirstNeed(g, r.pos, r.pos + r.size) >= g.Target(0)
  {
  }

  lemma PlanIsServed(c: Client, blksize: nat, plan: Plan)
    requires DEFAULT_PACKET <= blksize <= MAX_PACKET <= c.buf.Length && Feasible(plan)
    requires c.peer.script == Transfer(c.peer.file, blksize, true, plan)
    ensures c.Served(plan) && SizeIn(c.peer.script) == blksize && OptionsIn(c.peer.script)
    ensures c.CanFill(plan) <==> Shape(c.buf.Length, blksize, |c.peer.file|).Target(0) <= plan.most
  {
    hide Blocks, Retries, Feasible;
  }

  /** The first read of a file on a network that follows a plan, and falls silent behind it. */
  method ReadByPlan(file: seq<Byte>, blksize: nat, bufLen: nat, script: seq<Choice>, ghost plan: Plan, r: Request)
    returns (result: Option<seq<Byte>>, ghost faults: nat)
    requires bufLen >= MAX_PACKET && bufLen % 2 == 0 && DEFAULT_PACKET <= blksize <= MAX_PACKET && Inside(file, r)
    requires Feasible(plan) && FallsSilent(plan.tail) && script == Transfer(file, blksize, true, plan)
    ensures Serves(file, r, result)
    ensures result.Some? <==> FirstNeed(Shape(bufLen, blksize, |file|), r.pos, r.pos + r.size) <= plan.most
    ensures result.Some? ==> faults == 0
  {
    hide Client.InProtocol, Client.Buffered, Client.Opened, Need, FirstNeed, Client.SmoothAt, Shape.Target, Misleading,
      Late, Told, Transfer, NoStrays, Stranded, Feasible, FallsSilent, NoHope, Client.FillTakes;
    var peer := new Peer(file, script);
    var c := new Client(peer, bufLen);
    PlanIsServed(c, blksize, plan);
    FirstNeedIs(Shape(bufLen, blksize, |file|), r);
    ghost var first, second, size;
    var found;
    found, first, second, size := c.Dir(false, plan);
    result := None;
    if found {
      result := ReadAt(c, r, plan);
    }
    faults := peer.faults;
  }

  /** The first read of a file on a network with any number of silences before each packet. It is served if and only
      if it takes no more than 65535 blocks and the silences can be borne: 20 before the first answer, none behind the
      option acknowledgement, and 9 before each of the other blocks it takes. */
  method ReadOnSchedule(file: seq<Byte>, blksize: nat, bufLen: nat, late: nat -> nat, tail: seq<Choice>, r: Request)
    returns (result: Option<seq<Byte>>, ghost faults: nat)
    requires bufLen >= 1432 && bufLen % 2 == 0 && 512 <= blksize <= 1432 && Inside(file, r)
    requires FallsSilent(tail) && NoStrays(tail)
    ensures Serves(file, r, result)
    ensures var need := FirstNeed(Shape(bufLen, blksize, |file|), r.pos, r.pos + r.size);
      result.Some? <==>
        need <= 65535 && late(0) <= 20 && late(1) == 0 && forall k :: 2 <= k <= need ==> late(k) <= 9
    ensures result.Some? ==> faults == 0
  {
    hide Transfer, NoHope, FallsSilent, NoStrays, Feasible, Need, FirstNeed, Shape.Target, Serves, Inside;
    ghost var need := FirstNeed(Shape(bufLen, blksize, |file|), r.pos, r.pos + r.size);
    var script := Transfer(file, blksize, true, Plan(late, MOST_BLOCKS, tail));
    ghost var plan := Effective(file, blksize, late, tail);
    FirstNeedInFile(file, Shape(bufLen, blksize, |file|), r);
    assert BearableTo(late, need) <==> late(0) <= 20 && late(1) == 0 && forall k :: 2 <= k <= need ==> late(k) <= 9;
    if late(0) > 20 || late(1) > 0 {
      faults := 0;
      var found := NotFound(file, script, bufLen, plan);
      result := None;
      NothingServed(file, r);
    } else {
      result, faults := ReadByPlan(file, blksize, bufLen, script, plan, r);
    }
  }

  lemma NothingServed(file: seq<Byte>, r: Request)
    ensures Serves(file, r, None)
  {
  }

  lemma FirstNeedInFile(file: seq<Byte>, g: Shape, r: Request)
    requires g.buffer >= 1432 && 512 <= g.blksize <= 1432 && g.length == |file| && Inside(file, r)
    ensures g.Sound() && 1 <= FirstNeed(g, r.pos, r.pos + r.size) <= |file| / g.blksize + 1
  {
    NeedIsModest(g, 0, g.Target(0), r.pos, r.pos + r.size);
    Quotient(g.buffer, g.blksize, 1);
    hide Need;
  }

  /** `tftp_dir` on a small file whose size is told late, and not told again: it comes to twice the size. */
  method MisledAboutSize(file: seq<Byte>, bufLen: nat) returns (found: bool, size: int)
    requires bufLen >= MAX_PACKET && bufLen % 2 == 0 && |file| < DEFAULT_PACKET
    ensures found && size == 2 * |file|
  {
    hide Client.InProtocol, Client.Buffered, Client.Opened, Misleading, Late, Told, Transfer, OnSchedule, NoStrays,
      Stranded;
    var peer := new Peer(file, Misleading(file));
    var c := new Client(peer, bufLen);
    ghost var first, second, blksize;
    found, first, second, blksize := c.Dir(false, Prompt([]));
    size := c.filemax;
  }

  /** A file of three bytes is found to have six. */
  method SixForThree() returns (size: int)
    ensures size == 6
  {
    var found;
    found, size := MisledAboutSize([1, 2, 3], 0x8000);
  }
}
