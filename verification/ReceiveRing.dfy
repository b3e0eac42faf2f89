/**
  The receive ring of netboot/ns8390.c: the network chip appends frames of
  whole 256-byte pages behind CURR, `ns8390_poll` takes them off behind BOUND.
  A frame that reaches the end of the ring continues at its beginning.
 */
module ReceiveRing {
  import opened Numbers

  const ETH_ZLEN := 60
  const ETH_FRAME_LEN := 1514

  /** A frame as the chip stores it: receive status, contents, and the pages set aside for it. */
  datatype Frame = Frame(status: Byte, data: seq<Byte>, pages: nat)

  /** Room for the four-byte header and the data; the stored length includes the frame check sequence. */
  ghost predicate Storable(f: Frame) {
    f.pages >= 1 && 4 + |f.data| <= f.pages * 256 && |f.data| + 4 < 65536
  }

  /** What `ns8390_poll` passes on: received intact and of a legal length. */
  predicate Acceptable(f: Frame) {
    f.status % 2 == 1 && ETH_ZLEN <= |f.data| <= ETH_FRAME_LEN
  }

  function Pages(queue: seq<Frame>): nat {
    if queue == [] then 0 else queue[0].pages + Pages(queue[1..])
  }

  /** The ring has `n` pages; positions up to twice around are brought back into it. */
  function Wrap(x: nat, size: nat): nat {
    if x < size then x else x - size
  }

  /** Header and data of a frame whose successor begins in page `next`. */
  function Image(f: Frame, next: Byte): seq<Byte>
    requires Storable(f)
  {
    [f.status, next, (|f.data| + 4) % 256, (|f.data| + 4) / 256] + f.data
  }

  /** Geometry of a ring inside the card's memory: pages [first, first + count). */
  datatype Geometry = Geometry(first: nat, count: nat) {
    predicate Sound() {
      count >= 2 && first + count < 256
    }

    function PageNumber(p: nat): Byte
      requires Sound() && p < 2 * count
    {
      first + Wrap(p, count)
    }

    function Address(x: nat): (a: nat)
      requires Sound() && x < 2 * count * 256
      ensures first * 256 <= a < (first + count) * 256
    {
      first * 256 + Wrap(x, count * 256)
    }
  }

  ghost function Fetch(g: Geometry, mem: seq<Byte>, x: nat): Byte
    requires g.Sound() && |mem| == (g.first + g.count) * 256 && x < 2 * g.count * 256
  {
    mem[g.Address(x)]
  }

  /** Frame `f` is stored from page position `p` on. */
  ghost predicate Stored(g: Geometry, mem: seq<Byte>, f: Frame, p: nat) {
    && g.Sound() && |mem| == (g.first + g.count) * 256 && Storable(f) && p + f.pages < 2 * g.count
    && forall x :: p * 256 <= x < p * 256 + 4 + |f.data| ==>
         Fetch(g, mem, x) == Image(f, g.PageNumber(p + f.pages))[x - p * 256]
  }

  /** The frames of `queue` follow each other without a gap from page position `p` on. */
  ghost predicate Laid(g: Geometry, mem: seq<Byte>, queue: seq<Frame>, p: nat) {
    queue != [] ==> Stored(g, mem, queue[0], p) && Laid(g, mem, queue[1..], p + queue[0].pages)
  }

  /** Going once around the ring changes nothing. */
  lemma {:induction false} LaidRebased(g: Geometry, mem: seq<Byte>, queue: seq<Frame>, p: nat)
    requires g.Sound() && g.count <= p && Laid(g, mem, queue, p)
    ensures Laid(g, mem, queue, p - g.count)
  {
    if queue != [] {
      LaidRebased(g, mem, queue[1..], p + queue[0].pages);
      var q := p - g.count;
      forall x | q * 256 <= x < q * 256 + 4 + |queue[0].data|
        ensures Fetch(g, mem, x) == Image(queue[0], g.PageNumber(q + queue[0].pages))[x - q * 256]
      {
        assert Fetch(g, mem, x) == Fetch(g, mem, x + g.count * 256);
      }
    }
  }

  /** Writing outside the pages in use disturbs nothing. */
  lemma {:induction false} LaidUndisturbed(g: Geometry, mem: seq<Byte>, mem': seq<Byte>, queue: seq<Frame>, p: nat)
    requires g.Sound() && Laid(g, mem, queue, p) && |mem'| == |mem| == (g.first + g.count) * 256
    requires p + Pages(queue) < 2 * g.count
    requires forall x :: p * 256 <= x < (p + Pages(queue)) * 256 ==> Fetch(g, mem', x) == Fetch(g, mem, x)
    ensures Laid(g, mem', queue, p)
  {
    if queue != [] {
      LaidUndisturbed(g, mem, mem', queue[1..], p + queue[0].pages);
    }
  }

  lemma {:induction false} LaidExtended(g: Geometry, mem: seq<Byte>, queue: seq<Frame>, p: nat, f: Frame)
    requires Laid(g, mem, queue, p) && Stored(g, mem, f, p + Pages(queue))
    ensures Laid(g, mem, queue + [f], p) && Pages(queue + [f]) == Pages(queue) + f.pages
  {
    if queue != [] {
      LaidExtended(g, mem, queue[1..], p + queue[0].pages, f);
      assert (queue + [f])[1..] == queue[1..] + [f];
    } else {
      assert queue + [f] == [f] && [f][1..] == [];
    }
  }

  /** `after` is `before` with `image` written from page `page` on, around the end of the ring if need be. */
  ghost predicate Written(g: Geometry, before: seq<Byte>, after: seq<Byte>, page: nat, image: seq<Byte>)
    requires g.Sound() && |before| == |after| == (g.first + g.count) * 256 && page < g.count && |image| <= g.count * 256
  {
    && (forall x :: page * 256 <= x < page * 256 + |image| ==> Fetch(g, after, x) == image[x - page * 256])
    && (forall y :: 0 <= y < 2 * g.count * 256 && Apart(g, page, |image|, y) ==>
          Fetch(g, after, y) == Fetch(g, before, y))
  }

  /** Place `y` is none of the `n` places from page `page` on. */
  ghost predicate Apart(g: Geometry, page: nat, n: nat, y: nat)
    requires g.Sound() && page < g.count && n <= g.count * 256 && y < 2 * g.count * 256
  {
    forall x :: page * 256 <= x < page * 256 + n ==> g.Address(x) != g.Address(y)
  }

  lemma ApartFromFewer(g: Geometry, page: nat, n: nat, y: nat)
    requires g.Sound() && page < g.count && n < g.count * 256 && y < 2 * g.count * 256 && Apart(g, page, n + 1, y)
    ensures Apart(g, page, n, y) && g.Address(page * 256 + n) != g.Address(y)
  {
    hide Geometry.Address;
  }

  lemma NothingWritten(g: Geometry, mem: seq<Byte>, page: nat)
    requires g.Sound() && |mem| == (g.first + g.count) * 256 && page < g.count
    ensures Written(g, mem, mem, page, [])
  {
  }

  /** Places less than one turn apart are different. */
  lemma AddressesDiffer(g: Geometry, x: nat, y: nat)
    requires g.Sound() && x < y < 2 * g.count * 256 && y - x < g.count * 256
    ensures g.Address(x) != g.Address(y)
  {
  }

  /** One byte changes what is found in its place alone. */
  lemma FetchChanged(g: Geometry, mid: seq<Byte>, after: seq<Byte>, z: nat, b: Byte, x: nat)
    requires g.Sound() && |mid| == (g.first + g.count) * 256 && z < 2 * g.count * 256 && x < 2 * g.count * 256
    requires after == mid[g.Address(z) := b]
    ensures Fetch(g, after, x) == if g.Address(x) == g.Address(z) then b else Fetch(g, mid, x)
  {
  }

  lemma WrittenOneMore(g: Geometry, before: seq<Byte>, mid: seq<Byte>, after: seq<Byte>, page: nat, image: seq<Byte>,
                       i: nat)
    requires g.Sound() && |before| == |mid| == (g.first + g.count) * 256 && page < g.count && |image| <= g.count * 256
    requires i < |image| && Written(g, before, mid, page, image[..i])
    requires after == mid[g.Address(page * 256 + i) := image[i]]
    ensures Written(g, before, after, page, image[..i + 1])
  {
    hide Geometry.Address, Fetch, Apart;
    var now, z := image[..i + 1], page * 256 + i;
    forall x | page * 256 <= x < page * 256 + |now| ensures Fetch(g, after, x) == now[x - page * 256] {
      FetchChanged(g, mid, after, z, image[i], x);
      if x < z {
        AddressesDiffer(g, x, z);
        assert now[x - page * 256] == image[..i][x - page * 256];
      }
    }
    forall y | 0 <= y < 2 * g.count * 256 && Apart(g, page, |now|, y)
      ensures Fetch(g, after, y) == Fetch(g, before, y)
    {
      ApartFromFewer(g, page, i, y);
      FetchChanged(g, mid, after, z, image[i], y);
    }
  }

  /** A frame stored in the ring is also found one turn later. */
  lemma StoredOneTurnOn(g: Geometry, mem: seq<Byte>, f: Frame, p: nat)
    requires Stored(g, mem, f, p) && p + f.pages < g.count
    ensures Stored(g, mem, f, p + g.count)
  {
    var q := p + g.count;
    forall x | q * 256 <= x < q * 256 + 4 + |f.data|
      ensures Fetch(g, mem, x) == Image(f, g.PageNumber(q + f.pages))[x - q * 256]
    {
      assert Fetch(g, mem, x) == Fetch(g, mem, x - g.count * 256);
    }
  }

  lemma WrittenInRing(g: Geometry, before: seq<Byte>, after: seq<Byte>, f: Frame, p: nat)
    requires g.Sound() && |before| == |after| == (g.first + g.count) * 256
    requires Storable(f) && f.pages < g.count && p < g.count
    requires Written(g, before, after, p, Image(f, g.PageNumber(p + f.pages)))
    ensures Stored(g, after, f, p)
  {
    hide Fetch, Written, Image, Geometry.PageNumber;
    ImageLength(f, g.PageNumber(p + f.pages));
    WrittenBytes(g, before, after, p, Image(f, g.PageNumber(p + f.pages)));
  }

  lemma ImageLength(f: Frame, next: Byte)
    requires Storable(f)
    ensures |Image(f, next)| == 4 + |f.data|
  {
  }

  lemma WrittenBytes(g: Geometry, before: seq<Byte>, after: seq<Byte>, page: nat, image: seq<Byte>)
    requires g.Sound() && |before| == |after| == (g.first + g.count) * 256 && page < g.count && |image| <= g.count * 256
    requires Written(g, before, after, page, image)
    ensures forall x :: page * 256 <= x < page * 256 + |image| ==> Fetch(g, after, x) == image[x - page * 256]
  {
    hide Fetch, Geometry.Address, Apart;
  }

  /** A frame written to the free pages behind the queue is stored there. */
  lemma WrittenIsStored(g: Geometry, before: seq<Byte>, after: seq<Byte>, f: Frame, p: nat)
    requires g.Sound() && |before| == |after| == (g.first + g.count) * 256
    requires Storable(f) && f.pages < g.count && p + f.pages < 2 * g.count
    requires Written(g, before, after, Wrap(p, g.count), Image(f, g.PageNumber(Wrap(p, g.count) + f.pages)))
    ensures Stored(g, after, f, p)
  {
    hide Geometry.PageNumber, Geometry.Address, Geometry.Sound, Written, Stored, Storable, Image;
    if p < g.count {
      WrittenInRing(g, before, after, f, p);
    } else {
      WrittenInRing(g, before, after, f, p - g.count);
      StoredOneTurnOn(g, after, f, p - g.count);
    }
  }

  /** It leaves the queue as it was. */
  lemma WrittenLeavesQueue(g: Geometry, before: seq<Byte>, after: seq<Byte>, queue: seq<Frame>, head: nat,
                           image: seq<Byte>)
    requires g.Sound() && |before| == |after| == (g.first + g.count) * 256 && head < g.count
    requires Laid(g, before, queue, head) && Pages(queue) * 256 + |image| <= g.count * 256 && Pages(queue) < g.count
    requires Written(g, before, after, Wrap(head + Pages(queue), g.count), image)
    ensures Laid(g, after, queue, head)
  {
    var p := head + Pages(queue);
    var page := Wrap(p, g.count);
    forall y | head * 256 <= y < p * 256 ensures Fetch(g, after, y) == Fetch(g, before, y) {
      forall x | page * 256 <= x < page * 256 + |image| ensures g.Address(x) != g.Address(y) {
      }
    }
    LaidUndisturbed(g, before, after, queue, head);
  }

  /** Where the bytes of a stored frame are found: straight ahead, or from the beginning of the ring on. */
  lemma ByteAt(g: Geometry, mem: seq<Byte>, f: Frame, p: nat, i: nat)
    requires Stored(g, mem, f, p) && p < g.count && i < 4 + |f.data|
    ensures var a, end := (g.first + p) * 256 + i, (g.first + g.count) * 256;
      && (a >= end ==> a - g.count * 256 < end)
      && mem[if a < end then a else a - g.count * 256] == Image(f, g.PageNumber(p + f.pages))[i]
  {
    assert Fetch(g, mem, p * 256 + i) == Image(f, g.PageNumber(p + f.pages))[i];
  }

  /** The bytes moved by a programmed read of `cnt`. */
  function Moved(wide: bool, cnt: nat): (n: nat)
    ensures cnt <= n <= cnt + 1
  {
    if wide then cnt + cnt % 2 else cnt
  }

  /** They do not exceed an even limit. */
  lemma MovedFits(wide: bool, cnt: nat, half: nat)
    requires cnt <= 2 * half
    ensures Moved(wide, cnt) <= 2 * half
  {
  }

  /** A copy in two parts, the second of which goes on at `start`. */
  lemma CopiedParts(mem: seq<Byte>, packet: seq<Byte>, from: nat, frag: nat, start: nat, len: nat)
    requires frag <= len <= |packet| && from + frag <= |mem| && start + (len - frag) <= |mem|
    requires packet[..frag] == mem[from..from + frag] && packet[frag..len] == mem[start..start + (len - frag)]
    ensures forall i :: 0 <= i < len ==> packet[i] == mem[if i < frag then from + i else start + (i - frag)]
  {
    forall i | 0 <= i < len ensures packet[i] == mem[if i < frag then from + i else start + (i - frag)] {
      if i < frag {
        assert packet[i] == packet[..frag][i] == mem[from..from + frag][i];
      } else {
        assert packet[i] == packet[frag..len][i - frag] == mem[start..start + (len - frag)][i - frag];
      }
    }
  }

  class Ring {
    const g: Geometry            // eth_rx_start, and eth_memsize = first + count
    const wide: bool             // FLAG_16BIT: programmed reads move an even number of bytes
    const mem: array<Byte>       // the card's memory
    const packet: array<Byte>    // nic->packet
    var packetLen: nat           // nic->packetlen
    var bound: nat               // the chip's BOUND and CURR registers
    var curr: nat
    ghost var queue: seq<Frame>  // frames received and not yet taken

    /** Position of the first unread page in the ring. */
    ghost function Head(): nat
      requires g.first <= bound
      reads this
    {
      if bound + 1 >= g.first + g.count then 0 else bound + 1 - g.first
    }

    /** The unread frames lie one behind the other from the page behind BOUND up to CURR, and never fill the
        ring. */
    ghost predicate Valid()
      reads this, mem
    {
      && g.Sound() && mem.Length == (g.first + g.count) * 256 && mem != packet && packet.Length >= ETH_FRAME_LEN
      && g.first <= bound < g.first + g.count
      && Pages(queue) < g.count
      && curr == g.PageNumber(Head() + Pages(queue))
      && Laid(g, mem[..], queue, Head())
    }

    /** `ns8390_reset`: the ring registers. */
    constructor (g: Geometry, wide: bool, mem: array<Byte>, packet: array<Byte>)
      requires g.Sound() && mem.Length == (g.first + g.count) * 256 && mem != packet && packet.Length >= ETH_FRAME_LEN
      ensures Valid() && queue == [] && this.mem == mem && this.packet == packet && this.g == g
    {
      this.g, this.wide, this.mem, this.packet := g, wide, mem, packet;
      packetLen, bound, curr, queue := 0, g.first + g.count - 1, g.first, [];
    }

    method Store(page: nat, image: seq<Byte>)
      requires g.Sound() && mem.Length == (g.first + g.count) * 256 && page < g.count && |image| <= g.count * 256
      modifies mem
      ensures Written(g, old(mem[..]), mem[..], page, image)
    {
      hide Written;
      var i := 0;
      NothingWritten(g, mem[..], page);
      while i < |image|
        invariant i <= |image|
        invariant Written(g, old(mem[..]), mem[..], page, image[..i])
      {
        ghost var before := mem[..];
        mem[g.Address(page * 256 + i)] := image[i];
        WrittenOneMore(g, old(mem[..]), before, mem[..], page, image, i);
        i := i + 1;
      }
      assert image[..i] == image;
    }

    /** The chip stores a frame behind CURR, in pages that are free. */
    method Receive(f: Frame)
      requires Valid() && Storable(f) && Pages(queue) + f.pages < g.count
      modifies this`curr, this`queue, mem
      ensures Valid() && queue == old(queue) + [f]
    {
      hide Laid, Written, Stored, Image, Pages;
      ghost var head, p := Head(), Head() + Pages(queue);
      var page := curr - g.first;
      var next := g.PageNumber(page + f.pages);
      ghost var before := mem[..];
      ImageLength(f, next);
      Store(page, Image(f, next));
      WrittenLeavesQueue(g, before, mem[..], queue, head, Image(f, next));
      WrittenIsStored(g, before, mem[..], f, p);
      LaidExtended(g, mem[..], queue, head, f);
      curr := next;
      queue := queue + [f];
    }

    /** `eth_pio_read` or `memcpy` from the card's memory into the packet buffer. */
    method CardRead(src: nat, at: nat, cnt: nat)
      requires mem != packet && src + Moved(wide, cnt) <= mem.Length
      requires at + Moved(wide, cnt) <= packet.Length
      modifies packet
      ensures packet[..at] == old(packet[..at]) && packet[at..at + cnt] == mem[src..src + cnt]
    {
      var count := Moved(wide, cnt);
      var i := 0;
      while i < count
        invariant i <= count
        invariant packet[..at] == old(packet[..at]) && packet[at..at + i] == mem[src..src + i]
      {
        packet[at + i] := mem[src + i];
        i := i + 1;
      }
      assert packet[at..at + cnt] == packet[at..at + count][..cnt];
      assert mem[src..src + cnt] == mem[src..src + count][..cnt];
    }

    /** Copies the `len` data bytes of a frame in page position `page`, in two parts when they reach beyond
        the end of the ring. */
    method CopyFrame(page: nat, len: nat)
      requires g.Sound() && mem.Length == (g.first + g.count) * 256 && mem != packet && packet.Length >= ETH_FRAME_LEN
      requires page < g.count && len <= ETH_FRAME_LEN && len + 4 <= g.count * 256
      modifies packet
      ensures forall i :: 0 <= i < len ==>
                var a := (g.first + page) * 256 + 4 + i;
                packet[i] == mem[if a < mem.Length then a else a - g.count * 256]
    {
      hide Moved;
      var pktoff := (g.first + page) * 256 + 4;
      var frag := (g.first + g.count) * 256 - pktoff;
      if len > frag {
        CopyAround(pktoff, frag, len, 128 * (g.count - page) - 2, 128 * page);
      } else {
        MovedFits(wide, len, 128 * (g.count - page) - 2);
        MovedFits(wide, len, ETH_FRAME_LEN / 2);
        CardRead(pktoff, 0, len);
        CopiedParts(mem[..], packet[..], pktoff, len, 0, len);
      }
    }

    /** The two parts: `frag` bytes up to the end of the ring, an even number, and the others from its beginning. */
    method CopyAround(pktoff: nat, frag: nat, len: nat, ghost half: nat, ghost rest: nat)
      requires mem != packet && packet.Length >= ETH_FRAME_LEN >= len > frag == 2 * half
      requires pktoff + frag <= mem.Length && len - frag <= 2 * rest && g.first * 256 + 2 * rest <= mem.Length
      modifies packet
      ensures forall i :: 0 <= i < len ==> packet[i] == mem[if i < frag then pktoff + i else g.first * 256 + (i - frag)]
    {
      hide Moved;
      var start := g.first * 256;
      MovedFits(wide, frag, half);
      CardRead(pktoff, 0, frag);
      MovedFits(wide, len - frag, rest);
      MovedFits(wide, len - frag, ETH_FRAME_LEN / 2 - half);
      CardRead(start, frag, len - frag);
      CopiedParts(mem[..], packet[..], pktoff, frag, start, len);
    }

    /** CURR meets the page behind BOUND exactly when nothing is unread. */
    lemma EmptyIffMet()
      requires Valid()
      ensures curr == g.first + Head() <==> queue == []
      ensures queue != [] ==> Stored(g, mem[..], queue[0], Head())
    {
    }

    /** Taking the first frame off moves BOUND to the page before the next one. */
    lemma Taken(b: nat)
      requires Valid() && queue != []
      requires var next := g.PageNumber(Head() + queue[0].pages);
        b == (if next == g.first then g.first + g.count else next) - 1
      ensures var head := if b + 1 >= g.first + g.count then 0 else b + 1 - g.first;
        && g.first <= b < g.first + g.count && Pages(queue[1..]) < g.count
        && curr == g.PageNumber(head + Pages(queue[1..]))
        && Laid(g, mem[..], queue[1..], head)
    {
      hide Stored;
      var p := Head() + queue[0].pages;
      if p >= g.count {
        LaidRebased(g, mem[..], queue[1..], p);
      }
    }

    /** The four-byte header of the first unread frame: receive status, page of the next frame, and the
        length without the frame check sequence. */
    method ReadHeader(page: nat) returns (status: Byte, next: Byte, len: int)
      requires Valid() && queue != [] && page == Head()
      ensures status == queue[0].status && next == g.PageNumber(page + queue[0].pages) && len == |queue[0].data|
    {
      var pktoff := (g.first + page) * 256;
      ByteAt(g, mem[..], queue[0], page, 0);
      ByteAt(g, mem[..], queue[0], page, 1);
      ByteAt(g, mem[..], queue[0], page, 2);
      ByteAt(g, mem[..], queue[0], page, 3);
      status, next := mem[pktoff], mem[pktoff + 1];
      var low: int, high: int := mem[pktoff + 2], mem[pktoff + 3];
      len := low + 256 * high - 4;
    }

    method ReadFrame(page: nat, len: nat)
      requires Valid() && queue != [] && page == Head() && len == |queue[0].data| <= ETH_FRAME_LEN
      modifies packet
      ensures packet[..len] == queue[0].data
    {
      ghost var f := queue[0];
      CopyFrame(page, len);
      forall i | 0 <= i < len ensures packet[i] == f.data[i] {
        ByteAt(g, mem[..], f, page, 4 + i);
      }
    }

    /** Gives the pages of the first frame back to the chip. */
    method Release(next: Byte)
      requires Valid() && queue != [] && next == g.PageNumber(Head() + queue[0].pages)
      modifies this`bound, this`queue
      ensures Valid() && queue == old(queue)[1..]
    {
      hide Laid;
      var last := if next == g.first then g.first + g.count else next;
      Taken(last - 1);
      bound := last - 1;
      queue := queue[1..];
    }

    /** The pages in use, as the chip knows them from BOUND and CURR. */
    method Used() returns (n: nat)
      requires Valid()
      ensures n == Pages(queue)
    {
      var next := if bound + 1 >= g.first + g.count then g.first else bound + 1;
      n := if curr >= next then curr - next else curr + g.count - next;
    }

    /** `ns8390_poll`, with no overrun pending; `received` is the PRX bit of the chip's receive status. The
        first unread frame is passed on and taken off the ring, byte for byte. A frame that is not
        acceptable stays where it is. */
    method Poll(received: bool) returns (ret: bool)
      requires Valid()
      modifies this`bound, this`packetLen, this`queue, packet
      ensures Valid()
      ensures ret <==> received && old(queue) != [] && Acceptable(old(queue)[0])
      ensures ret ==> old(queue)[0].status % 2 == 1 && 60 <= |old(queue)[0].data| <= 1514
      ensures ret ==>
                queue == old(queue)[1..] && packetLen <= packet.Length && packet[..packetLen] == old(queue)[0].data
      ensures !ret ==> queue == old(queue) && bound == old(bound)
    {
      hide Laid, Stored, Pages;
      if !received {
        return false;
      }
      var next := bound + 1;
      if next >= g.first + g.count {
        next := g.first;
      }
      var at := if curr >= g.first + g.count then g.first else curr;
      if at == next {
        EmptyIffMet();
        return false;
      }
      EmptyIffMet();
      ghost var f := queue[0];
      var status, after, len := ReadHeader(next - g.first);
      if status % 2 == 0 || len < ETH_ZLEN || len > ETH_FRAME_LEN {
        return false;
      }
      packetLen := len;
      ReadFrame(next - g.first, len);
      Release(after);
      return true;
    }
  }

  datatype Event = Arrive(frame: Frame) | PollNow(received: bool)

  // ----- the queue that the ring stands for

  /** All frames stored so far, and how many of them have been taken: the rest are waiting. */
  datatype Fifo = Fifo(stored: seq<Frame>, taken: nat)

  ghost predicate Sensible(q: Fifo) {
    q.taken <= |q.stored| && forall i :: 0 <= i < q.taken ==> Acceptable(q.stored[i])
  }

  ghost predicate Blocked(q: Fifo) {
    q.taken < |q.stored| && !Acceptable(q.stored[q.taken])
  }

  /** A frame is stored if it leaves at least one of the `count` pages free; a poll takes the first frame that
      waits, if that is acceptable. */
  ghost function Handle(q: Fifo, e: Event, count: nat): (r: Fifo)
    requires Sensible(q)
    ensures Sensible(r)
  {
    match e
    case Arrive(f) => if Pages(q.stored[q.taken..]) + f.pages < count then q.(stored := q.stored + [f]) else q
    case PollNow(received) =>
      if received && q.taken < |q.stored| && Acceptable(q.stored[q.taken]) then q.(taken := q.taken + 1) else q
  }

  ghost function HandleAll(events: seq<Event>, count: nat): (q: Fifo)
    ensures Sensible(q)
  {
    if events == [] then Fifo([], 0) else Handle(HandleAll(events[..|events| - 1], count), events[|events| - 1], count)
  }

  ghost function Arrivals(events: seq<Event>): seq<Frame> {
    if events == [] then [] else
    var front, last := Arrivals(events[..|events| - 1]), events[|events| - 1];
    if last.Arrive? then front + [last.frame] else front
  }

  lemma {:induction false} PagesConcat(a: seq<Frame>, b: seq<Frame>)
    ensures Pages(a + b) == Pages(a) + Pages(b)
  {
    if a == [] {
      assert a + b == b;
    } else {
      PagesConcat(a[1..], b);
      assert (a + b)[1..] == a[1..] + b;
    }
  }

  /** Only a full ring loses frames. */
  lemma {:induction false} NothingIsLost(events: seq<Event>, count: nat)
    requires Pages(Arrivals(events)) < count
    ensures HandleAll(events, count).stored == Arrivals(events)
  {
    if events != [] {
      var front, last := events[..|events| - 1], events[|events| - 1];
      var q := HandleAll(front, count);
      if last.Arrive? {
        PagesConcat(Arrivals(front), [last.frame]);
        assert Pages([last.frame]) == last.frame.pages by {
          assert [last.frame][1..] == [];
        }
      }
      NothingIsLost(front, count);
      PagesConcat(q.stored[..q.taken], q.stored[q.taken..]);
      assert q.stored == q.stored[..q.taken] + q.stored[q.taken..];
    }
  }

  /** `a` is `b` with some elements left out. */
  ghost predicate Within(a: seq<Frame>, b: seq<Frame>)
    decreases |b|
  {
    a == [] ||
    (b != [] &&
     (Within(a, b[..|b| - 1]) || (a[|a| - 1] == b[|b| - 1] && Within(a[..|a| - 1], b[..|b| - 1]))))
  }

  /** What is stored has arrived, in that order. */
  lemma {:induction false} StoredHasArrived(events: seq<Event>, count: nat)
    ensures Within(HandleAll(events, count).stored, Arrivals(events))
  {
    if events != [] {
      var front, last := events[..|events| - 1], events[|events| - 1];
      StoredHasArrived(front, count);
      var stored, arrived := HandleAll(front, count).stored, Arrivals(front);
      if last.Arrive? {
        assert (arrived + [last.frame])[..|arrived|] == arrived;
        assert (stored + [last.frame])[..|stored|] == stored;
      }
    }
  }

  /** A frame that is not acceptable is never taken off the ring: from then on no packet is passed on. */
  lemma {:induction false} BlockedForGood(events: seq<Event>, more: seq<Event>, count: nat)
    requires Blocked(HandleAll(events, count))
    ensures Blocked(HandleAll(events + more, count))
    ensures HandleAll(events + more, count).taken == HandleAll(events, count).taken
  {
    if more == [] {
      assert events + more == events;
    } else {
      var n := |more| - 1;
      BlockedForGood(events, more[..n], count);
      assert (events + more)[..|events| + n] == events + more[..n];
    }
  }

  lemma OneStored(f: Frame, count: nat)
    requires f.pages < count
    ensures HandleAll([Arrive(f)], count) == Fifo([f], 0)
  {
    assert [Arrive(f)][..0] == [];
    assert Pages([][0..]) == 0;
  }

  /** A frame received intact, of 60 to 1514 bytes, is passed on by the next poll. */
  lemma GoodFramePasses(f: Frame, count: nat)
    requires f.pages < count && f.status % 2 == 1 && 60 <= |f.data| <= 1514
    ensures HandleAll([Arrive(f), PollNow(true)], count) == Fifo([f], 1)
  {
    OneStored(f, count);
    assert [Arrive(f), PollNow(true)][..1] == [Arrive(f)];
  }

  /** Any other blocks the ring: no packet is ever passed on behind it. */
  lemma BadFrameBlocks(f: Frame, count: nat, more: seq<Event>)
    requires f.pages < count && (f.status % 2 == 0 || |f.data| < 60 || |f.data| > 1514)
    ensures HandleAll([Arrive(f)] + more, count).taken == 0
  {
    OneStored(f, count);
    hide HandleAll;
    BlockedForGood([Arrive(f)], more, count);
  }

  /** One of 1515 bytes, received intact, is such a frame. */
  lemma BlockedByLongFrame(count: nat, more: seq<Event>)
    requires count > 6
    ensures var f := Frame(1, seq(1515, _ => 0), 6); Storable(f) && HandleAll([Arrive(f)] + more, count).taken == 0
  {
    BadFrameBlocks(Frame(1, seq(1515, _ => 0), 6), count, more);
  }

  /** The first frame that is not acceptable, or the end. */
  ghost function FirstBad(frames: seq<Frame>): (k: nat)
    ensures k <= |frames| && (k < |frames| ==> !Acceptable(frames[k]))
    ensures forall i :: 0 <= i < k ==> Acceptable(frames[i])
  {
    if frames == [] || !Acceptable(frames[0]) then 0 else 1 + FirstBad(frames[1..])
  }

  /** `n` polls of a chip that has received something. */
  ghost function Polls(n: nat): seq<Event> {
    seq(n, _ => PollNow(true))
  }

  lemma NoPolls(events: seq<Event>)
    ensures events + Polls(0) == events
  {
  }

  lemma PollsOn(events: seq<Event>, n: nat)
    requires n >= 1
    ensures events + Polls(n) == events + Polls(n - 1) + [PollNow(true)]
  {
  }

  lemma PolledOnce(events: seq<Event>, count: nat)
    ensures var q, r := HandleAll(events, count), HandleAll(events + [PollNow(true)], count);
      r.stored == q.stored && r.taken == Min(q.taken + 1, FirstBad(q.stored))
  {
    assert (events + [PollNow(true)])[..|events|] == events;
    hide Acceptable;
  }

  lemma {:induction false} Polled(events: seq<Event>, n: nat, count: nat)
    ensures var q, r := HandleAll(events, count), HandleAll(events + Polls(n), count);
      r.stored == q.stored && r.taken == Min(q.taken + n, FirstBad(q.stored))
    decreases n
  {
    hide HandleAll, FirstBad, Polls, Acceptable;
    if n == 0 {
      NoPolls(events);
    } else {
      Polled(events, n - 1, count);
      PollsOn(events, n);
      PolledOnce(events + Polls(n - 1), count);
    }
  }

  /** After as many polls as frames are waiting all frames stored have been passed on, if and only if all of
      them are acceptable. */
  lemma AllPassedOnIff(events: seq<Event>, n: nat, count: nat)
    requires var q := HandleAll(events, count); n >= |q.stored| - q.taken
    ensures var q := HandleAll(events, count);
      HandleAll(events + Polls(n), count).taken == |q.stored|
      <==> forall i :: 0 <= i < |q.stored| ==> Acceptable(q.stored[i])
  {
    hide HandleAll, Acceptable;
    Polled(events, n, count);
  }

  ghost predicate Carries(packets: seq<seq<Byte>>, frames: seq<Frame>) {
    |packets| == |frames| && forall i :: 0 <= i < |packets| ==> packets[i] == frames[i].data
  }

  lemma HandleOne(events: seq<Event>, i: nat, count: nat)
    requires i < |events|
    ensures HandleAll(events[..i + 1], count) == Handle(HandleAll(events[..i], count), events[i], count)
  {
    assert events[..i + 1][..i] == events[..i];
  }

  /** The ring and the packets passed on so far are those of the queue `q`. */
  ghost predicate Agrees(q: Fifo, waiting: seq<Frame>, packets: seq<seq<Byte>>) {
    q.taken <= |q.stored| && waiting == q.stored[q.taken..] && Carries(packets, q.stored[..q.taken])
  }

  /** Any interleaving of arrivals and polls: the ring is a bounded queue. The packets passed on are the first of
      the frames stored, in the order of their arrival and byte for byte, also where a frame was stored around
      the end of the ring; the others are still waiting. */
  method Run(r: Ring, events: seq<Event>) returns (packets: seq<seq<Byte>>)
    requires r.Valid() && r.queue == []
    requires forall i :: 0 <= i < |events| && events[i].Arrive? ==> Storable(events[i].frame)
    modifies r, r.mem, r.packet
    ensures r.Valid() && Agrees(HandleAll(events, r.g.count), r.queue, packets)
  {
    hide Ring.Valid, HandleAll, Pages, Acceptable;
    packets := [];
    NothingHandled(r.g.count);
    for i := 0 to |events|
      invariant r.Valid() && Agrees(HandleAll(events[..i], r.g.count), r.queue, packets)
    {
      HandleOne(events, i, r.g.count);
      match events[i]
      case Arrive(f) =>
        var used := r.Used();
        if used + f.pages < r.g.count {
          r.Receive(f);
        }
      case PollNow(received) =>
        var ret := r.Poll(received);
        if ret {
          packets := packets + [r.packet[..r.packetLen]];
        }
    }
    assert events[..|events|] == events;
  }

  lemma NothingHandled(count: nat)
    ensures HandleAll([], count) == Fifo([], 0)
  {
  }

  /** One frame on an empty ring, and a poll. */
  method RunOnce(r: Ring, f: Frame) returns (packets: seq<seq<Byte>>)
    requires r.Valid() && r.queue == [] && Storable(f) && f.pages < r.g.count
    modifies r, r.mem, r.packet
    ensures r.Valid() && packets == if f.status % 2 == 1 && 60 <= |f.data| <= 1514 then [f.data] else []
  {
    var events := [Arrive(f), PollNow(true)];
    if f.status % 2 == 1 && 60 <= |f.data| <= 1514 {
      GoodFramePasses(f, r.g.count);
    } else {
      BadFrameBlocks(f, r.g.count, [PollNow(true)]);
      assert [Arrive(f)] + [PollNow(true)] == events;
    }
    hide Ring.Valid, HandleAll, Storable, Acceptable;
    packets := Run(r, events);
  }

  /** A frame that is not acceptable, and whatever follows. */
  method RunBlocked(r: Ring, f: Frame, more: seq<Event>) returns (packets: seq<seq<Byte>>)
    requires r.Valid() && r.queue == [] && Storable(f) && f.pages < r.g.count
    requires f.status % 2 == 0 || |f.data| < 60 || |f.data| > 1514
    requires forall i :: 0 <= i < |more| && more[i].Arrive? ==> Storable(more[i].frame)
    modifies r, r.mem, r.packet
    ensures r.Valid() && packets == []
  {
    BadFrameBlocks(f, r.g.count, more);
    hide Ring.Valid, HandleAll, Storable, Acceptable;
    packets := Run(r, [Arrive(f)] + more);
  }
}
