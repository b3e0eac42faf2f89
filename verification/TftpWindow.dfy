/**
  How far the read window of netboot/fsys_tftp.c runs ahead of a reader. The
  window is filled with whole blocks as long as there is room, so that a read
  takes more blocks than its bytes are in; and no more than 65535 can be had.
 */
module TftpWindow {
  import opened Numbers

  const MOST_BLOCKS: nat := 65535

  /** A buffer, the block size of a transfer, and the length of the file. */
  datatype Shape = Shape(buffer: nat, blksize: nat, length: nat) {
    predicate Sound() {
      1 <= blksize <= buffer
    }

    /** The bytes in the first `n` blocks. */
    function Bytes(n: nat): (r: nat)
      ensures r <= length
    {
      Min(n * blksize, length)
    }

    /** The number of the last block, which is short, maybe empty. */
    function Last(): nat
      requires Sound()
    {
      length / blksize + 1
    }

    /** The blocks received when a window that begins at `start` is full, or the file at its end. */
    function Target(start: nat): nat
      requires Sound()
    {
      Min((start + buffer) / blksize, Last())
    }
  }

  // ----- arithmetic of blocks

  lemma ProductLess(a: nat, b: nat, k: nat)
    requires a < b
    ensures a * k + k <= b * k
  {
    calc {
      b * k;
      (a + (b - a)) * k;
      a * k + (b - a) * k;
    }
    ProductAtLeast(b - a, k);
  }

  lemma ProductAtLeast(a: nat, k: nat)
    requires a >= 1
    ensures a * k >= k
  {
    assert a * k == (a - 1) * k + k;
  }

  /** Division is what fits. */
  lemma Quotient(x: nat, k: nat, q: nat)
    requires k >= 1
    ensures q * k <= x <==> q <= x / k
  {
    var d := x / k;
    assert x == d * k + x % k;
    if q > d {
      ProductLess(d, q, k);
    } else if q < d {
      ProductLess(q, d, k);
    }
  }

  lemma QuotientGrows(x: nat, y: nat, k: nat)
    requires k >= 1 && x <= y
    ensures x / k <= y / k
  {
    Quotient(x, k, x / k);
    Quotient(y, k, x / k);
  }

  /** A window that is full or at the end of the file has received its target, or had done so with `n` blocks. */
  lemma FilledToTarget(g: Shape, start: nat, n: nat, m: nat, ended: bool)
    requires g.Sound() && start <= g.Bytes(m) && n <= m && (m > n ==> m * g.blksize <= start + g.buffer)
    requires if ended then 1 <= m && (m - 1) * g.blksize <= g.length < m * g.blksize
             else m * g.blksize <= g.length && start + g.buffer < m * g.blksize + g.blksize
    ensures m == Max(n, g.Target(start))
  {
    var room := start + g.buffer;
    Quotient(room, g.blksize, m);
    if ended {
      Quotient(g.length, g.blksize, m - 1);
      Quotient(g.length, g.blksize, m);
    } else {
      assert (m + 1) * g.blksize == m * g.blksize + g.blksize;
      Quotient(room, g.blksize, m + 1);
      Quotient(g.length, g.blksize, m);
    }
    assert g.Last() >= m && g.Target(start) <= m;
  }

  /** As long as there is room for a block before the end, the target is not reached. */
  lemma BelowTarget(g: Shape, start: nat, n: nat)
    requires g.Sound() && n * g.blksize <= g.length && n * g.blksize + g.blksize <= start + g.buffer
    ensures n < g.Target(start)
  {
    assert (n + 1) * g.blksize == n * g.blksize + g.blksize;
    Quotient(start + g.buffer, g.blksize, n + 1);
    Quotient(g.length, g.blksize, n);
  }

  // ----- the blocks a read takes

  /** The blocks received, by a client without any limit on them, once the bytes [pos, end) have been read
      through a window that begins at `start` when `n` blocks have been received. */
  ghost function Need(g: Shape, start: nat, n: nat, pos: nat, end: nat): (r: nat)
    requires g.Sound() && start <= pos
    ensures r >= n
    decreases if pos < end then end - pos else 0, g.length - g.Bytes(n)
  {
    var got := g.Bytes(n);
    if end <= pos then n
    else if got > pos then
      // copy what there is, and slide by half a buffer
      var at := Min(got, end);
      var next := if at - start > g.buffer / 2 then start + g.buffer / 2 else start;
      if at == end then n else Need(g, next, Max(n, g.Target(next)), at, end)
    else if got == g.length then n
    else
      // give the whole window up
      Skipped(g, n);
      Need(g, got, Max(n, g.Target(got)), pos, end)
  }

  lemma Skipped(g: Shape, n: nat)
    requires g.Sound() && g.Bytes(n) < g.length
    ensures g.Bytes(n) < g.Bytes(Max(n, g.Target(g.Bytes(n))))
  {
    BelowTarget(g, g.Bytes(n), n);
    ProductLess(n, g.Target(g.Bytes(n)), g.blksize);
  }

  /** Where a turn of the read loop leaves the window and the reader. */
  ghost predicate Moves(g: Shape, start: nat, n: nat, pos: nat, end: nat, next: nat, at: nat) {
    var got := g.Bytes(n);
    if got > pos then
      at == Min(got, end) && next == if at - start > g.buffer / 2 then start + g.buffer / 2 else start
    else at == pos && next == got
  }

  /** What a turn of the read loop does not change. */
  lemma NeedOn(g: Shape, start: nat, n: nat, pos: nat, end: nat, next: nat, at: nat)
    requires g.Sound() && start <= pos < end && Moves(g, start, n, pos, end, next, at)
    requires g.Bytes(n) > pos || g.Bytes(n) < g.length
    ensures next <= at
    ensures Need(g, start, n, pos, end) == if at == end then n else Need(g, next, Max(n, g.Target(next)), at, end)
  {
    hide Shape.Target;
  }

  /** A read takes at least the blocks its bytes are in. */
  lemma {:induction false} NeedCovers(g: Shape, start: nat, n: nat, pos: nat, end: nat)
    requires g.Sound() && start <= pos < end <= g.length
    ensures end <= Need(g, start, n, pos, end) * g.blksize
    decreases end - pos, g.length - g.Bytes(n)
  {
    hide Shape.Target;
    var got := g.Bytes(n);
    if got > pos {
      var at := Min(got, end);
      var next := if at - start > g.buffer / 2 then start + g.buffer / 2 else start;
      if at < end {
        NeedCovers(g, next, Max(n, g.Target(next)), at, end);
      }
    } else {
      Skipped(g, n);
      NeedCovers(g, got, Max(n, g.Target(got)), pos, end);
    }
  }

  /** It takes no more than one buffer beyond them, and none behind the end of the file. */
  lemma {:induction false} NeedIsModest(g: Shape, start: nat, n: nat, pos: nat, end: nat)
    requires g.Sound() && start <= pos < end
    ensures Need(g, start, n, pos, end) <= Max(n, (end - 1 + g.buffer) / g.blksize)
    ensures Need(g, start, n, pos, end) <= Max(n, g.Last())
    decreases end - pos, g.length - g.Bytes(n)
  {
    var got := g.Bytes(n);
    if got > pos {
      var at := Min(got, end);
      var next := if at - start > g.buffer / 2 then start + g.buffer / 2 else start;
      if at < end {
        QuotientGrows(next + g.buffer, end - 1 + g.buffer, g.blksize);
        NeedIsModest(g, next, Max(n, g.Target(next)), at, end);
      }
    } else if got < g.length {
      Skipped(g, n);
      QuotientGrows(got + g.buffer, end - 1 + g.buffer, g.blksize);
      NeedIsModest(g, got, Max(n, g.Target(got)), pos, end);
    }
  }

  // ----- the first read of a file

  /** The blocks the first read of a file takes, opening it included. */
  ghost function FirstNeed(g: Shape, pos: nat, end: nat): (r: nat)
    requires g.Sound()
  {
    Need(g, 0, g.Target(0), pos, end)
  }

  /** Any read is within the limit if the file is, or if it ends one buffer before the limit; and none that
      ends beyond the limit is. */
  lemma FirstNeedBounds(g: Shape, pos: nat, end: nat)
    requires g.Sound() && pos < end <= g.length
    ensures g.length < MOST_BLOCKS * g.blksize || end + g.buffer <= MOST_BLOCKS * g.blksize ==>
              FirstNeed(g, pos, end) <= MOST_BLOCKS
    ensures FirstNeed(g, pos, end) <= MOST_BLOCKS ==> end <= MOST_BLOCKS * g.blksize
  {
    var limit := MOST_BLOCKS * g.blksize;
    var need := FirstNeed(g, pos, end);
    NeedIsModest(g, 0, g.Target(0), pos, end);
    NeedCovers(g, 0, g.Target(0), pos, end);
    QuotientGrows(g.buffer, end - 1 + g.buffer, g.blksize);
    Quotient(end - 1 + g.buffer, g.blksize, MOST_BLOCKS + 1);
    Quotient(g.length, g.blksize, MOST_BLOCKS);
    if need < MOST_BLOCKS {
      ProductLess(need, MOST_BLOCKS, g.blksize);
    }
  }

  // ----- a read that is not served although the blocks of its bytes are

  /** FSYS_BUFLEN, blocks of 512 bytes, and a file of 65536 full blocks. */
  const LONG_FILE := Shape(0x8000, 512, 65536 * 512)

  lemma {:induction false} WholeWindowsSkipped(start: nat, k: nat)
    requires 1 <= k <= 1023 && start <= 65535 * 512 - 1
    ensures Need(LONG_FILE, start, 64 * k, 65535 * 512 - 1, 65535 * 512) == 65536
    decreases 1023 - k
  {
    var g, n := LONG_FILE, 64 * k;
    var got := g.Bytes(n);
    assert got == 32768 * k;
    assert g.Target(got) == 64 * (k + 1) by {
      assert got + g.buffer == 512 * (64 * (k + 1));
    }
    if k < 1023 {
      WholeWindowsSkipped(got, k + 1);
    } else {
      assert Need(g, got, 65536, 65535 * 512 - 1, 65535 * 512) == 65536;
    }
  }

  /** The last byte of block 65535 cannot be the first one read: the window is filled from block 65473 on,
      and that would take block 65536. */
  lemma LimitIsNotReached()
    ensures var end := MOST_BLOCKS * LONG_FILE.blksize;
      end <= LONG_FILE.length && FirstNeed(LONG_FILE, end - 1, end) == MOST_BLOCKS + 1
  {
    WholeWindowsSkipped(0, 1);
  }

  /** The last byte of a file with one byte more than 65535 of the largest blocks is out of reach for every
      block size a server can choose. */
  lemma LastByteOutOfReach(buffer: nat, blksize: nat)
    requires 1 <= blksize <= 1432 <= buffer
    ensures var g := Shape(buffer, blksize, MOST_BLOCKS * 1432 + 1); FirstNeed(g, g.length - 1, g.length) > MOST_BLOCKS
  {
    var g := Shape(buffer, blksize, MOST_BLOCKS * 1432 + 1);
    FirstNeedBounds(g, g.length - 1, g.length);
  }
}
