/**
  The search of `depca_probe1` in netboot/depca.c for the signature in the
  Ethernet address PROM: a matcher that on a mismatch falls back to one matched
  byte or none, whatever it had matched before.
 */
module Signature {
  import opened Numbers

  const SIG: seq<Byte> := [0xFF, 0x00, 0x55, 0xAA, 0xFF, 0x00, 0x55, 0xAA]
  const PROBE_LENGTH: nat := 32

  /** The last `k` bytes of `t` are the first `k` of the signature. */
  ghost predicate Ends(t: seq<Byte>, k: nat) {
    k <= |t| && k <= 8 && t[|t| - k..] == SIG[..k]
  }

  /** `j` is the longest beginning of the signature at the end of `t`. */
  ghost predicate Longest(t: seq<Byte>, j: nat) {
    Ends(t, j) && forall k :: j < k <= 8 ==> !Ends(t, k)
  }

  function Next(j: nat, data: Byte): (n: nat)
    requires j < 8
    ensures n <= 8
  {
    if data == SIG[j] then j + 1 else if data == SIG[0] then 1 else 0
  }

  lemma EndsOneMore(t: seq<Byte>, data: Byte, k: nat)
    requires k < 8
    ensures Ends(t + [data], k + 1) <==> Ends(t, k) && SIG[k] == data
  {
    var u := t + [data];
    if k <= |t| {
      assert u[|u| - (k + 1)..] == t[|t| - k..] + [data];
      assert SIG[..k + 1] == SIG[..k] + [SIG[k]];
    }
  }

  /** Where a beginning of the signature of length `m` ends inside one of length `j`, the bytes that would
      continue them are the same: the signature is one word of four different bytes, twice. */
  lemma SameContinuation(t: seq<Byte>, j: nat, m: nat)
    requires 1 <= m < j < 8 && Ends(t, j) && Ends(t, m)
    ensures SIG[m] == SIG[j]
  {
    assert t[|t| - m] == SIG[..m][0] && t[|t| - m] == SIG[..j][j - m];
    assert SIG[j - m] == SIG[0];
  }

  /** So the simple fallback is right: what it leaves is again the longest match. */
  lemma FallbackIsRight(t: seq<Byte>, j: nat, data: Byte)
    requires Longest(t, j) && j < 8
    ensures Longest(t + [data], Next(j, data))
  {
    var u, n := t + [data], Next(j, data);
    assert u[|u|..] == [] == SIG[..0];
    assert t[|t|..] == [] == SIG[..0];
    EndsOneMore(t, data, j);
    EndsOneMore(t, data, 0);
    hide Ends;
    forall k | n < k <= 8 ensures !Ends(u, k) {
      EndsOneMore(t, data, k - 1);
      if Ends(u, k) && 1 <= k - 1 < j {
        SameContinuation(t, j, k - 1);
      }
    }
  }

  ghost predicate OccursAt(stream: seq<Byte>, i: nat) {
    i + 8 <= |stream| && stream[i..i + 8] == [0xFF, 0x00, 0x55, 0xAA, 0xFF, 0x00, 0x55, 0xAA]
  }

  lemma EndsIsOccurrence(stream: seq<Byte>, i: nat)
    requires i <= |stream|
    ensures Ends(stream[..i], 8) <==> i >= 8 && OccursAt(stream, i - 8)
  {
    if i >= 8 {
      assert stream[..i][i - 8..] == stream[i - 8..i];
      assert SIG[..8] == SIG;
    }
  }

  /** One byte read: the match stays the longest, and is complete exactly behind an occurrence. */
  lemma OneByte(stream: seq<Byte>, i: nat, j: nat)
    requires i < |stream| && Longest(stream[..i], j) && j < 8
    ensures Longest(stream[..i + 1], Next(j, stream[i]))
    ensures Next(j, stream[i]) == 8 <==> i + 1 >= 8 && OccursAt(stream, i + 1 - 8)
  {
    FallbackIsRight(stream[..i], j, stream[i]);
    assert stream[..i] + [stream[i]] == stream[..i + 1];
    EndsIsOccurrence(stream, i + 1);
    hide Next, Ends, OccursAt;
  }

  /** The search loop: it finds the signature if it is complete within the first 39 bytes, and stops right
      behind its first occurrence, where the station address begins. */
  method Probe(stream: seq<Byte>) returns (found: bool, i: nat)
    requires |stream| >= 39
    ensures found <==> exists k :: 0 <= k < 32 && OccursAt(stream, k)
    ensures found ==> i >= 8 && OccursAt(stream, i - 8) && forall k :: 0 <= k < i - 8 ==> !OccursAt(stream, k)
    ensures !found ==> i == 39
  {
    assert Longest(stream[..0], 0);
    hide Longest, Ends, OccursAt, Next, SIG;
    i := 0;
    var j: nat := 0;
    while j < 8 && i < PROBE_LENGTH + 7
      invariant i <= PROBE_LENGTH + 7 && j <= 8 && Longest(stream[..i], j)
      invariant j == 8 <==> i >= 8 && OccursAt(stream, i - 8)
      invariant forall k :: 0 <= k < i - 8 ==> !OccursAt(stream, k)
      decreases PROBE_LENGTH + 7 - i
    {
      OneByte(stream, i, j);
      j := Next(j, stream[i]);
      i := i + 1;
    }
    found := j == 8;
  }

  /** The PROM delivers its 32 bytes around and around, from an arbitrary place on. */
  ghost predicate Cyclic(stream: seq<Byte>, prom: seq<Byte>, start: nat) {
    |prom| == PROBE_LENGTH && forall i :: 0 <= i < |stream| ==> stream[i] == prom[(start + i) % PROBE_LENGTH]
  }

  ghost predicate Contains(prom: seq<Byte>, at: nat) {
    |prom| == PROBE_LENGTH && at < PROBE_LENGTH && forall i :: 0 <= i < 8 ==> prom[(at + i) % PROBE_LENGTH] == SIG[i]
  }

  lemma SameIndex(start: nat, at: nat, k: nat, i: nat)
    requires at < 32 && k == (at + 32 - start % 32) % 32
    ensures (start + (k + i)) % 32 == (at + i) % 32
  {
    var q, r := start / 32, start % 32;
    assert start == 32 * q + r;
    assert k == if at >= r then at - r else at + 32 - r;
  }

  /** Wherever the address counter starts, 39 reads are enough. */
  lemma EveryRotationIsCovered(stream: seq<Byte>, prom: seq<Byte>, start: nat, at: nat)
    requires |stream| >= PROBE_LENGTH + 7 && Cyclic(stream, prom, start) && Contains(prom, at)
    ensures exists k :: 0 <= k < PROBE_LENGTH && OccursAt(stream, k)
  {
    var k := (at + PROBE_LENGTH - start % PROBE_LENGTH) % PROBE_LENGTH;
    forall i | 0 <= i < 8 ensures stream[k..k + 8][i] == SIG[i] {
      SameIndex(start, at, k, i);
      assert stream[k + i] == prom[(start + (k + i)) % PROBE_LENGTH];
      assert prom[(at + i) % PROBE_LENGTH] == SIG[i];
    }
    assert OccursAt(stream, k);
  }
}
