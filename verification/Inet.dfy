/**
  Internet addresses as text, in netboot/misc.c: the `%d` and `%@` conversions
  of `etherboot_vsprintf`, and `getdec` and `inet_aton`, which read the text
  back.
 */
module Inet {
  import opened Wrappers

  function DigitChar(d: nat): char
    requires d < 10
  {
    '0' + d as char
  }

  predicate IsDigit(c: char) {
    '0' <= c <= '9'
  }

  function DigitValue(c: char): (d: nat)
    requires IsDigit(c)
    ensures d < 10
  {
    c as int - '0' as int
  }

  /** The decimal numeral of `n`. */
  function Numeral(n: nat): (s: string)
    ensures |s| >= 1 && forall i :: 0 <= i < |s| ==> IsDigit(s[i])
  {
    (if n < 10 then [] else Numeral(n / 10)) + [DigitChar(n % 10)]
  }

  /** The number a string of digits stands for. */
  function Value(s: string): nat
    requires forall i :: 0 <= i < |s| ==> IsDigit(s[i])
  {
    if s == [] then 0 else 10 * Value(s[..|s| - 1]) + DigitValue(s[|s| - 1])
  }

  lemma DigitReadsBack(d: nat)
    requires d < 10
    ensures DigitValue(DigitChar(d)) == d
  {
  }

  /** The digits are those of every numeral. */
  lemma Digits(d: nat)
    requires d < 10
    ensures DigitChar(d) == "0123456789"[d] && IsDigit("0123456789"[d]) && DigitValue("0123456789"[d]) == d
  {
  }

  lemma {:induction false} ValueOfNumeral(n: nat)
    ensures Value(Numeral(n)) == n
  {
    hide DigitChar, DigitValue;
    var front := if n < 10 then [] else Numeral(n / 10);
    if n >= 10 {
      ValueOfNumeral(n / 10);
    }
    DigitReadsBack(n % 10);
    assert Numeral(n) == front + [DigitChar(n % 10)];
    assert Numeral(n)[..|front|] == front;
  }

  // ----- printing

  function Reversed(s: string): (r: string)
    ensures |r| == |s| && forall i :: 0 <= i < |s| ==> r[i] == s[|s| - 1 - i]
  {
    if s == [] then [] else Reversed(s[1..]) + [s[0]]
  }

  lemma ReversedGrows(c: char, s: string)
    ensures Reversed([c] + s) == Reversed(s) + [c]
  {
    assert ([c] + s)[1..] == s;
  }

  lemma NumeralSplits(n: nat, done: string)
    ensures var front, last := Numeral(n / 10), [DigitChar(n % 10)];
      if n < 10 then Numeral(n) == last
      else Numeral(n) + done == front + (last + done) && |Numeral(n)| == |front| + 1
  {
    hide DigitChar;
  }

  /** The digit loop: lowest digit first. */
  method PutDigits(tmp: array<char>, at: nat, n0: nat) returns (q: nat)
    requires at + |Numeral(n0)| <= tmp.Length
    modifies tmp
    ensures q == at + |Numeral(n0)| && tmp[at..q] == Reversed(Numeral(n0)) && tmp[..at] == old(tmp[..at])
  {
    hide *;
    q := at;
    var n := n0;
    ghost var done := "";
    while true
      invariant at <= q == at + |done| && q + |Numeral(n)| <= tmp.Length
      invariant Numeral(n) + done == Numeral(n0)
      invariant tmp[at..q] == Reversed(done) && tmp[..at] == old(tmp[..at])
      decreases n
    {
      NumeralSplits(n, done);
      ReversedGrows(DigitChar(n % 10), done);
      tmp[q] := DigitChar(n % 10);
      q := q + 1;
      done := [DigitChar(n % 10)] + done;
      n := n / 10;
      if n == 0 {
        break;
      }
    }
  }

  lemma MirroredIsReversed(s: string, t: string, from: nat, to: nat)
    requires from <= to <= |s| == |t| && forall k :: from <= k < to ==> t[k] == s[from + to - 1 - k]
    ensures t[from..to] == Reversed(s[from..to])
  {
    hide Reversed;
    forall i | 0 <= i < to - from ensures t[from..to][i] == Reversed(s[from..to])[i] {
      assert t[from + i] == s[to - 1 - i];
    }
  }

  /** `r = q; while (--r > p) swap (*r, *p++)` */
  method ReverseInPlace(tmp: array<char>, from: nat, to: nat)
    requires from < to <= tmp.Length
    modifies tmp
    ensures tmp[from..to] == Reversed(old(tmp[from..to])) && tmp[..from] == old(tmp[..from])
  {
    hide Reversed;
    ghost var s := tmp[..];
    var p: int, r: int := from, to - 1;
    while r > p
      invariant from <= p <= r + 1 <= to && p - from == to - 1 - r
      invariant forall k :: from <= k < to && (k < p || k > r) ==> tmp[k] == s[from + to - 1 - k]
      invariant forall k :: p <= k <= r ==> tmp[k] == s[k]
      invariant forall k :: 0 <= k < from ==> tmp[k] == s[k]
    {
      tmp[r], tmp[p] := tmp[p], tmp[r];
      p, r := p + 1, r - 1;
    }
    MirroredIsReversed(s, tmp[..], from, to);
    assert tmp[..][from..to] == tmp[from..to] && s[from..to] == old(tmp[from..to]);
  }

  /** `%d` of a number that is not negative: the numeral, written from `at` on. */
  method PutDecimal(tmp: array<char>, at: nat, n: nat) returns (q: nat)
    requires at + |Numeral(n)| <= tmp.Length
    modifies tmp
    ensures q == at + |Numeral(n)| && tmp[at..q] == Numeral(n) && tmp[..at] == old(tmp[..at])
  {
    q := PutDigits(tmp, at, n);
    ReverseInPlace(tmp, at, q);
    ghost var s := Numeral(n);
    assert forall i :: 0 <= i < |s| ==> Reversed(Reversed(s))[i] == s[i];
    assert Reversed(Reversed(s)) == s;
  }

  /** Byte `i` of a 32-bit number in memory, on a little-endian machine. */
  function ByteOf(l: nat, i: nat): (b: nat)
    requires l < 0x1_0000_0000 && i < 4
    ensures b < 256
  {
    if i == 0 then l % 256 else if i == 1 then l / 256 % 256 else if i == 2 then l / 65536 % 256 else l / 16777216
  }

  lemma ByteNumeral(b: nat)
    requires b < 256
    ensures 1 <= |Numeral(b)| <= 3
  {
    assert b < 100 ==> |Numeral(b / 10)| <= 1;
    assert |Numeral(b / 10 / 10)| == 1;
  }

  /** The first `n` bytes of an address, each followed by a dot. */
  ghost function Dots(l: nat, n: nat): string
    requires l < 0x1_0000_0000 && n <= 4
  {
    if n == 0 then "" else Dots(l, n - 1) + Numeral(ByteOf(l, n - 1)) + "."
  }

  /** An address in dotted notation. */
  ghost function Dotted(l: nat): string
    requires l < 0x1_0000_0000
  {
    Dots(l, 3) + Numeral(ByteOf(l, 3))
  }

  lemma NumeralExamples()
    ensures Numeral(0) == "0" && Numeral(1) == "1" && Numeral(192) == "192" && Numeral(168) == "168"
  {
    assert Numeral(19) == "19" && Numeral(16) == "16";
  }

  /** The first byte of an address stands in its lowest bits. */
  lemma DottedExample()
    ensures Dotted(0x0100A8C0) == "192.168.0.1"
  {
    var l := 0x0100A8C0;
    assert ByteOf(l, 0) == 192 && ByteOf(l, 1) == 168 && ByteOf(l, 2) == 0 && ByteOf(l, 3) == 1;
    hide Numeral, ByteOf;
    NumeralExamples();
    assert Dots(l, 0) == "" && Dots(l, 1) == "192.";
    assert Dots(l, 2) == "192.168.";
    assert Dots(l, 3) == "192.168.0.";
  }

  /** `%@`: four times "%d.", and the last dot taken back. */
  method PutAddress(tmp: array<char>, l: nat) returns (q: nat)
    requires tmp.Length >= 20 && l < 0x1_0000_0000
    modifies tmp
    ensures q <= tmp.Length && tmp[..q] == Dotted(l)
  {
    q := 0;
    for r := 0 to 4
      invariant q <= 4 * r && tmp[..q] == Dots(l, r)
    {
      ByteNumeral(ByteOf(l, r));
      ghost var done := tmp[..q];
      ghost var from := q;
      q := PutDecimal(tmp, q, ByteOf(l, r));
      assert tmp[..q] == done + Numeral(ByteOf(l, r));
      tmp[q] := '.';
      tmp[q + 1] := '\0';
      assert tmp[..q + 1] == done + Numeral(ByteOf(l, r)) + ".";
      q := q + 1;
    }
    q := q - 1;
    assert tmp[..q] == tmp[..q + 1][..q];
    assert Dots(l, 4)[..q] == Dotted(l);
  }

  // ----- reading

  /** The end of the digits that begin at `pos`. */
  function Run(s: string, pos: nat): (e: nat)
    requires pos <= |s|
    ensures pos <= e <= |s| && (forall i :: pos <= i < e ==> IsDigit(s[i])) && (e < |s| ==> !IsDigit(s[e]))
    decreases |s| - pos
  {
    if pos < |s| && IsDigit(s[pos]) then Run(s, pos + 1) else pos
  }

  /** `getdec`: the number at `pos` and the position behind it, or -1 without digits. */
  method GetDec(s: string, pos: nat) returns (val: int, next: nat)
    requires pos <= |s|
    ensures next == Run(s, pos)
    ensures val == if next == pos then -1 else Value(s[pos..next])
  {
    next := pos;
    if pos == |s| || !IsDigit(s[pos]) {
      return -1, pos;
    }
    val := 0;
    assert s[pos..pos] == [];
    while next < |s| && IsDigit(s[next])
      invariant pos <= next <= |s| && Run(s, pos) == Run(s, next) && (next == pos ==> IsDigit(s[pos]))
      invariant forall i :: pos <= i < next ==> IsDigit(s[i])
      invariant val == Value(s[pos..next])
    {
      assert s[pos..next + 1][..next - pos] == s[pos..next];
      val := val * 10 + DigitValue(s[next]);
      next := next + 1;
    }
  }

  /** `count` numbers of one byte each, separated by dots, from `pos` on, appended to `ip`. */
  ghost function ReadBytes(s: string, pos: nat, count: nat, ip: nat): Option<nat>
    requires pos <= |s|
    decreases count
  {
    if count == 0 then Some(ip) else
    var e := Run(s, pos);
    if e == pos || Value(s[pos..e]) > 255 then None
    else if count == 1 then Some(ip * 256 + Value(s[pos..e]))
    else if e == |s| || s[e] != '.' then None
    else ReadBytes(s, e + 1, count - 1, ip * 256 + Value(s[pos..e]))
  }

  /** `htonl` on a little-endian machine. */
  function Htonl(ip: nat): (l: nat)
    requires ip < 0x1_0000_0000
    ensures l < 0x1_0000_0000
  {
    ByteOf(ip, 0) * 16777216 + ByteOf(ip, 1) * 65536 + ByteOf(ip, 2) * 256 + ByteOf(ip, 3)
  }

  lemma {:induction false} ReadBytesBound(s: string, pos: nat, count: nat, ip: nat)
    requires pos <= |s| && count <= 4
    requires ip < (if count == 4 then 1 else if count == 3 then 256 else if count == 2 then 65536
                                               else if count == 1 then 16777216 else 0x1_0000_0000)
    ensures ReadBytes(s, pos, count, ip).Some? ==> ReadBytes(s, pos, count, ip).value < 0x1_0000_0000
    decreases count
  {
    var e := Run(s, pos);
    if count > 1 && e != pos && Value(s[pos..e]) <= 255 && e < |s| {
      ReadBytesBound(s, e + 1, count - 1, ip * 256 + Value(s[pos..e]));
    }
  }

  /** `inet_aton`: anything but four numbers of one byte each, separated by dots, is refused; what follows the
      fourth number does not matter. */
  method InetAton(s: string) returns (addr: Option<nat>)
    ensures addr.None? <==> ReadBytes(s, 0, 4, 0).None?
    ensures addr.Some? ==>
              ReadBytes(s, 0, 4, 0).value < 0x1_0000_0000 && addr.value == Htonl(ReadBytes(s, 0, 4, 0).value)
  {
    hide Run, Value;
    ReadBytesBound(s, 0, 4, 0);
    var ip: nat, pos: nat := 0, 0;
    for i := 0 to 4
      invariant pos <= |s| && ReadBytes(s, 0, 4, 0) == ReadBytes(s, pos, 4 - i, ip)
    {
      var val, next := GetDec(s, pos);
      if val < 0 || val > 255 {
        return None;
      }
      pos := next;
      if i != 3 {
        if pos == |s| || s[pos] != '.' {
          return None;
        }
        pos := pos + 1;
      }
      ip := ip * 256 + val;
    }
    return Some(Htonl(ip));
  }

  // ----- reading what was printed

  /** A numeral in the middle of a text is read as its number. */
  lemma RunOfNumeral(before: string, n: nat, after: string)
    requires after == "" || !IsDigit(after[0])
    ensures var s := before + Numeral(n) + after;
      Run(s, |before|) == |before| + |Numeral(n)| && s[|before|..|before| + |Numeral(n)|] == Numeral(n)
  {
    var s, e := before + Numeral(n) + after, |before| + |Numeral(n)|;
    assert s[|before|..e] == Numeral(n);
    assert forall i :: |before| <= i < e ==> s[i] == Numeral(n)[i - |before|];
    assert e < |s| ==> s[e] == after[0];
  }

  lemma ReadStep(s: string, pos: nat, e: nat, n: nat, count: nat, ip: nat)
    requires pos < e <= |s| && Run(s, pos) == e && Value(s[pos..e]) == n < 256
    requires count >= 1 && (count > 1 ==> e < |s| && s[e] == '.')
    ensures ReadBytes(s, pos, count, ip) ==
              if count == 1 then Some(ip * 256 + n) else ReadBytes(s, e + 1, count - 1, ip * 256 + n)
  {
  }

  lemma ReadNumeral(before: string, n: nat, after: string, count: nat, ip: nat)
    requires n < 256 && count >= 1 && (after == "" || !IsDigit(after[0]))
    requires (count > 1 ==> after != "" && after[0] == '.')
    ensures var s, e := before + Numeral(n) + after, |before| + |Numeral(n)|;
      && e <= |s| && (count > 1 ==> e + 1 <= |s|)
      && ReadBytes(s, |before|, count, ip) ==
           if count == 1 then Some(ip * 256 + n) else ReadBytes(s, e + 1, count - 1, ip * 256 + n)
  {
    hide Run, Value, ReadBytes, Numeral, IsDigit;
    var s, e := before + Numeral(n) + after, |before| + |Numeral(n)|;
    RunOfNumeral(before, n, after);
    ValueOfNumeral(n);
    assert count > 1 ==> s[e] == after[0];
    ReadStep(s, |before|, e, n, count, ip);
  }

  /** What follows byte `k` of a printed address with `tail` behind it. */
  ghost function Behind(l: nat, k: nat, tail: string): string
    requires l < 0x1_0000_0000 && k < 4
    decreases 4 - k
  {
    if k == 3 then tail else "." + (Numeral(ByteOf(l, k + 1)) + Behind(l, k + 1, tail))
  }

  lemma {:induction false} PrintedSplit(l: nat, k: nat, tail: string)
    requires l < 0x1_0000_0000 && k < 4
    ensures Dotted(l) + tail == Dots(l, k) + Numeral(ByteOf(l, k)) + Behind(l, k, tail)
    decreases 4 - k
  {
    hide Numeral, ByteOf;
    if k < 3 {
      PrintedSplit(l, k + 1, tail);
      assert Dots(l, k + 1) == Dots(l, k) + Numeral(ByteOf(l, k)) + ".";
      hide Dots, Dotted;
      var a, b, c := Dots(l, k) + Numeral(ByteOf(l, k)), Numeral(ByteOf(l, k + 1)), Behind(l, k + 1, tail);
      assert (a + ".") + b + c == a + ("." + (b + c));
    }
  }

  lemma AroundByte(l: nat, k: nat, tail: string)
    requires l < 0x1_0000_0000 && k < 4
    requires tail == "" || !IsDigit(tail[0])
    ensures |Dots(l, k + 1)| == |Dots(l, k)| + |Numeral(ByteOf(l, k))| + 1
    ensures Behind(l, k, tail) == "" || !IsDigit(Behind(l, k, tail)[0])
    ensures if k < 3 then Behind(l, k, tail) != "" && Behind(l, k, tail)[0] == '.' else Behind(l, k, tail) == tail
  {
    hide Numeral, ByteOf;
  }

  /** Byte `k` of a printed address is read as that byte. */
  lemma ReadByte(l: nat, k: nat, tail: string, s: string, ip: nat)
    requires l < 0x1_0000_0000 && k < 4 && s == Dotted(l) + tail && (tail == "" || !IsDigit(tail[0]))
    ensures |Dots(l, k)| <= |s| && (k < 3 ==> |Dots(l, k + 1)| <= |s|)
    ensures ReadBytes(s, |Dots(l, k)|, 4 - k, ip) ==
              if k == 3 then Some(ip * 256 + ByteOf(l, k))
              else ReadBytes(s, |Dots(l, k + 1)|, 3 - k, ip * 256 + ByteOf(l, k))
  {
    hide *;
    PrintedSplit(l, k, tail);
    AroundByte(l, k, tail);
    ReadNumeral(Dots(l, k), ByteOf(l, k), Behind(l, k, tail), 4 - k, ip);
  }

  lemma BytesOfSum(a: nat, b: nat, c: nat, d: nat)
    requires a < 256 && b < 256 && c < 256 && d < 256
    ensures var x := ((a * 256 + b) * 256 + c) * 256 + d;
      x < 0x1_0000_0000 && ByteOf(x, 0) == d && ByteOf(x, 1) == c && ByteOf(x, 2) == b && ByteOf(x, 3) == a
  {
    var x := ((a * 256 + b) * 256 + c) * 256 + d;
    assert x / 256 == (a * 256 + b) * 256 + c;
    assert x / 65536 == a * 256 + b;
    assert x / 16777216 == a;
  }

  lemma SumOfBytes(l: nat)
    requires l < 0x1_0000_0000
    ensures l == ByteOf(l, 3) * 16777216 + ByteOf(l, 2) * 65536 + ByteOf(l, 1) * 256 + ByteOf(l, 0)
  {
    var q := l / 256;
    var r := q / 256;
    assert l / 65536 == r && l / 16777216 == r / 256;
  }

  lemma HtonlOfBytes(l: nat)
    requires l < 0x1_0000_0000
    ensures var ip := ((ByteOf(l, 0) * 256 + ByteOf(l, 1)) * 256 + ByteOf(l, 2)) * 256 + ByteOf(l, 3);
      ip < 0x1_0000_0000 && Htonl(ip) == l
  {
    hide ByteOf;
    BytesOfSum(ByteOf(l, 0), ByteOf(l, 1), ByteOf(l, 2), ByteOf(l, 3));
    SumOfBytes(l);
  }

  /** The bytes from `k` on, appended to `ip` one after the other. */
  ghost function Gather(l: nat, k: nat, ip: nat): nat
    requires l < 0x1_0000_0000 && k <= 4
    decreases 4 - k
  {
    if k == 4 then ip else Gather(l, k + 1, ip * 256 + ByteOf(l, k))
  }

  lemma {:induction false} ReadRest(l: nat, k: nat, tail: string, s: string, ip: nat)
    requires l < 0x1_0000_0000 && k < 4 && s == Dotted(l) + tail && (tail == "" || !IsDigit(tail[0]))
    ensures |Dots(l, k)| <= |s| && ReadBytes(s, |Dots(l, k)|, 4 - k, ip) == Some(Gather(l, k, ip))
    decreases 4 - k
  {
    hide Dots, Dotted, ReadBytes, ByteOf;
    ReadByte(l, k, tail, s, ip);
    if k < 3 {
      ReadRest(l, k + 1, tail, s, ip * 256 + ByteOf(l, k));
    }
  }

  lemma GatherFour(l: nat)
    requires l < 0x1_0000_0000
    ensures Gather(l, 0, 0) == ((ByteOf(l, 0) * 256 + ByteOf(l, 1)) * 256 + ByteOf(l, 2)) * 256 + ByteOf(l, 3)
    ensures |Dots(l, 0)| == 0
  {
    hide ByteOf;
  }

  /** Every address comes back from its dotted notation, whatever follows it that is not a digit. */
  lemma DottedReadsBack(l: nat, tail: string)
    requires l < 0x1_0000_0000 && (tail == "" || !IsDigit(tail[0]))
    ensures var ip := ReadBytes(Dotted(l) + tail, 0, 4, 0); ip.Some? && ip.value < 0x1_0000_0000 && Htonl(ip.value) == l
  {
    hide *;
    ReadRest(l, 0, tail, Dotted(l) + tail, 0);
    GatherFour(l);
    HtonlOfBytes(l);
  }

  /** Printing an address and reading it back. */
  method PrintAndRead(l: nat) returns (addr: Option<nat>)
    requires l < 0x1_0000_0000
    ensures addr == Some(l)
  {
    hide Dotted, ReadBytes, Htonl;
    var tmp := new char[20](_ => ' ');
    var q := PutAddress(tmp, l);
    DottedReadsBack(l, "");
    assert Dotted(l) + "" == Dotted(l);
    addr := InetAton(tmp[..q]);
  }
}
