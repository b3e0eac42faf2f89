/**
  EFI device paths as efi/efidp.c reads them: a chain of nodes in memory, each
  with a four-byte header (type, subtype, 16-bit length), closed by an end node
  (section 10.3.1 of the UEFI Specification 2.10).
 */
module DevicePath {
  import opened Wrappers
  import opened Numbers
  import opened Sequences

  /** A node is its bytes, the header included. */
  type Node = seq<Byte>

  const END_TYPE: Byte := 0x7f
  const END_ENTIRE: Byte := 0xff

  // ----- reading nodes out of memory

  function LengthAt(m: seq<Byte>, o: nat): nat
    requires o + 4 <= |m|
  {
    var high: int := m[o + 3];
    m[o + 2] + 256 * high
  }

  /** GRUB_EFI_END_ENTIRE_DEVICE_PATH; the top bit of the type is masked out. */
  predicate EndAt(m: seq<Byte>, o: nat)
    requires o + 4 <= |m|
  {
    m[o] % 128 == END_TYPE && m[o + 1] == END_ENTIRE
  }

  /** A node that has its header inside the memory and a length that covers the header. */
  predicate NodeAt(m: seq<Byte>, o: nat) {
    o + 4 <= |m| && 4 <= LengthAt(m, o) && o + LengthAt(m, o) <= |m|
  }

  /** A chain of nodes that ends. */
  ghost predicate PathAt(m: seq<Byte>, o: nat)
    decreases |m| - o
  {
    NodeAt(m, o) && (EndAt(m, o) || PathAt(m, o + LengthAt(m, o)))
  }

  ghost predicate IsPath(ns: seq<Node>) {
    forall i :: 0 <= i < |ns| ==> |ns[i]| >= 4
  }

  /** The nodes of a path, the end node included. */
  ghost function Nodes(m: seq<Byte>, o: nat): (ns: seq<Node>)
    requires PathAt(m, o)
    ensures ns != [] && IsPath(ns)
    ensures EndAt(m, o) <==> |ns| == 1
    decreases |m| - o
  {
    var len := LengthAt(m, o);
    [m[o..o + len]] + if EndAt(m, o) then [] else Nodes(m, o + len)
  }

  // ----- the order of paths

  function SignedByte(b: Byte): int { if b < 128 then b else b - 256 }

  /** What decides between two nodes, most important first: a HIGHER type comes first, then the lower
      subtype, the shorter node, and the lower bytes, read as signed characters. */
  ghost function Key(x: Node): seq<int>
    requires |x| >= 2
  {
    [127 - x[0] % 128, x[1], |x|] + seq(|x|, i requires 0 <= i < |x| => SignedByte(x[i]))
  }

  ghost function PathKey(ns: seq<Node>): seq<int>
    requires IsPath(ns)
  {
    if ns == [] then [] else Key(ns[0]) + PathKey(ns[1..])
  }

  /** Lexicographic comparison: negative, zero or positive. */
  ghost function Lex(a: seq<int>, b: seq<int>): int {
    if a == [] || b == [] then |a| - |b|
    else if a[0] != b[0] then a[0] - b[0]
    else Lex(a[1..], b[1..])
  }

  lemma {:induction false} LexZero(a: seq<int>, b: seq<int>)
    ensures Lex(a, b) == 0 <==> a == b
  {
    if a != [] && b != [] {
      LexZero(a[1..], b[1..]);
      assert a == [a[0]] + a[1..] && b == [b[0]] + b[1..];
    }
  }

  lemma {:induction false} LexFlip(a: seq<int>, b: seq<int>)
    ensures Lex(a, b) < 0 <==> Lex(b, a) > 0
  {
    if a != [] && b != [] {
      LexFlip(a[1..], b[1..]);
    }
  }

  lemma {:induction false} LexTransitive(a: seq<int>, b: seq<int>, c: seq<int>)
    requires Lex(a, b) <= 0 && Lex(b, c) <= 0
    ensures Lex(a, c) <= 0 && (Lex(a, c) == 0 ==> Lex(a, b) == 0 && Lex(b, c) == 0)
  {
    if a != [] && b != [] && c != [] && a[0] == b[0] == c[0] {
      LexTransitive(a[1..], b[1..], c[1..]);
    }
  }

  /** A common beginning does not matter. */
  lemma {:induction false} LexCommon(p: seq<int>, a: seq<int>, b: seq<int>)
    ensures Lex(p + a, p + b) == Lex(a, b)
  {
    if p == [] {
      assert p + a == a && p + b == b;
    } else {
      LexCommon(p[1..], a, b);
      assert (p + a)[1..] == p[1..] + a && (p + b)[1..] == p[1..] + b;
    }
  }

  /** The first difference decides. */
  lemma LexAt(a: seq<int>, b: seq<int>, i: nat)
    requires i < |a| && i < |b| && a[..i] == b[..i] && a[i] != b[i]
    ensures Lex(a, b) == a[i] - b[i]
  {
    LexCommon(a[..i], a[i..], b[i..]);
    assert a == a[..i] + a[i..] && b == b[..i] + b[i..];
  }

  /** Different nodes are told apart by their keys, at a place inside both keys. */
  lemma KeyInjective(x: Node, y: Node)
    requires |x| >= 4 && |y| >= 4 && Key(x) == Key(y)
    ensures x == y
  {
    assert |x| == Key(x)[2] == Key(y)[2] == |y|;
    forall i | 0 <= i < |x| ensures x[i] == y[i] {
      assert Key(x)[3 + i] == SignedByte(x[i]) && Key(y)[3 + i] == SignedByte(y[i]);
    }
  }

  /** Two keys agree in length or differ before the end of the shorter one. */
  lemma KeysSplit(x: Node, y: Node, s: seq<int>, t: seq<int>)
    requires |x| >= 4 && |y| >= 4 && Key(x) + s == Key(y) + t
    ensures Key(x) == Key(y) && s == t
  {
    var a, b := Key(x) + s, Key(y) + t;
    assert a[2] == |x| && b[2] == |y|;
    assert Key(x) == a[..3 + |x|] && Key(y) == b[..3 + |y|];
    assert s == a[3 + |x|..] && t == b[3 + |y|..];
  }

  lemma {:induction false} PathKeyInjective(ns: seq<Node>, ms: seq<Node>)
    requires IsPath(ns) && IsPath(ms)
    requires PathKey(ns) == PathKey(ms)
    ensures ns == ms
  {
    if ns != [] && ms != [] {
      KeysSplit(ns[0], ms[0], PathKey(ns[1..]), PathKey(ms[1..]));
      KeyInjective(ns[0], ms[0]);
      PathKeyInjective(ns[1..], ms[1..]);
      assert ns == [ns[0]] + ns[1..] && ms == [ms[0]] + ms[1..];
    }
  }

  /** Negative, zero or positive as `ns` comes before, is the same as, or comes after `ms`. */
  ghost function Order(ns: seq<Node>, ms: seq<Node>): int
    requires IsPath(ns) && IsPath(ms)
  {
    Lex(PathKey(ns), PathKey(ms))
  }

  /** The comparison is a total order: zero exactly for identical node sequences, antisymmetric, transitive. */
  lemma OrderIsTotal(a: seq<Node>, b: seq<Node>, c: seq<Node>)
    requires IsPath(a) && IsPath(b) && IsPath(c)
    ensures Order(a, b) == 0 <==> a == b
    ensures Order(a, b) < 0 <==> Order(b, a) > 0
    ensures Order(a, b) < 0 && Order(b, c) < 0 ==> Order(a, c) < 0
  {
    LexZero(PathKey(a), PathKey(b));
    if PathKey(a) == PathKey(b) {
      PathKeyInjective(a, b);
    }
    LexFlip(PathKey(a), PathKey(b));
    if Order(a, b) < 0 && Order(b, c) < 0 {
      LexTransitive(PathKey(a), PathKey(b), PathKey(c));
    }
  }

  // ----- the operations

  /** `grub_memcmp` of two areas of the same length; `k` is where they first differ. */
  method Memcmp(x: seq<Byte>, y: seq<Byte>) returns (r: int, ghost k: nat)
    requires |x| == |y|
    ensures r == 0 ==> x == y
    ensures r != 0 ==> k < |x| && x[..k] == y[..k] && x[k] != y[k] && (r < 0 <==> SignedByte(x[k]) < SignedByte(y[k]))
  {
    k := 0;
    var i := 0;
    while i < |x|
      invariant k == i <= |x| && x[..i] == y[..i]
    {
      if SignedByte(x[i]) < SignedByte(y[i]) {
        return -1, i;
      } else if SignedByte(x[i]) > SignedByte(y[i]) {
        return 1, i;
      }
      i, k := i + 1, i + 1;
    }
    return 0, k;
  }

  function TypeOf(x: Node): int requires |x| >= 4 { x[0] % 128 }

  function SubtypeOf(x: Node): int requires |x| >= 4 { x[1] }

  /** Headers that differ decide, in the order type, subtype, length. */
  lemma HeaderDecides(x: Node, y: Node, s: seq<int>, t: seq<int>)
    requires |x| >= 4 && |y| >= 4
    ensures TypeOf(x) != TypeOf(y) ==> Lex(Key(x) + s, Key(y) + t) == TypeOf(y) - TypeOf(x)
    ensures TypeOf(x) == TypeOf(y) && SubtypeOf(x) != SubtypeOf(y) ==>
              Lex(Key(x) + s, Key(y) + t) == SubtypeOf(x) - SubtypeOf(y)
    ensures TypeOf(x) == TypeOf(y) && SubtypeOf(x) == SubtypeOf(y) && |x| != |y| ==>
              Lex(Key(x) + s, Key(y) + t) == |x| - |y|
  {
    var a, b := Key(x) + s, Key(y) + t;
    if TypeOf(x) != TypeOf(y) {
      LexAt(a, b, 0);
    } else if SubtypeOf(x) != SubtypeOf(y) {
      LexAt(a, b, 1);
    } else if |x| != |y| {
      LexAt(a, b, 2);
    }
  }

  /** With equal headers the first different byte decides. */
  lemma ByteDecides(x: Node, y: Node, k: nat, s: seq<int>, t: seq<int>)
    requires |x| == |y| >= 4 && TypeOf(x) == TypeOf(y) && SubtypeOf(x) == SubtypeOf(y)
    requires k < |x| && x[..k] == y[..k] && x[k] != y[k]
    ensures Lex(Key(x) + s, Key(y) + t) == SignedByte(x[k]) - SignedByte(y[k])
  {
    var a, b := Key(x) + s, Key(y) + t;
    forall i | 0 <= i < 3 + k ensures a[i] == b[i] {
      if i >= 3 {
        assert x[i - 3] == x[..k][i - 3] == y[..k][i - 3] == y[i - 3];
      }
    }
    LexAt(a, b, 3 + k);
  }

  /** The lower byte, where those from 0x80 on are lower than the others: they are negative as characters. */
  ghost predicate LowerByte(a: Byte, b: Byte) {
    if a >= 0x80 && b < 0x80 then true else if a < 0x80 && b >= 0x80 then false else a < b
  }

  /** Which of two paths of one node comes first, by the bytes of their nodes. */
  lemma OrderOfNodes(x: Node, y: Node, k: nat)
    requires |x| >= 4 && |y| >= 4
    requires |x| == |y| && x != y ==> k < |x| && x[..k] == y[..k] && x[k] != y[k]
    ensures x != y ==>
              (Order([x], [y]) < 0 <==>
                 if x[0] % 128 != y[0] % 128 then x[0] % 128 > y[0] % 128
                 else if x[1] != y[1] then x[1] < y[1]
                 else if |x| != |y| then |x| < |y|
                 else LowerByte(x[k], y[k]))
  {
    OneNodeKey(x);
    OneNodeKey(y);
    hide Key, PathKey;
    HeaderDecides(x, y, [], []);
    if TypeOf(x) == TypeOf(y) && SubtypeOf(x) == SubtypeOf(y) && |x| == |y| && x != y {
      ByteDecides(x, y, k, [], []);
    }
  }

  lemma OneNodeKey(x: Node)
    requires |x| >= 4
    ensures PathKey([x]) == Key(x) + []
  {
    hide Key;
    assert [x][1..] == [];
  }

  lemma HighByteFirst()
    ensures Order([[1, 1, 5, 0, 0x80]], [[1, 1, 5, 0, 0x01]]) < 0
  {
    var x: Node, y: Node := [1, 1, 5, 0, 0x80], [1, 1, 5, 0, 0x01];
    OrderOfNodes(x, y, 4);
  }

  /** Compares one pair of nodes as `compare_device_paths` does; zero if they are the same. */
  method CompareNodes(x: Node, y: Node, ghost s: seq<int>, ghost t: seq<int>) returns (r: int)
    requires |x| >= 4 && |y| >= 4
    ensures if r == 0 then x == y else (r < 0 <==> Lex(Key(x) + s, Key(y) + t) < 0) && Lex(Key(x) + s, Key(y) + t) != 0
  {
    HeaderDecides(x, y, s, t);
    if TypeOf(x) != TypeOf(y) {
      return TypeOf(y) - TypeOf(x);
    }
    if SubtypeOf(x) != SubtypeOf(y) {
      return SubtypeOf(x) - SubtypeOf(y);
    }
    if |x| != |y| {
      return |x| - |y|;
    }
    ghost var k;
    r, k := Memcmp(x, y);
    if r != 0 {
      ByteDecides(x, y, k, s, t);
    }
  }

  /** The order of two paths is that of their first nodes, or of what follows if those are the same. */
  lemma OrderByFirst(m1: seq<Byte>, o1: nat, m2: seq<Byte>, o2: nat)
    requires PathAt(m1, o1) && PathAt(m2, o2) && Nodes(m1, o1)[0] == Nodes(m2, o2)[0]
    ensures EndAt(m1, o1) == EndAt(m2, o2)
    ensures EndAt(m1, o1) ==> Order(Nodes(m1, o1), Nodes(m2, o2)) == 0
    ensures !EndAt(m1, o1) ==>
              var n1, n2 := o1 + LengthAt(m1, o1), o2 + LengthAt(m2, o2);
              && PathAt(m1, n1) && PathAt(m2, n2)
              && Order(Nodes(m1, o1), Nodes(m2, o2)) == Order(Nodes(m1, n1), Nodes(m2, n2))
  {
    var ns, ms := Nodes(m1, o1), Nodes(m2, o2);
    assert ns[0][0] == m1[o1] && ms[0][0] == m2[o2] && ns[0][1] == m1[o1 + 1] && ms[0][1] == m2[o2 + 1];
    LexCommon(Key(ns[0]), PathKey(ns[1..]), PathKey(ms[1..]));
  }

  method CompareFirst(m1: seq<Byte>, o1: nat, m2: seq<Byte>, o2: nat) returns (r: int)
    requires PathAt(m1, o1) && PathAt(m2, o2)
    ensures o1 + 4 <= |m1| && o2 + 4 <= |m2| && 0 < LengthAt(m1, o1) && o1 + LengthAt(m1, o1) <= |m1|
    ensures r == 0 ==> Nodes(m1, o1)[0] == Nodes(m2, o2)[0]
    ensures r != 0 ==> var order := Order(Nodes(m1, o1), Nodes(m2, o2)); order != 0 && (r < 0 <==> order < 0)
  {
    ghost var ns, ms := Nodes(m1, o1), Nodes(m2, o2);
    r := CompareNodes(m1[o1..o1 + LengthAt(m1, o1)], m2[o2..o2 + LengthAt(m2, o2)], PathKey(ns[1..]), PathKey(ms[1..]));
  }

  /** The loop of `compare_device_paths`. */
  method CompareAt(m1: seq<Byte>, p1: nat, m2: seq<Byte>, p2: nat) returns (r: int)
    requires PathAt(m1, p1) && PathAt(m2, p2)
    ensures r == 0 <==> Order(Nodes(m1, p1), Nodes(m2, p2)) == 0
    ensures r < 0 <==> Order(Nodes(m1, p1), Nodes(m2, p2)) < 0
  {
    hide *;
    var o1: nat, o2: nat := p1, p2;
    while true
      invariant PathAt(m1, o1) && PathAt(m2, o2)
      invariant Order(Nodes(m1, p1), Nodes(m2, p2)) == Order(Nodes(m1, o1), Nodes(m2, o2))
      decreases |m1| - o1
    {
      r := CompareFirst(m1, o1, m2, o2);
      if r != 0 {
        return;
      }
      OrderByFirst(m1, o1, m2, o2);
      if EndAt(m1, o1) {
        return 0;
      }
      o1, o2 := o1 + LengthAt(m1, o1), o2 + LengthAt(m2, o2);
    }
  }

  /** `compare_device_paths`; None stands for a null pointer. */
  method CompareDevicePaths(m1: seq<Byte>, p1: Option<nat>, m2: seq<Byte>, p2: Option<nat>) returns (r: int)
    requires p1.Some? ==> PathAt(m1, p1.value)
    requires p2.Some? ==> PathAt(m2, p2.value)
    ensures p1.None? || p2.None? ==> r == 1
    ensures p1.Some? && p2.Some? ==>
              var order := Order(Nodes(m1, p1.value), Nodes(m2, p2.value));
              (r == 0 <==> order == 0) && (r < 0 <==> order < 0)
  {
    hide *;
    if p1.None? || p2.None? {
      return 1;
    }
    r := CompareAt(m1, p1.value, m2, p2.value);
  }

  lemma FirstHeader(m: seq<Byte>, o: nat)
    requires PathAt(m, o)
    ensures o + 4 <= |m| && (EndAt(m, o) <==> |Nodes(m, o)| == 1)
  {
  }

  /** Going to the next node drops the first one. */
  lemma NextNode(m: seq<Byte>, o: nat)
    requires PathAt(m, o) && !EndAt(m, o)
    ensures var next := o + LengthAt(m, o);
      o + 4 <= next && next + 4 <= |m| && PathAt(m, next) && Nodes(m, o) == [m[o..next]] + Nodes(m, next)
  {
  }

  /** Where the node before the end node begins. */
  ghost function LastOffset(m: seq<Byte>, o: nat): (l: nat)
    requires PathAt(m, o) && !EndAt(m, o)
    ensures o <= l && l + 4 <= |m|
    decreases |m| - o
  {
    var next := o + LengthAt(m, o);
    assert PathAt(m, next);
    if EndAt(m, next) then o else LastOffset(m, next)
  }

  /** The nodes in front of the last one; the last one and the end node. */
  ghost function Front(ns: seq<Node>): seq<Node>
    requires |ns| >= 2
  {
    ns[..|ns| - 2]
  }

  ghost function Tail(ns: seq<Node>): (t: seq<Node>)
    requires |ns| >= 2
    ensures |t| == 2
  {
    ns[|ns| - 2..]
  }

  lemma {:induction false} LastOffsetIsLast(m: seq<Byte>, o: nat)
    requires PathAt(m, o) && !EndAt(m, o)
    ensures |Nodes(m, o)| >= 2 && PathAt(m, LastOffset(m, o)) && !EndAt(m, LastOffset(m, o))
    ensures Nodes(m, LastOffset(m, o)) == Tail(Nodes(m, o))
    decreases |m| - o
  {
    var next := o + LengthAt(m, o);
    NextNode(m, o);
    FirstHeader(m, next);
    if !EndAt(m, next) {
      LastOffsetIsLast(m, next);
      assert Tail(Nodes(m, o)) == Tail(Nodes(m, next));
    }
  }

  /** `find_last_device_path`. */
  method FindLast(m: seq<Byte>, o: nat) returns (r: Option<nat>)
    requires PathAt(m, o)
    ensures r.None? <==> EndAt(m, o)
    ensures r.Some? ==> r.value == LastOffset(m, o)
  {
    FirstHeader(m, o);
    if EndAt(m, o) {
      return None;
    }
    var p: nat, next: nat := o, o + LengthAt(m, o);
    while !EndAt(m, next)
      invariant PathAt(m, p) && !EndAt(m, p) && next == p + LengthAt(m, p) && PathAt(m, next)
      invariant LastOffset(m, p) == LastOffset(m, o)
      decreases |m| - p
    {
      p, next := next, next + LengthAt(m, next);
    }
    return Some(p);
  }

  // ----- copies and truncation

  ghost function Size(m: seq<Byte>, o: nat): (n: nat)
    requires PathAt(m, o)
    ensures 4 <= n && o + n <= |m|
    decreases |m| - o
  {
    LengthAt(m, o) + if EndAt(m, o) then 0 else Size(m, o + LengthAt(m, o))
  }

  /** The same bytes elsewhere are the same node. */
  lemma NodeMoved(m: seq<Byte>, o: nat, m': seq<Byte>, o': nat)
    requires NodeAt(m, o) && o' + LengthAt(m, o) <= |m'|
    requires m'[o'..o' + LengthAt(m, o)] == m[o..o + LengthAt(m, o)]
    ensures NodeAt(m', o') && LengthAt(m', o') == LengthAt(m, o) && EndAt(m', o') == EndAt(m, o)
  {
    var x, y := m[o..o + LengthAt(m, o)], m'[o'..o' + LengthAt(m, o)];
    assert m[o] == x[0] == y[0] == m'[o'] && m[o + 1] == x[1] == y[1] == m'[o' + 1];
    assert m[o + 2] == x[2] == y[2] == m'[o' + 2] && m[o + 3] == x[3] == y[3] == m'[o' + 3];
  }

  /** The same bytes elsewhere are the same path. */
  lemma {:induction false} PathMoved(m: seq<Byte>, o: nat, m': seq<Byte>, o': nat)
    requires PathAt(m, o) && o' + Size(m, o) <= |m'| && m'[o'..o' + Size(m, o)] == m[o..o + Size(m, o)]
    ensures PathAt(m', o') && Nodes(m', o') == Nodes(m, o)
    decreases |m| - o
  {
    hide IsPath, LengthAt, EndAt;
    var n, len := Size(m, o), LengthAt(m, o);
    SliceOfSlice(m, o, o + n, 0, len);
    SliceOfSlice(m', o', o' + n, 0, len);
    NodeMoved(m, o, m', o');
    if !EndAt(m, o) {
      SliceOfSlice(m, o, o + n, len, n);
      SliceOfSlice(m', o', o' + n, len, n);
      PathMoved(m, o + len, m', o' + len);
    }
  }

  /** `duplicate_device_path`; None stands for a failed allocation. */
  method Duplicate(m: seq<Byte>, o: nat, memory: bool) returns (dup: Option<array<Byte>>)
    requires PathAt(m, o)
    ensures dup.Some? <==> memory
    ensures dup.Some? ==> fresh(dup.value) && PathAt(dup.value[..], 0) && Nodes(dup.value[..], 0) == Nodes(m, o)
  {
    var p, total := o, 0;
    while true
      invariant PathAt(m, p) && total == p - o && total + Size(m, p) == Size(m, o)
      decreases |m| - p
    {
      total := total + LengthAt(m, p);
      if EndAt(m, p) {
        break;
      }
      p := p + LengthAt(m, p);
    }
    if !memory {
      return None;
    }
    var a := new Byte[total](i requires 0 <= i < total => m[o + i]);
    assert a[..][0..total] == m[o..o + total];
    PathMoved(m, o, a[..], 0);
    return Some(a);
  }

  const END_NODE: Node := [END_TYPE, END_ENTIRE, 4, 0]

  /** Where the last node is, one node on. */
  lemma LastOffsetOn(m: seq<Byte>, o: nat)
    requires PathAt(m, o) && !EndAt(m, o)
    ensures var next := o + LengthAt(m, o);
      && next + 4 <= |m| && PathAt(m, next)
      && LastOffset(m, o) == (if EndAt(m, next) then o else LastOffset(m, next))
      && (!EndAt(m, next) ==> next <= LastOffset(m, next))
  {
  }

  /** A node in front of a path. */
  lemma PathWithNode(m: seq<Byte>, o: nat)
    requires NodeAt(m, o) && !EndAt(m, o) && PathAt(m, o + LengthAt(m, o))
    ensures PathAt(m, o) && Nodes(m, o) == [m[o..o + LengthAt(m, o)]] + Nodes(m, o + LengthAt(m, o))
  {
  }

  lemma FrontOn(x: Node, ns: seq<Node>, last: Node)
    requires |ns| >= 2
    ensures [x] + (Front(ns) + [last]) == Front([x] + ns) + [last]
  {
  }

  /** Overwriting the last node by an end node cuts the path there. */
  lemma {:induction false} PathCut(m: seq<Byte>, o: nat, m': seq<Byte>, l: nat, last: Node)
    requires PathAt(m, o) && !EndAt(m, o) && |m'| == |m| && l == LastOffset(m, o)
    requires m'[o..l] == m[o..l] && PathAt(m', l) && Nodes(m', l) == [last]
    ensures |Nodes(m, o)| >= 2 && PathAt(m', o) && Nodes(m', o) == Front(Nodes(m, o)) + [last]
    decreases |m| - o
  {
    hide Nodes, PathAt, LastOffset, IsPath, LengthAt, EndAt, NodeAt, Front;
    var next := o + LengthAt(m, o);
    LastOffsetOn(m, o);
    NextNode(m, o);
    FirstHeader(m, next);
    if EndAt(m, next) {
      NothingInFront(Nodes(m, o), last);
    } else {
      SliceOfSlice(m, o, l, 0, next - o);
      SliceOfSlice(m', o, l, 0, next - o);
      SliceOfSlice(m, o, l, next - o, l - o);
      SliceOfSlice(m', o, l, next - o, l - o);
      PathIsNode(m, o);
      NodeMoved(m, o, m', o);
      PathCut(m, next, m', l, last);
      PathWithNode(m', o);
      FrontOn(m[o..next], Nodes(m, next), last);
    }
  }

  lemma PathIsNode(m: seq<Byte>, o: nat)
    requires PathAt(m, o)
    ensures NodeAt(m, o)
  {
  }

  lemma NothingInFront(ns: seq<Node>, last: Node)
    requires |ns| == 2
    ensures [last] == Front(ns) + [last]
  {
  }

  /** A node turned into an end node by its type and subtype alone. */
  ghost function EndedNode(x: Node): Node
    requires |x| >= 4
  {
    [END_TYPE, END_ENTIRE] + x[2..]
  }

  /** Overwriting type and subtype of the last node. */
  lemma EndingKeepsLength(m: seq<Byte>, m': seq<Byte>, l: nat)
    requires PathAt(m, l) && m' == m[l := END_TYPE][l + 1 := END_ENTIRE]
    ensures PathAt(m', l) && Nodes(m', l) == [EndedNode(Nodes(m, l)[0])]
  {
    assert m'[l..l + LengthAt(m, l)] == EndedNode(m[l..l + LengthAt(m, l)]);
  }

  /** `find_parent_device_path`: the copy ends at its last node, whose length is kept. The code does not look
      whether the copy could be made, nor whether there is a node to end it at: without memory for it, or with
      a path that is only an end node, it goes through a null pointer. */
  method FindParent(m: seq<Byte>, o: nat, memory: bool) returns (dup: array<Byte>)
    requires PathAt(m, o) && !EndAt(m, o) && memory
    ensures fresh(dup) && PathAt(dup[..], 0) && |Nodes(m, o)| >= 2
    ensures Nodes(dup[..], 0) == Front(Nodes(m, o)) + [EndedNode(Tail(Nodes(m, o))[0])]
  {
    hide *;
    var copy := Duplicate(m, o, memory);
    dup := copy.value;
    FirstHeader(m, o);
    ghost var before := dup[..];
    FirstHeader(before, 0);
    var final := FindLast(dup[..], 0);
    LastOffsetIsLast(before, 0);
    var l := final.value;
    dup[l] := END_TYPE;
    dup[l + 1] := END_ENTIRE;
    EndingKeepsLength(before, dup[..], l);
    assert dup[..][0..l] == before[0..l];
    PathCut(before, 0, dup[..], l, Nodes(dup[..], l)[0]);
  }

  function LengthField(x: Node): nat
    requires |x| >= 4
  {
    LengthAt(x, 0)
  }

  /** So the result is the parent's path with a proper end node only for a last node of no contents. */
  lemma ParentIsProperIff(ns: seq<Node>)
    requires |ns| >= 2 && IsPath(ns) && LengthField(Tail(ns)[0]) == |Tail(ns)[0]|
    ensures Front(ns) + [EndedNode(Tail(ns)[0])] == Front(ns) + [END_NODE] <==> |Tail(ns)[0]| == 4
  {
    var x := Tail(ns)[0];
    assert (Front(ns) + [EndedNode(x)])[|ns| - 2] == EndedNode(x);
    assert (Front(ns) + [END_NODE])[|ns| - 2] == END_NODE;
    if |x| == 4 {
      assert x[2..] == [x[2], x[3]] && END_NODE == [END_TYPE, END_ENTIRE] + [4, 0];
    }
  }

  lemma NodeHere(m: seq<Byte>, o: nat, x: Node)
    requires |x| >= 4 && LengthField(x) == |x| && o + |x| <= |m| && m[o..o + |x|] == x
    ensures NodeAt(m, o) && LengthAt(m, o) == |x| && (EndAt(m, o) <==> EndAt(x, 0))
  {
    assert forall i :: 0 <= i < |x| ==> m[o + i] == m[o..o + |x|][i] == x[i];
  }

  lemma EndHere(m: seq<Byte>, o: nat, x: Node)
    requires |x| >= 4 && LengthField(x) == |x| && o + |x| <= |m| && m[o..o + |x|] == x && EndAt(x, 0)
    ensures PathAt(m, o) && Nodes(m, o) == [x]
  {
    hide LengthAt, EndAt, NodeAt;
    NodeHere(m, o, x);
  }

  /** The end node, by its bytes, and the nodes that end a path: the top bit of the type does not matter. */
  lemma EndNodeIs(x: Node)
    requires |x| >= 4
    ensures END_NODE == [0x7f, 0xff, 0x04, 0x00]
    ensures EndAt(x, 0) <==> (x[0] == 0x7f || x[0] == 0xff) && x[1] == 0xff
  {
  }

  /** A path of one node of twelve bytes: what is made of it ends in a node of twelve bytes. */
  lemma ParentOfTwelveBytes()
    ensures var x: Node := [1, 1, 12, 0, 0, 0, 0, 0, 0, 0, 0, 0];
      var m := x + END_NODE;
      && PathAt(m, 0) && Nodes(m, 0) == [x, END_NODE]
      && Front([x, END_NODE]) + [EndedNode(Tail([x, END_NODE])[0])] != Front([x, END_NODE]) + [END_NODE]
  {
    var x: Node := [1, 1, 12, 0, 0, 0, 0, 0, 0, 0, 0, 0];
    assert LengthField(x) == 12 && !EndAt(x, 0);
    hide *;
    ParentOfOneNode(x);
  }

  /** A path of one node with contents. */
  lemma ParentOfOneNode(x: Node)
    requires |x| > 4 && LengthField(x) == |x| && !EndAt(x, 0)
    ensures var m, ns := x + END_NODE, [x, END_NODE];
      && PathAt(m, 0) && Nodes(m, 0) == ns && Front(ns) + [EndedNode(Tail(ns)[0])] != Front(ns) + [END_NODE]
  {
    assert Tail([x, END_NODE])[0] == x;
    hide PathAt, Nodes, NodeAt, EndAt, LengthAt, LengthField, Front, Tail, EndedNode;
    OneNodePath(x);
    ParentIsProperIff([x, END_NODE]);
  }

  lemma OneNodePath(x: Node)
    requires |x| >= 4 && LengthField(x) == |x| && !EndAt(x, 0)
    ensures var m := x + END_NODE; PathAt(m, 0) && Nodes(m, 0) == [x, END_NODE]
  {
    var m, n := x + END_NODE, |x|;
    assert m[0..n] == x && m[n..n + 4] == END_NODE;
    hide PathAt, Nodes, NodeAt;
    EndHere(m, n, END_NODE);
    NodeHere(m, 0, x);
    PathWithNode(m, 0);
  }

  /** Overwriting the whole header of the last node, as `iterate_child_devices` does on its copy. */
  method CutLast(a: array<Byte>, l: nat)
    requires PathAt(a[..], 0) && !EndAt(a[..], 0) && l == LastOffset(a[..], 0)
    modifies a
    ensures PathAt(a[..], 0) && |Nodes(old(a[..]), 0)| >= 2
    ensures Nodes(a[..], 0) == Front(Nodes(old(a[..]), 0)) + [END_NODE]
  {
    ghost var before := a[..];
    a[l], a[l + 1], a[l + 2], a[l + 3] := END_TYPE, END_ENTIRE, 4, 0;
    assert a[..][l..l + 4] == END_NODE;
    EndHere(a[..], l, END_NODE);
    hide PathAt, Nodes;
    assert a[..][0..l] == before[0..l];
    PathCut(before, 0, a[..], l, END_NODE);
  }
}
