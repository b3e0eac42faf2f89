/**
  The device lists of efi/efidisk.c: linked lists of disks kept in ascending
  order of (last node, whole path) without duplicates, and the search for the
  children of a device.
 */
module DeviceList {
  import opened Wrappers
  import opened Numbers
  import opened Sequences
  import opened DevicePath

  /** `struct grub_efidisk_data`, without the links: what is kept of a disk. */
  datatype Device = Device(handle: nat, path: seq<Byte>)

  /** A device path with at least one node before the end; `make_devices` leaves out any other. */
  ghost predicate Proper(d: Device) {
    PathAt(d.path, 0) && !EndAt(d.path, 0)
  }

  ghost function NodesOf(d: Device): (ns: seq<Node>)
    requires Proper(d)
    ensures |ns| >= 2 && IsPath(ns)
  {
    LastOffsetIsLast(d.path, 0);
    Nodes(d.path, 0)
  }

  /** By the last node first, then by the whole path. */
  ghost predicate Earlier(ns: seq<Node>, ms: seq<Node>)
    requires |ns| >= 2 && |ms| >= 2 && IsPath(ns) && IsPath(ms)
  {
    Order(Tail(ns), Tail(ms)) < 0 || (Tail(ns) == Tail(ms) && Order(ns, ms) < 0)
  }

  lemma EarlierIsTotal(x: seq<Node>, y: seq<Node>, z: seq<Node>)
    requires |x| >= 2 && |y| >= 2 && |z| >= 2 && IsPath(x) && IsPath(y) && IsPath(z)
    ensures Earlier(x, y) || Earlier(y, x) || x == y
    ensures Earlier(x, y) ==> !Earlier(y, x) && x != y
    ensures Earlier(x, y) && Earlier(y, z) ==> Earlier(x, z)
  {
    OrderIsTotal(Tail(x), Tail(y), Tail(z));
    OrderIsTotal(x, y, z);
    OrderIsTotal(Tail(y), Tail(z), Tail(x));
    OrderIsTotal(y, z, x);
    OrderIsTotal(Tail(y), Tail(x), []);
    OrderIsTotal(y, x, []);
    hide Order, Tail;
  }

  ghost predicate Before(a: Device, b: Device)
    requires Proper(a) && Proper(b)
  {
    Earlier(NodesOf(a), NodesOf(b))
  }

  lemma BeforeIsTotal(a: Device, b: Device, c: Device)
    requires Proper(a) && Proper(b) && Proper(c)
    ensures Before(a, b) || Before(b, a) || NodesOf(a) == NodesOf(b)
    ensures Before(a, b) ==> !Before(b, a) && NodesOf(a) != NodesOf(b)
    ensures Before(a, b) && Before(b, c) ==> Before(a, c)
  {
    hide NodesOf, Earlier;
    EarlierIsTotal(NodesOf(a), NodesOf(b), NodesOf(c));
  }

  /** Strictly ascending, hence without duplicates. */
  ghost predicate Ascending(ds: seq<Device>) {
    && (forall i :: 0 <= i < |ds| ==> Proper(ds[i]))
    && (forall i, j :: 0 <= i < j < |ds| ==> Before(ds[i], ds[j]))
  }

  /** Where the last node begins, its path is the last node and the end node. */
  lemma LastIsTail(d: Device)
    requires Proper(d)
    ensures PathAt(d.path, LastOffset(d.path, 0)) && IsPath(Tail(NodesOf(d)))
    ensures Nodes(d.path, LastOffset(d.path, 0)) == Tail(NodesOf(d))
  {
    hide Nodes, LastOffset;
    LastOffsetIsLast(d.path, 0);
  }

  lemma OrderTells(ns: seq<Node>, ms: seq<Node>)
    requires IsPath(ns) && IsPath(ms)
    ensures Order(ns, ms) == 0 <==> ns == ms
  {
    hide Order;
    OrderIsTotal(ns, ms, []);
  }

  /** The three-way comparison `add_device` makes. */
  method CompareDevices(a: Device, b: Device) returns (r: int)
    requires Proper(a) && Proper(b)
    ensures r == 0 <==> NodesOf(a) == NodesOf(b)
    ensures r < 0 <==> Before(a, b)
  {
    hide Order, LastOffset, PathAt, Nodes, Tail;
    LastIsTail(a);
    LastIsTail(b);
    OrderTells(Tail(NodesOf(a)), Tail(NodesOf(b)));
    OrderTells(NodesOf(a), NodesOf(b));
    var la := FindLast(a.path, 0);
    var lb := FindLast(b.path, 0);
    r := CompareDevicePaths(a.path, la, b.path, lb);
    if r == 0 {
      r := CompareDevicePaths(a.path, Some(0), b.path, Some(0));
    }
  }

  /** What `iterate_child_devices` compares: the path cut before its last node, by a plain end node. */
  ghost predicate IsChild(p: Device, parent: seq<Node>)
    requires Proper(p)
  {
    Front(NodesOf(p)) + [END_NODE] == parent
  }

  /** A child has the parent's nodes and one more, provided that the parent's end node is the plain one; with
      any other end node (type 0xff, say) a parent has no children. */
  lemma IsChildIff(p: Device, parent: seq<Node>)
    requires Proper(p) && parent != []
    ensures IsChild(p, parent) <==>
              parent[|parent| - 1] == END_NODE && Front(NodesOf(p)) == parent[..|parent| - 1]
  {
    assert parent == parent[..|parent| - 1] + [parent[|parent| - 1]];
    if IsChild(p, parent) {
      assert (Front(NodesOf(p)) + [END_NODE])[..|parent| - 1] == Front(NodesOf(p));
    }
  }

  /** A device with the parent's nodes and one more, which is not found to be a child: the parent's path ends in
      a node of type 0xff, which is an end node as well. */
  lemma ChildNotFound(a: Node, b: Node, e: Node)
    requires a == [1, 1, 4, 0] && b == [2, 1, 4, 0] && e == [0xff, 0xff, 4, 0]
    ensures var d, parent := Device(0, a + b + END_NODE), a + e;
      && Proper(d) && NodesOf(d) == [a, b, END_NODE] && PathAt(parent, 0) && Nodes(parent, 0) == [a, e]
      && !IsChild(d, Nodes(parent, 0))
  {
    assert EndAt(e, 0) && !EndAt(a, 0) && !EndAt(b, 0) && EndAt(END_NODE, 0);
    assert LengthField(a) == LengthField(b) == LengthField(e) == LengthField(END_NODE) == 4;
    assert e != END_NODE;
    hide *;
    PathOfThree(a, b, END_NODE);
    PathOfTwo(a, e);
    ProperByPath(a + b + END_NODE);
    IsChildIff(Device(0, a + b + END_NODE), [a, e]);
  }

  lemma ProperByPath(path: seq<Byte>)
    requires PathAt(path, 0) && !EndAt(path, 0)
    ensures Proper(Device(0, path)) && NodesOf(Device(0, path)) == Nodes(path, 0)
  {
  }

  lemma PathOfTwo(a: Node, e: Node)
    requires |a| == |e| == 4 == LengthField(a) == LengthField(e) && !EndAt(a, 0) && EndAt(e, 0)
    ensures PathAt(a + e, 0) && Nodes(a + e, 0) == [a, e]
  {
    hide PathAt, Nodes, NodeAt, EndAt, LengthAt;
    var m := a + e;
    assert m[0..4] == a && m[4..8] == e;
    EndHere(m, 4, e);
    NodeHere(m, 0, a);
    PathWithNode(m, 0);
  }

  lemma PathOfThree(a: Node, b: Node, e: Node)
    requires |a| == |b| == |e| == 4 == LengthField(a) == LengthField(b) == LengthField(e)
    requires !EndAt(a, 0) && !EndAt(b, 0) && EndAt(e, 0)
    ensures PathAt(a + b + e, 0) && Nodes(a + b + e, 0) == [a, b, e] && !EndAt(a + b + e, 0)
  {
    hide PathAt, Nodes, NodeAt, EndAt, LengthAt;
    var m := a + b + e;
    assert m[0..4] == a && m[4..8] == b && m[8..12] == e;
    EndHere(m, 8, e);
    NodeHere(m, 4, b);
    PathWithNode(m, 4);
    NodeHere(m, 0, a);
    PathWithNode(m, 0);
  }

  /** The children among `ds` from position `i` on, in order, up to the first one that the hook accepts or the
      first device whose path cannot be copied for lack of `memory`. */
  ghost function Offered(ds: seq<Device>, i: nat, parent: seq<Node>, hook: Device -> bool,
                         memory: nat -> bool): seq<Device>
    requires i <= |ds| && forall j :: 0 <= j < |ds| ==> Proper(ds[j])
    decreases |ds| - i
  {
    if i == |ds| || !memory(i) then []
    else if !IsChild(ds[i], parent) then Offered(ds, i + 1, parent, hook, memory)
    else if hook(ds[i]) then [ds[i]]
    else [ds[i]] + Offered(ds, i + 1, parent, hook, memory)
  }

  /** One step of the search, behind what has been offered so far. */
  lemma OfferedStep(ds: seq<Device>, i: nat, parent: seq<Node>, hook: Device -> bool, memory: nat -> bool,
                    offered: seq<Device>)
    requires i <= |ds| && forall j :: 0 <= j < |ds| ==> Proper(ds[j])
    ensures i == |ds| || !memory(i) ==> offered + Offered(ds, i, parent, hook, memory) == offered
    ensures i < |ds| && memory(i) ==>
      var rest := offered + Offered(ds, i, parent, hook, memory);
      if !IsChild(ds[i], parent) then rest == offered + Offered(ds, i + 1, parent, hook, memory)
      else if hook(ds[i]) then rest == offered + [ds[i]]
      else rest == (offered + [ds[i]]) + Offered(ds, i + 1, parent, hook, memory)
  {
    hide IsChild, Proper;
  }

  /** Copies, cuts and compares one path; None when there is no memory for the copy. */
  method CheckChild(p: Device, parent: seq<Byte>, memory: bool) returns (child: Option<bool>)
    requires Proper(p) && PathAt(parent, 0)
    ensures child == if memory then Some(IsChild(p, Nodes(parent, 0))) else None
  {
    hide Order, PathAt, Nodes, Front, LastOffset;
    var copy := Duplicate(p.path, 0, memory);
    if copy.None? {
      return None;
    }
    var dp := copy.value;
    FirstHeader(p.path, 0);
    FirstHeader(dp[..], 0);
    var l := FindLast(dp[..], 0);
    CutLast(dp, l.value);
    var r := CompareDevicePaths(dp[..], Some(0), parent, Some(0));
    OrderTells(Nodes(dp[..], 0), Nodes(parent, 0));
    return Some(r == 0);
  }

  class Link {
    const device: Device
    var next: Link?

    constructor (device: Device, next: Link?)
      ensures this.device == device && this.next == next
    {
      this.device, this.next := device, next;
    }
  }

  ghost function DevicesOf(links: seq<Link>): (ds: seq<Device>)
    ensures |ds| == |links| && forall i :: 0 <= i < |ds| ==> ds[i] == links[i].device
  {
    seq(|links|, i requires 0 <= i < |links| => links[i].device)
  }

  lemma DevicesInserted(links: seq<Link>, i: nat, n: Link)
    requires i <= |links|
    ensures DevicesOf(Inserted(links, i, n)) == Inserted(DevicesOf(links), i, n.device)
  {
  }

  ghost function Successor(links: seq<Link>, i: nat): Link? {
    if i + 1 < |links| then links[i + 1] else null
  }

  /** Where `d` belongs: everything before is earlier, everything from there on is not. */
  ghost predicate Fits(ds: seq<Device>, d: Device, i: nat)
    requires Proper(d) && Ascending(ds)
  {
    && i <= |ds|
    && (forall j :: 0 <= j < i ==> Before(ds[j], d))
    && (i < |ds| ==> Before(d, ds[i]) || NodesOf(ds[i]) == NodesOf(d))
  }

  ghost predicate Holds(ds: seq<Device>, d: Device)
    requires Proper(d) && Ascending(ds)
  {
    exists j :: 0 <= j < |ds| && NodesOf(ds[j]) == NodesOf(d)
  }

  /** Behind the place where it fits everything is later. */
  lemma LaterBehind(ds: seq<Device>, d: Device, i: nat)
    requires Proper(d) && Ascending(ds) && Fits(ds, d, i) && (i < |ds| ==> NodesOf(ds[i]) != NodesOf(d))
    ensures forall j :: i <= j < |ds| ==> Before(d, ds[j])
    ensures !Holds(ds, d)
  {
    hide Before, Proper, NodesOf;
    forall j | i <= j < |ds| ensures Before(d, ds[j]) {
      if j > i {
        BeforeIsTotal(d, ds[i], ds[j]);
      }
    }
    forall j | 0 <= j < |ds| ensures NodesOf(ds[j]) != NodesOf(d) {
      if j < i {
        BeforeIsTotal(ds[j], d, d);
      } else {
        BeforeIsTotal(d, ds[j], d);
      }
    }
  }

  /** Inserting where it fits keeps the order. */
  lemma InsertAscends(ds: seq<Device>, d: Device, i: nat)
    requires Proper(d) && Ascending(ds) && Fits(ds, d, i) && (i < |ds| ==> NodesOf(ds[i]) != NodesOf(d))
    ensures Ascending(Inserted(ds, i, d))
  {
    LaterBehind(ds, d, i);
    var es := Inserted(ds, i, d);
    forall j | 0 <= j < |es| ensures Proper(es[j]) {
      InsertedIsProper(ds, d, i, j);
    }
    forall j, k | 0 <= j < k < |es| ensures Before(es[j], es[k]) {
      InsertedPair(ds, d, i, j, k);
    }
    hide Before, Proper, Inserted;
  }

  lemma InsertedIsProper(ds: seq<Device>, d: Device, i: nat, j: nat)
    requires i <= |ds| && j <= |ds| && Proper(d) && forall k :: 0 <= k < |ds| ==> Proper(ds[k])
    ensures Proper(Inserted(ds, i, d)[j])
  {
    hide Proper;
  }

  lemma InsertedPair(ds: seq<Device>, d: Device, i: nat, j: nat, k: nat)
    requires i <= |ds| && j < k <= |ds| && Proper(d) && Ascending(ds)
    requires forall l :: 0 <= l < i ==> Before(ds[l], d)
    requires forall l :: i <= l < |ds| ==> Before(d, ds[l])
    ensures var es := Inserted(ds, i, d); Proper(es[j]) && Proper(es[k]) && Before(es[j], es[k])
  {
    hide Before, Proper;
    var es := Inserted(ds, i, d);
    assert es[j] == if j < i then ds[j] else if j == i then d else ds[j - 1];
    assert es[k] == if k < i then ds[k] else if k == i then d else ds[k - 1];
  }

  class List {
    var head: Link?
    ghost var links: seq<Link>

    ghost predicate Linked()
      reads this, links
    {
      && head == (if links == [] then null else links[0])
      && (forall i {:trigger Successor(links, i)} :: 0 <= i < |links| ==> links[i].next == Successor(links, i))
      && (forall i, j :: 0 <= i < j < |links| ==> links[i] != links[j])
    }

    ghost function Devices(): seq<Device>
      reads this
    {
      DevicesOf(links)
    }

    ghost predicate Valid()
      reads this, links
    {
      Linked() && Ascending(Devices())
    }

    constructor ()
      ensures Valid() && Devices() == []
    {
      head, links := null, [];
    }

    /** The search loop of `add_device`: the link to insert behind (null for the head), and whether the
        device is there already. */
    method Locate(d: Device) returns (prev: Link?, known: bool, ghost i: nat)
      requires Valid() && Proper(d)
      ensures Fits(Devices(), d, i)
      ensures prev == if i == 0 then null else links[i - 1]
      ensures known <==> i < |links| && NodesOf(Devices()[i]) == NodesOf(d)
      ensures known <==> Holds(Devices(), d)
    {
      hide Before, Proper, NodesOf;
      prev, known, i := null, false, 0;
      var p := head;
      while p != null
        invariant i <= |links| && p == (if i < |links| then links[i] else null)
        invariant prev == if i == 0 then null else links[i - 1]
        invariant forall j :: 0 <= j < i ==> Before(Devices()[j], d)
        decreases |links| - i
      {
        assert Devices()[i] == p.device;
        BeforeIsTotal(p.device, d, d);
        var r := CompareDevices(p.device, d);
        if r == 0 {
          known := true;
          return;
        } else if r > 0 {
          LaterBehind(Devices(), d, i);
          return;
        }
        assert links[i].next == Successor(links, i);
        prev, p, i := p, p.next, i + 1;
      }
      LaterBehind(Devices(), d, i);
    }

    /** Links a new device in behind `prev`, the link before position `i`. */
    method Insert(d: Device, prev: Link?, ghost i: nat)
      requires Linked() && i <= |links| && prev == if i == 0 then null else links[i - 1]
      modifies this, links
      ensures Linked() && Devices() == Inserted(old(Devices()), i, d)
      ensures fresh(set l | l in links && l !in old(links))
    {
      hide DevicesOf, Ascending;
      ghost var before := links;
      assert i > 0 ==> links[i - 1].next == Successor(links, i - 1);
      var n := new Link(d, if prev == null then head else prev.next);
      if prev == null {
        head := n;
      } else {
        prev.next := n;
      }
      assert forall j :: 0 <= j < |before| ==> before[j] != n;
      assert forall j {:trigger Successor(before, j)} ::
          0 <= j < |before| && j != i - 1 ==> before[j].next == Successor(before, j);
      links := Inserted(before, i, n);
      InsertedIsLinked(before, i, n);
      DevicesInserted(before, i, n);
    }

    lemma InsertedIsLinked(before: seq<Link>, i: nat, n: Link)
      requires i <= |before| && links == Inserted(before, i, n) && head == links[0]
      requires forall j, k :: 0 <= j < k < |before| ==> before[j] != before[k]
      requires forall j :: 0 <= j < |before| ==> before[j] != n
      requires forall j {:trigger Successor(before, j)} :: 0 <= j < |before| && j != i - 1 ==>
                 before[j].next == Successor(before, j)
      requires n.next == (if i < |before| then before[i] else null) && (i > 0 ==> before[i - 1].next == n)
      ensures Linked()
    {
      forall j | 0 <= j < |links| ensures links[j].next == Successor(links, j) {
        if j < i - 1 {
          assert before[j].next == Successor(before, j);
        } else if j > i {
          assert before[j - 1].next == Successor(before, j - 1);
        }
      }
    }

    /** `add_device`: a device whose path is new goes to its place in the order; any other changes nothing.
        `memory` says whether the new link can be allocated. */
    method AddDevice(d: Device, memory: bool)
      requires Valid() && Proper(d)
      modifies this, links
      ensures Valid() && fresh(set l | l in links && l !in old(links))
      ensures old(Holds(Devices(), d)) || !memory ==> Devices() == old(Devices())
      ensures !old(Holds(Devices(), d)) && memory ==>
                exists i :: 0 <= i <= |old(Devices())| && Devices() == Inserted(old(Devices()), i, d)
    {
      hide Before, Proper, NodesOf;
      var prev, known, i := Locate(d);
      if known {
        return;
      }
      LaterBehind(Devices(), d, i);
      if !memory {
        return;
      }
      InsertAscends(Devices(), d, i);
      Insert(d, prev, i);
    }

    /** `get_device`. */
    method GetDevice(num: int) returns (r: Option<Device>)
      requires Linked()
      ensures r == if 0 <= num < |links| then Some(Devices()[num]) else None
    {
      var p, n := head, num;
      ghost var i := 0;
      while p != null && n != 0
        invariant i <= |links| && p == (if i < |links| then links[i] else null) && n == num - i && (num >= 0 ==> n >= 0)
        decreases |links| - i
      {
        assert links[i].next == Successor(links, i);
        p, n, i := p.next, n - 1, i + 1;
      }
      if n == 0 && p != null {
        return Some(p.device);
      }
      return None;
    }

    lemma FirstLink()
      requires Linked()
      ensures head == if links == [] then null else links[0]
    {
    }

    lemma NextLink(i: nat)
      requires Linked() && i < |links|
      ensures links[i].next == (if i + 1 < |links| then links[i + 1] else null) && Devices()[i] == links[i].device
    {
      assert links[i].next == Successor(links, i);
    }

    /** `iterate_child_devices`; `memory(i)` says whether the path of device `i` can be copied. */
    method IterateChildren(parent: seq<Byte>, hook: Device -> bool, memory: nat -> bool)
      returns (found: bool, offered: seq<Device>)
      requires Linked() && PathAt(parent, 0) && forall i :: 0 <= i < |links| ==> Proper(Devices()[i])
      ensures offered == Offered(Devices(), 0, Nodes(parent, 0), hook, memory)
      ensures found <==> offered != [] && hook(offered[|offered| - 1])
    {
      hide PathAt, Nodes, IsChild, Proper, Offered, DevicesOf, Linked;
      ghost var ds, nodes := Devices(), Nodes(parent, 0);
      offered := [];
      var p, i := head, 0;
      FirstLink();
      while p != null
        invariant Linked() && i <= |links| && p == (if i < |links| then links[i] else null)
        invariant Offered(ds, 0, nodes, hook, memory) == offered + Offered(ds, i, nodes, hook, memory)
        invariant offered != [] ==> !hook(offered[|offered| - 1])
        decreases |links| - i
      {
        OfferedStep(ds, i, nodes, hook, memory, offered);
        var child := CheckChild(p.device, parent, memory(i));
        NextLink(i);
        if child.None? {
          return false, offered;
        }
        if child.value {
          offered := offered + [p.device];
          if hook(p.device) {
            return true, offered;
          }
        }
        p, i := p.next, i + 1;
      }
      OfferedStep(ds, i, nodes, hook, memory, offered);
      return false, offered;
    }
  }

  /** Any sequence of additions to an empty list: what comes out is strictly ascending and holds exactly the
      paths added. */
  method AddAll(ds: seq<Device>) returns (list: List)
    requires forall i :: 0 <= i < |ds| ==> Proper(ds[i])
    ensures fresh(list) && list.Valid()
    ensures forall i :: 0 <= i < |ds| ==> Holds(list.Devices(), ds[i])
    ensures forall e :: e in list.Devices() ==> e in ds
  {
    hide Before, Proper, NodesOf, Holds, Ascending, Inserted;
    list := new List();
    for i := 0 to |ds|
      invariant list.Valid() && fresh(list) && fresh(set l | l in list.links)
      invariant forall j :: 0 <= j < i ==> Holds(list.Devices(), ds[j])
      invariant forall e :: e in list.Devices() ==> e in ds
    {
      ghost var before := list.Devices();
      list.AddDevice(ds[i], true);
      StillHolds(before, list.Devices(), ds[i]);
    }
  }

  lemma StillHolds(before: seq<Device>, after: seq<Device>, d: Device)
    requires Ascending(before) && Ascending(after) && Proper(d)
    requires if Holds(before, d) then after == before
             else exists i :: 0 <= i <= |before| && after == Inserted(before, i, d)
    ensures Holds(after, d) && (forall e :: Proper(e) && Holds(before, e) ==> Holds(after, e))
    ensures forall e :: e in after ==> e == d || e in before
  {
    hide Before, Proper, NodesOf;
    if !Holds(before, d) {
      var i :| 0 <= i <= |before| && after == Inserted(before, i, d);
      assert after[i] == d;
      forall e | Proper(e) && Holds(before, e) ensures Holds(after, e) {
        var j :| 0 <= j < |before| && NodesOf(before[j]) == NodesOf(e);
        assert after[if j < i then j else j + 1] == before[j];
      }
    }
  }
}
