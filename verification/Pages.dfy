/**
  Page bookkeeping of efi/efimm.c: a bounded table of the page allocations made
  since `grub_efi_mm_init`, so that `grub_efi_mm_fini` can give them back.
 */
module Pages {
  import opened Wrappers
  import opened Sequences

  const HIGHEST: nat := 0x7fffffff

  datatype Status = Success | NotFound | OtherError

  /** What goes between the firmware and its caller. */
  datatype Traffic = Handed(address: nat, pages: nat) | Returned(address: nat, pages: nat)

  /** The memory in use after some traffic, if all of it is in order: only memory not in use is handed out, and
      only memory in use is given back, with its page count. */
  ghost function Replay(live: map<nat, nat>, traffic: seq<Traffic>): Option<map<nat, nat>> {
    if traffic == [] then Some(live) else
    match (Replay(live, traffic[..|traffic| - 1]), traffic[|traffic| - 1])
    case (None, _) => None
    case (Some(m), Handed(a, n)) => if a in m then None else Some(m[a := n])
    case (Some(m), Returned(a, n)) => if a in m && m[a] == n then Some(m - {a}) else None
  }

  lemma ReplayOneMore(live: map<nat, nat>, traffic: seq<Traffic>, t: Traffic, m: map<nat, nat>)
    requires Replay(live, traffic) == Some(m)
    ensures Replay(live, traffic + [t]) ==
              match t
              case Handed(a, n) => if a in m then None else Some(m[a := n])
              case Returned(a, n) => if a in m && m[a] == n then Some(m - {a}) else None
  {
    assert (traffic + [t])[..|traffic|] == traffic;
  }

  /** The answer at the head of the script hands out memory, if that is not in use and, for a fixed address, the one
      wanted. */
  ghost predicate HandsOut(live: map<nat, nat>, script: seq<(Status, nat)>, fixed: bool, wanted: nat) {
    && script != [] && script[0].0.Success? && script[0].1 !in live
    && (fixed ==> script[0].1 == wanted)
  }

  /** The memory a caller gets who has no use for address 0 and asks once more in that case, for any memory below
      2 GB. */
  ghost function Obtainable(live: map<nat, nat>, script: seq<(Status, nat)>, fixed: bool, wanted: nat): Option<nat> {
    if !HandsOut(live, script, fixed, wanted) then None
    else if script[0].1 != 0 then Some(script[0].1)
    else if HandsOut(live[0 := 1], script[1..], fixed, 0x7fffffff) then Some(script[1].1)
    else None
  }

  /** The memory services of the firmware: every answer is taken from an arbitrary script. An address handed
      out is one that is not in use. */
  class Firmware {
    var live: map<nat, nat>                  // allocations in use, with their page counts
    var script: seq<(Status, nat)>
    ghost var freed: seq<(nat, nat)>         // calls of free_pages, in order
    ghost var traffic: seq<Traffic>
    ghost const origin: map<nat, nat>

    ghost predicate Orderly()
      reads this`live, this`traffic
    {
      Replay(origin, traffic) == Some(live)
    }

    constructor (live: map<nat, nat>, script: seq<(Status, nat)>)
      ensures Orderly() && origin == live && this.live == live && this.script == script && freed == [] && traffic == []
    {
      this.live, this.script, freed, traffic, origin := live, script, [], [], live;
    }

    /** `fixed`: GRUB_EFI_ALLOCATE_ADDRESS; otherwise any address. */
    method AllocatePages(fixed: bool, address: nat, pages: nat) returns (status: Status, at: nat)
      requires Orderly()
      modifies this`live, this`script, this`traffic
      ensures Orderly() && (script == old(script) == [] || (old(script) != [] && script == old(script)[1..]))
      ensures status.Success? ==> at !in old(live) && live == old(live)[at := pages] && (fixed ==> at == address)
      ensures status.Success? <==> HandsOut(old(live), old(script), fixed, address)
      ensures status.Success? ==> at == old(script)[0].1
      ensures !status.Success? ==> live == old(live) && at == address
      ensures status.NotFound? <==> old(script) != [] && old(script)[0].0.NotFound?
    {
      status, at := OtherError, address;
      if script != [] {
        var (s, a) := script[0];
        script := script[1..];
        if !s.Success? {
          status := s;
        } else if a !in live && (fixed ==> a == address) {
          status, at := Success, a;
          ReplayOneMore(origin, traffic, Handed(a, pages), live);
          live, traffic := live[a := pages], traffic + [Handed(a, pages)];
        }
      }
    }

    /** What is given back must be in use, and given back as a whole. */
    method FreePages(address: nat, pages: nat)
      requires Orderly() && address in live && live[address] == pages
      modifies this`live, this`freed, this`traffic
      ensures Orderly()
      ensures live == old(live) - {address} && freed == old(freed) + [(address, pages)]
    {
      ReplayOneMore(origin, traffic, Returned(address, pages), live);
      live := live - {address};
      freed, traffic := freed + [(address, pages)], traffic + [Returned(address, pages)];
    }
  }

  datatype Slot = Slot(addr: nat, pages: nat)

  ghost predicate Distinct(slots: seq<Slot>) {
    forall i, j :: 0 <= i < j < |slots| ==> slots[i].addr != 0 ==> slots[i].addr != slots[j].addr
  }

  /** The allocations a table of slots stands for; address 0 marks a free slot. */
  ghost function Tracked(slots: seq<Slot>): set<Slot> {
    set s | s in slots && s.addr != 0
  }

  lemma TrackOne(slots: seq<Slot>, i: nat, s: Slot)
    requires Distinct(slots) && i < |slots| && slots[i].addr == 0
    requires s.addr != 0 ==> forall t :: t in Tracked(slots) ==> t.addr != s.addr
    ensures Distinct(slots[i := s])
    ensures Tracked(slots[i := s]) == if s.addr == 0 then Tracked(slots) else Tracked(slots) + {s}
  {
    var after := slots[i := s];
    forall j, k | 0 <= j < k < |after| && after[j].addr != 0 ensures after[j].addr != after[k].addr {
      assert j == i ==> slots[k] in slots;
      assert k == i ==> slots[j] in Tracked(slots);
    }
    assert after[i] == s;
    forall t | t in Tracked(slots) ensures t in after {
      var j :| 0 <= j < |slots| && slots[j] == t;
      assert after[j] == t;
    }
  }

  lemma UntrackOne(slots: seq<Slot>, i: nat)
    requires Distinct(slots) && i < |slots|
    ensures Distinct(slots[i := slots[i].(addr := 0)])
    ensures Tracked(slots[i := slots[i].(addr := 0)]) == Tracked(slots) - {slots[i]}
  {
    var after := slots[i := slots[i].(addr := 0)];
    forall t | t in Tracked(slots) && t != slots[i] ensures t in after {
      var j :| 0 <= j < |slots| && slots[j] == t;
      assert after[j] == t;
    }
    forall t | t in Tracked(after) ensures t in slots && t != slots[i] {
      var j :| 0 <= j < |after| && after[j] == t;
      assert slots[j] == t;
    }
  }

  /** A table without a free slot holds as many allocations as it has slots. */
  lemma {:induction false} FullTable(slots: seq<Slot>)
    requires Distinct(slots) && forall i :: 0 <= i < |slots| ==> slots[i].addr != 0
    ensures |Tracked(slots)| == |slots|
  {
    if slots != [] {
      var n := |slots| - 1;
      FullTable(slots[..n]);
      assert Tracked(slots) == Tracked(slots[..n]) + {slots[n]};
    }
  }

  ghost function Addresses(tracked: set<Slot>): set<nat> {
    set s | s in tracked :: s.addr
  }

  /** The calls are exactly one for each allocation, with its page count. */
  ghost predicate OnceEach(calls: seq<(nat, nat)>, allocations: set<Slot>) {
    && (forall s :: s in allocations ==> (s.addr, s.pages) in calls)
    && (forall c :: c in calls ==> Slot(c.0, c.1) in allocations)
    && (forall i, j :: 0 <= i < j < |calls| ==> calls[i].0 != calls[j].0)
  }

  class PageTable {
    const fw: Firmware
    const slots: array<Slot>          // MAX_ALLOCATED_PAGES of them
    var home: nat                     // the address of the table itself; 0 while there is none
    ghost const base: map<nat, nat>   // what was in use before
    ghost var outside: set<nat>       // our allocations that the table does not hold: those for the run-time
                                      // services, and any made at address 0 or with all slots taken

    ghost function Held(): set<Slot>
      reads slots
    {
      Tracked(slots[..])
    }

    ghost predicate Room()
      reads slots
    {
      exists i :: 0 <= i < slots.Length && slots[i].addr == 0
    }

    /** The four kinds of memory in use are kept apart, and together they are all of `live`. */
    ghost predicate Accounts(live: map<nat, nat>)
      reads this`home, this`outside, slots
    {
      && live.Keys == base.Keys + Addresses(Held()) + outside + (if home != 0 then {home} else {})
      && base.Keys !! Addresses(Held()) && base.Keys !! outside && Addresses(Held()) !! outside
      && (home != 0 ==> home !in base.Keys + Addresses(Held()) + outside)
      && forall a :: a in base ==> a in live && live[a] == base[a]
    }

    /** Every slot in use is a different live allocation with its page count, and so is the table. */
    ghost predicate ValidFor(live: map<nat, nat>)
      reads this`home, this`outside, slots
    {
      && Distinct(slots[..]) && Accounts(live)
      && (home != 0 ==> live[home] == 1)
      && (forall s :: s in Held() ==> live[s.addr] == s.pages)
      && (home == 0 ==> Held() == {})
    }

    ghost predicate Valid()
      reads this`home, this`outside, fw`live, fw`traffic, slots
    {
      ValidFor(fw.live) && fw.Orderly()
    }

    constructor (fw: Firmware, capacity: nat)
      requires fw.Orderly()
      ensures Valid() && this.fw == fw && base == fw.live && home == 0 && outside == {} && Held() == {}
      ensures slots.Length == capacity && fresh(slots)
    {
      this.fw := fw;
      slots := new Slot[capacity](_ => Slot(0, 0));
      home, base, outside := 0, fw.live, {};
    }

    /** Enters an allocation in the first free slot; false when there is none. */
    method Track(s: Slot) returns (ok: bool)
      requires Distinct(slots[..]) && s.addr !in Addresses(Held())
      modifies slots
      ensures Distinct(slots[..])
      ensures ok <==> old(Room())
      ensures Held() == if ok && s.addr != 0 then old(Held()) + {s} else old(Held())
    {
      hide Distinct, Tracked;
      var i := 0;
      while i < slots.Length
        invariant i <= slots.Length && slots[..] == old(slots[..])
        invariant forall j :: 0 <= j < i ==> slots[j].addr != 0
      {
        if slots[i].addr == 0 {
          TrackOne(slots[..], i, s);
          slots[i] := s;
          assert slots[..] == old(slots[..])[i := s];
          return true;
        }
        i := i + 1;
      }
      return false;
    }

    /** Clears the first slot of an address. */
    method Untrack(address: nat)
      requires Distinct(slots[..])
      modifies slots
      ensures Distinct(slots[..])
      ensures Held() == set s | s in old(Held()) && s.addr != address
      ensures forall j :: 0 <= j < slots.Length ==>
                slots[j] == if old(slots[j]).addr == address then old(slots[j]).(addr := 0) else old(slots[j])
    {
      var i := 0;
      while i < slots.Length
        invariant i <= slots.Length && slots[..] == old(slots[..])
        invariant forall j :: 0 <= j < i ==> slots[j].addr != address
      {
        if slots[i].addr == address {
          UntrackOne(slots[..], i);
          slots[i] := slots[i].(addr := 0);
          assert slots[..] == old(slots[..])[i := old(slots[i]).(addr := 0)];
          return;
        }
        i := i + 1;
      }
    }

    /** `grub_efi_free_pages`: forgets the allocation and gives it back. */
    method FreePages(address: nat, pages: nat)
      requires Distinct(slots[..]) && fw.Orderly() && address in fw.live && fw.live[address] == pages
      modifies this`outside, slots, fw`live, fw`freed, fw`traffic
      ensures fw.live == old(fw.live) - {address} && fw.freed == old(fw.freed) + [(address, pages)]
      ensures Distinct(slots[..]) && fw.Orderly()
      ensures Held() ==
                if home != 0 && home != address then set s | s in old(Held()) && s.addr != address else old(Held())
      ensures outside == old(outside) - {address}
      ensures forall j :: 0 <= j < slots.Length ==>
                slots[j] ==
                if home != 0 && home != address && old(slots[j]).addr == address then old(slots[j]).(addr := 0)
                else old(slots[j])
      ensures old(Valid()) && address in old(Addresses(Held()) + outside) ==> Valid()
    {
      hide Firmware.Orderly, Tracked, Distinct;
      if home != 0 && home != address {
        Untrack(address);
      }
      outside := outside - {address};
      fw.FreePages(address, pages);
    }

    /** A fresh allocation goes into the table if it is to be tracked and there is room; `r` is 0 when there
        is none. */
    method Enter(at: nat, pages: nat, tracked: bool) returns (r: nat)
      requires at in fw.live && fw.live[at] == pages && ValidFor(fw.live - {at}) && fw.Orderly()
      modifies this`outside, slots
      ensures Valid() && outside == old(outside) + (if home != 0 && tracked && r != 0 then {} else {at})
      ensures r == (if home == 0 || !tracked || old(Room()) then at else 0)
      ensures Held() == if home != 0 && tracked && r != 0 then old(Held()) + {Slot(at, pages)} else old(Held())
    {
      hide Firmware.Orderly, Distinct, Tracked;
      var held := false;
      r := at;
      if home != 0 && tracked {
        var ok := Track(Slot(at, pages));
        held := ok && at != 0;
        r := if ok then at else 0;
      }
      if !held {
        outside := outside + {at};
      }
    }

    /** `grub_efi_allocate_anypages`; 0 stands for a null pointer. Memory that the firmware has handed out is
        lost exactly when there is no free slot for it, or when it lies at address 0. */
    method AllocateAnyPages(pages: nat) returns (r: nat)
      requires Valid()
      modifies this`outside, slots, fw`live, fw`script, fw`traffic
      ensures Valid()
      ensures r != 0 ==> r !in old(fw.live) && fw.live == old(fw.live)[r := pages]
      ensures r != 0 && home != 0 ==> Held() == old(Held()) + {Slot(r, pages)} && outside == old(outside)
      ensures r == 0 ==> Held() == old(Held()) && outside == old(outside) + (fw.live.Keys - old(fw.live).Keys)
      ensures fw.live != old(fw.live) ==>
                (r == 0 <==> (home != 0 && !old(Room())) || 0 in fw.live.Keys - old(fw.live).Keys)
      ensures 0 in fw.live.Keys - old(fw.live).Keys ==> old(fw.script) != [] && old(fw.script)[0].1 == 0
      ensures HandsOut(old(fw.live), old(fw.script), false, 0) ==>
                var a := old(fw.script)[0].1;
                fw.live == old(fw.live)[a := pages] && r == if home != 0 && !old(Room()) then 0 else a
      ensures !HandsOut(old(fw.live), old(fw.script), false, 0) ==> fw.live == old(fw.live) && r == 0
      ensures Suffix(fw.script, old(fw.script))
    {
      hide Firmware.Orderly, Distinct, Tracked, Accounts, Room;
      var status, at := fw.AllocatePages(false, 0, pages);
      if !status.Success? {
        return 0;
      }
      assert fw.live - {at} == old(fw.live);
      r := Enter(at, pages, true);
    }

    /** Memory at an address other than 0: what the firmware has at 0 is exchanged for other memory, or given
        back when there is none; `at` is 0 then. */
    method Obtain(fixed: bool, wanted: nat, pages: nat) returns (status: Status, at: nat)
      requires Valid() && wanted != 0
      modifies this`outside, slots, fw
      ensures ValidFor(old(fw.live)) && Held() == old(Held()) && outside == old(outside) && (Room() <==> old(Room()))
      ensures fw.Orderly() && Suffix(fw.script, old(fw.script))
      ensures status.Success? && at != 0 ==>
                at !in old(fw.live) && fw.live == old(fw.live)[at := pages] && (fixed ==> at == wanted)
      ensures !status.Success? || at == 0 ==> fw.live == old(fw.live)
      ensures (if status.Success? && at != 0 then Some(at) else None) ==
                Obtainable(old(fw.live), old(fw.script), fixed, wanted)
      ensures status.NotFound? <==> old(fw.script) != [] && old(fw.script)[0].0.NotFound?
    {
      hide Firmware.Orderly, Distinct, Tracked, Accounts;
      status, at := fw.AllocatePages(fixed, wanted, pages);
      if status.Success? && at == 0 {
        var again, other := fw.AllocatePages(fixed, HIGHEST, pages);
        GiveBackZero(pages, old(fw.live));
        if again.Success? {
          at := other;
          assert fw.live == old(fw.live)[at := pages];
        } else {
          assert fw.live == old(fw.live);
        }
      }
    }

    /** Giving back memory at address 0, which no slot can hold. */
    method GiveBackZero(pages: nat, ghost before: map<nat, nat>)
      requires ValidFor(before) && fw.Orderly() && 0 in fw.live && fw.live[0] == pages && 0 !in before
      modifies this`outside, slots, fw`live, fw`freed, fw`traffic
      ensures fw.live == old(fw.live) - {0} && fw.Orderly()
      ensures ValidFor(before) && Held() == old(Held()) && outside == old(outside) && (Room() <==> old(Room()))
    {
      hide Firmware.Orderly, Distinct, Tracked;
      FreePages(0, pages);
      assert slots[..] == old(slots[..]);
    }

    /** `grub_efi_allocate_pages_real`: memory for the run-time services is not given back at the end, and if
        it is not to be had the address is used all the same. Memory that the firmware has handed out is lost
        exactly when there is no free slot for it. */
    method AllocatePages(address: nat, pages: nat, runtime: bool) returns (r: nat)
      requires Valid()
      modifies this`outside, slots, fw
      ensures Valid() && Suffix(fw.script, old(fw.script))
      ensures address > HIGHEST ==> r == 0 && fw.live == old(fw.live)
      ensures r != 0 && !runtime ==>
                r !in old(fw.live) && fw.live == old(fw.live)[r := pages] && (address != 0 ==> r == address)
      ensures r != 0 && !runtime && home != 0 ==> Held() == old(Held()) + {Slot(r, pages)} && outside == old(outside)
      ensures r == 0 || runtime ==>
                Held() == old(Held()) && outside == old(outside) + (fw.live.Keys - old(fw.live).Keys)
      ensures fw.live != old(fw.live) && !runtime ==> (r == 0 <==> home != 0 && !old(Room()))
      ensures address <= 0x7fffffff ==>
                var wanted := if address != 0 then address else 0x7fffffff;
                match Obtainable(old(fw.live), old(fw.script), address != 0, wanted)
                case Some(a) =>
                  && fw.live == old(fw.live)[a := pages]
                  && r == if home != 0 && !runtime && !old(Room()) then 0 else a
                case None =>
                  && fw.live == old(fw.live)
                  && r == if runtime && old(fw.script) != [] && old(fw.script)[0].0.NotFound? then wanted else 0
    {
      hide Firmware.Orderly, Distinct, Tracked, Accounts, Room, Suffix, Obtainable;
      SuffixOfItself(fw.script);
      if address > HIGHEST {
        return 0;
      }
      var fixed := address != 0;
      var wanted := if fixed then address else HIGHEST;
      var status, at := Obtain(fixed, wanted, pages);
      if !status.Success? {
        return if runtime && status.NotFound? then wanted else 0;
      }
      if at == 0 {
        return 0;
      }
      assert fw.live - {at} == old(fw.live);
      r := Enter(at, pages, !runtime);
    }

    /** `grub_efi_mm_init`: memory for the table itself, which is not entered in it. */
    method Init()
      requires Valid() && home == 0 && outside == {} && Held() == {}
      modifies this`home, this`outside, slots, fw
      ensures Valid() && outside == {} && Held() == {} && Suffix(fw.script, old(fw.script))
      ensures home == 0 ==> fw.live == old(fw.live)
      ensures match Obtainable(old(fw.live), old(fw.script), false, 0x7fffffff)
        case Some(a) => home == a
        case None => home == 0
    {
      hide Firmware.Orderly;
      var at := AllocatePages(0, 1, false);
      if at == 0 {
        return;
      }
      home, outside := at, {};
      for i := 0 to slots.Length
        invariant forall j :: 0 <= j < i ==> slots[j] == Slot(0, 0)
        modifies slots
      {
        slots[i] := Slot(0, 0);
      }
      assert Held() == {};
    }

    /** One step of `grub_efi_mm_fini`: the slot in use is emptied by giving its pages back. */
    method FreeHeld(i: nat, ghost before: seq<(nat, nat)>, ghost held: set<Slot>)
      requires Valid() && home != 0 && i < slots.Length && slots[i].addr != 0
      requires |before| <= |fw.freed| && fw.freed[..|before|] == before
      requires Held() <= held && OnceEach(fw.freed[|before|..], held - Held())
      requires forall s, t :: s in held && t in held && s.addr == t.addr ==> s == t
      modifies this`outside, slots, fw`live, fw`freed, fw`traffic
      ensures Valid() && outside == old(outside) && slots[i].addr == 0
      ensures forall j :: 0 <= j < slots.Length && old(slots[j]).addr == 0 ==> slots[j].addr == 0
      ensures |before| <= |fw.freed| && fw.freed[..|before|] == before
      ensures Held() <= held && OnceEach(fw.freed[|before|..], held - Held())
    {
      hide Firmware.Orderly;
      var s := slots[i];
      assert s in Held();
      ghost var calls := fw.freed[|before|..];
      FreePages(s.addr, s.pages);
      assert fw.freed[|before|..] == calls + [(s.addr, s.pages)];
    }

    /** The loop of `grub_efi_mm_fini`. */
    method FreeAllHeld()
      requires Valid() && home != 0
      modifies this`outside, slots, fw`live, fw`freed, fw`traffic
      ensures Valid() && outside == old(outside) && Held() == {}
      ensures |fw.freed| >= |old(fw.freed)| && fw.freed[..|old(fw.freed)|] == old(fw.freed)
      ensures OnceEach(fw.freed[|old(fw.freed)|..], old(Held()))
    {
      ghost var before, held := fw.freed, Held();
      assert OnceEach(fw.freed[|before|..], held - Held());
      assert forall s, t :: s in held && t in held && s.addr == t.addr ==> s == t;
      hide ValidFor, OnceEach, Firmware.Orderly;
      var i := 0;
      while i < slots.Length
        invariant i <= slots.Length && Valid() && outside == old(outside)
        invariant forall j :: 0 <= j < i ==> slots[j].addr == 0
        invariant |before| <= |fw.freed| && fw.freed[..|before|] == before
        invariant Held() <= held && OnceEach(fw.freed[|before|..], held - Held())
      {
        if slots[i].addr != 0 {
          FreeHeld(i, before, held);
        }
        i := i + 1;
      }
      assert Held() == {};
      assert held - Held() == held;
    }

    /** `grub_efi_mm_fini`: every allocation held is given back exactly once, with its page count, and the
        table last; nothing else is touched. */
    method Fini()
      requires Valid()
      modifies this`outside, slots, fw`live, fw`freed, fw`traffic
      ensures fw.Orderly()
      ensures home == 0 ==> fw.live == old(fw.live) && fw.freed == old(fw.freed)
      ensures home != 0 ==> fw.live.Keys == base.Keys + outside && outside == old(outside)
      ensures forall a :: a in base ==> a in fw.live && fw.live[a] == base[a]
      ensures home != 0 ==>
                && |fw.freed| >= |old(fw.freed)| + 1 && fw.freed[..|old(fw.freed)|] == old(fw.freed)
                && fw.freed[|fw.freed| - 1] == (home, 1)
                && OnceEach(fw.freed[|old(fw.freed)|..|fw.freed| - 1], old(Held()))
    {
      hide OnceEach, Distinct, Firmware.Orderly;
      if home == 0 {
        return;
      }
      FreeAllHeld();
      ghost var calls := fw.freed[|old(fw.freed)|..];
      FreePages(home, 1);
      assert fw.freed[|old(fw.freed)|..|fw.freed| - 1] == calls;
    }

    /** With fewer allocations held than there are slots, one is free. */
    lemma RoomLeft()
      requires Valid() && |Held()| < slots.Length
      ensures Room()
    {
      if !Room() {
        FullTable(slots[..]);
      }
    }
  }

  // ----- from beginning to end

  datatype Op = AnyPages(pages: nat) | PagesAt(address: nat, pages: nat) | RuntimePages(address: nat, pages: nat)
    | Free(address: nat)

  /** The firmware never hands out memory at address 0. */
  ghost predicate NoZero(script: seq<(Status, nat)>) {
    forall i :: 0 <= i < |script| ==> script[i].1 != 0
  }

  lemma NoZeroBehind(s: seq<(Status, nat)>, t: seq<(Status, nat)>)
    requires Suffix(s, t) && NoZero(t)
    ensures NoZero(s)
  {
  }

  /** What a caller gets for an operation, from the memory in use, the script of the firmware, and the question
      whether there is a free slot. */
  ghost function Given(op: Op, live: map<nat, nat>, script: seq<(Status, nat)>, room: bool): nat
    requires !op.Free?
  {
    if op.AnyPages? then if HandsOut(live, script, false, 0) && room then script[0].1 else 0
    else if op.address > 0x7fffffff then 0
    else
      var wanted := if op.address != 0 then op.address else 0x7fffffff;
      match Obtainable(live, script, op.address != 0, wanted)
      case Some(a) => if op.RuntimePages? || room then a else 0
      case None => if op.RuntimePages? && script != [] && script[0].0.NotFound? then wanted else 0
  }

  /** What is lost in an operation, that is, handed out by the firmware and neither held by the table nor known
      to the caller, is memory for the run-time services, memory at address 0, or memory for which there was no
      free slot. */
  method Allocate(t: PageTable, op: Op) returns (r: nat, ghost lost: set<nat>)
    requires t.Valid() && t.home != 0 && !op.Free?
    modifies t`outside, t.slots, t.fw
    ensures t.Valid() && t.outside == old(t.outside) + lost && Suffix(t.fw.script, old(t.fw.script))
    ensures t.Held() == old(t.Held()) + if r != 0 && !op.RuntimePages? then {Slot(r, op.pages)} else {}
    ensures r == Given(op, old(t.fw.live), old(t.fw.script), old(t.Room()))
    ensures lost != {} ==> op.RuntimePages? || !old(t.Room()) || !NoZero(old(t.fw.script))
  {
    hide PageTable.ValidFor, Firmware.Orderly, Tracked, Suffix, PageTable.Room, NoZero, Addresses, HandsOut, Obtainable;
    ZeroAhead(t.fw.script);
    match op {
      case AnyPages(pages) =>
        r := t.AllocateAnyPages(pages);
      case PagesAt(address, pages) =>
        r := t.AllocatePages(address, pages, false);
      case RuntimePages(address, pages) =>
        r := t.AllocatePages(address, pages, true);
    }
    lost := t.outside - old(t.outside);
  }

  /** One operation of a caller who frees only what is `owned`. */
  method Perform(t: PageTable, op: Op, owned: set<nat>) returns (owned': set<nat>, ghost lost: set<nat>)
    requires t.Valid() && t.home != 0 && owned <= Addresses(t.Held())
    modifies t`outside, t.slots, t.fw
    ensures t.Valid() && owned' <= Addresses(t.Held()) && t.outside == old(t.outside) + lost
    ensures |t.Held()| <= old(|t.Held()|) + 1 && Suffix(t.fw.script, old(t.fw.script))
    ensures op.Free? ==> owned' == owned - {op.address}
    ensures !op.Free? ==>
              var r := Given(op, old(t.fw.live), old(t.fw.script), old(t.Room()));
              owned' == owned + if r != 0 && !op.RuntimePages? then {r} else {}
    ensures lost != {} ==> op.RuntimePages? || !old(t.Room()) || !NoZero(old(t.fw.script))
  {
    hide PageTable.Valid, Tracked, Suffix, PageTable.Room, NoZero, Addresses, Given;
    SuffixOfItself(t.fw.script);
    owned', lost := owned, {};
    if op.Free? {
      if op.address in owned {
        Release(t, op.address);
        owned' := owned - {op.address};
      }
    } else {
      ghost var held := t.Held();
      var r;
      r, lost := Allocate(t, op);
      AddressesOn(held, Slot(r, op.pages));
      if r != 0 && !op.RuntimePages? {
        owned' := owned + {r};
      }
    }
  }

  /** A matching free. */
  method Release(t: PageTable, address: nat)
    requires t.Valid() && t.home != 0 && address in Addresses(t.Held())
    modifies t`outside, t.slots, t.fw`live, t.fw`freed, t.fw`traffic
    ensures t.Valid() && t.outside == old(t.outside) && |t.Held()| <= old(|t.Held()|)
    ensures Addresses(t.Held()) == old(Addresses(t.Held())) - {address}
  {
    hide Firmware.Orderly, Distinct;
    t.FreePages(address, t.fw.live[address]);
    FewerSlots(t.Held(), old(t.Held()));
  }

  lemma ZeroAhead(script: seq<(Status, nat)>)
    ensures script != [] && script[0].1 == 0 ==> !NoZero(script)
  {
  }

  lemma AddressesOn(held: set<Slot>, s: Slot)
    ensures Addresses(held + {s}) == Addresses(held) + {s.addr}
  {
  }

  lemma FewerSlots(a: set<Slot>, b: set<Slot>)
    requires a <= b
    ensures |a| <= |b|
  {
    assert b == a + (b - a);
  }

  /** From `grub_efi_mm_init` to `grub_efi_mm_fini`, for any allocations and matching frees in between: all
      memory that was in use before is still in use, and besides it exactly what was lost on the way. Nothing is
      lost if none of the requests is for the run-time services, there are no more of them than slots and the
      firmware does not hand out memory at address 0. All traffic with the firmware is in order: nothing is given
      back twice, or with another page count. */
  method Lifetime(fw: Firmware, capacity: nat, ops: seq<Op>) returns (started: bool, ghost lost: set<nat>)
    requires fw.Orderly()
    modifies fw
    ensures forall a :: a in old(fw.live) ==> a in fw.live && fw.live[a] == old(fw.live)[a]
    ensures fw.live.Keys == old(fw.live).Keys + lost
    ensures Replay(fw.origin, fw.traffic) == Some(fw.live)
    ensures started <==> Obtainable(old(fw.live), old(fw.script), false, 0x7fffffff).Some?
    ensures (forall i :: 0 <= i < |ops| ==> !ops[i].RuntimePages?) && |ops| <= capacity && NoZero(old(fw.script)) ==>
              lost == {}
  {
    hide PageTable.ValidFor, Firmware.Orderly, Tracked, OnceEach, NoZero, Suffix, Replay, Addresses;
    var t := new PageTable(fw, capacity);
    t.Init();
    lost := {};
    started := t.home != 0;
    if !started {
      OrderlyMeans(fw);
      return;
    }
    NothingHeld(t);
    var owned := {};
    for i := 0 to |ops|
      invariant t.Valid() && t.home != 0 && t.fw == fw && fresh(t) && fresh(t.slots) && t.slots.Length == capacity
      invariant t.base == old(fw.live) && owned <= Addresses(t.Held()) && t.outside == lost
      invariant |t.Held()| <= i && Suffix(fw.script, old(fw.script))
      invariant (forall j :: 0 <= j < i ==> !ops[j].RuntimePages?) && |ops| <= capacity && NoZero(old(fw.script)) ==>
                  lost == {}
    {
      ghost var more, script := {}, fw.script;
      if |ops| <= capacity {
        t.RoomLeft();
      }
      if NoZero(old(fw.script)) {
        NoZeroBehind(fw.script, old(fw.script));
      }
      owned, more := Perform(t, ops[i], owned);
      lost := lost + more;
      SuffixOn(fw.script, script, old(fw.script));
    }
    t.Fini();
    OrderlyMeans(fw);
  }

  lemma OrderlyMeans(fw: Firmware)
    requires fw.Orderly()
    ensures Replay(fw.origin, fw.traffic) == Some(fw.live)
  {
  }

  lemma NothingHeld(t: PageTable)
    requires t.Held() == {}
    ensures |t.Held()| == 0 && {} <= Addresses(t.Held())
  {
  }
}
