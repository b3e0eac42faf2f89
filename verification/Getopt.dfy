/**
  The permuting scanner of lib/getopt.c: `exchange`, `_getopt_initialize` and
  `_getopt_internal`, with argv permuted in place and the scan position kept
  between calls.
 */
module Getopt {
  import opened Wrappers
  import opened Numbers
  import opened GetoptSpec

  /** What is known of the options that `name` abbreviates after `i` of them: the first, and whether there is a
      second. */
  ghost predicate SeenAbbreviated(opts: seq<LongOption>, name: string, i: nat, found: Option<nat>, ambig: bool)
    requires i <= |opts|
  {
    match found
    case None => !ambig && FirstAbbreviated(opts, name, 0) == FirstAbbreviated(opts, name, i)
    case Some(k) =>
      && k < i && k == FirstAbbreviated(opts, name, 0)
      && var second := FirstAbbreviated(opts, name, k + 1);
         if ambig then second < |opts| else second == FirstAbbreviated(opts, name, i)
  }

  /** The state of the long-name loop. */
  ghost predicate Seen(opts: seq<LongOption>, name: string, i: nat, found: Option<nat>, exact: bool, ambig: bool)
    requires i <= |opts|
  {
    if exact then i < |opts| && FirstExact(opts, name, 0) == i && found == Some(i)
    else FirstExact(opts, name, 0) == FirstExact(opts, name, i) && SeenAbbreviated(opts, name, i, found, ambig)
  }

  lemma NothingSeen(opts: seq<LongOption>, name: string)
    ensures Seen(opts, name, 0, None, false, false)
  {
  }

  lemma SeeExact(opts: seq<LongOption>, name: string, i: nat, found: Option<nat>, ambig: bool)
    requires i < |opts| && Seen(opts, name, i, found, false, ambig) && opts[i].name == name
    ensures Seen(opts, name, i, Some(i), true, ambig)
  {
  }

  lemma SeeOneMore(opts: seq<LongOption>, name: string, i: nat, found: Option<nat>, ambig: bool)
    requires i < |opts| && Seen(opts, name, i, found, false, ambig) && opts[i].name != name
    ensures if !(name <= opts[i].name) then Seen(opts, name, i + 1, found, false, ambig)
            else if found.None? then Seen(opts, name, i + 1, Some(i), false, ambig)
            else Seen(opts, name, i + 1, found, false, true)
  {
    assert FirstExact(opts, name, i) == FirstExact(opts, name, i + 1);
    assert FirstAbbreviated(opts, name, i) == if name <= opts[i].name then i else FirstAbbreviated(opts, name, i + 1);
    hide FirstAbbreviated, FirstExact;
  }

  lemma SeenAll(opts: seq<LongOption>, name: string, i: nat, found: Option<nat>, exact: bool, ambig: bool)
    requires i <= |opts| && Seen(opts, name, i, found, exact, ambig) && (i == |opts| || exact)
    ensures LongMatch(opts, name) ==
              if ambig && !exact then Ambiguous else if found.Some? then Found(found.value) else Unknown
  {
    hide FirstAbbreviated, FirstExact;
  }

  lemma SameName(s: string, name: string)
    ensures s == name <==> name <= s && |name| == |s|
  {
  }

  /** The long-name loop: stop at an exact match, remember the first abbreviation. */
  method FindLong(opts: seq<LongOption>, name: string) returns (m: Match)
    ensures m == LongMatch(opts, name)
  {
    hide *;
    var found: Option<nat> := None;
    var exact, ambig := false, false;
    var i := 0;
    NothingSeen(opts, name);
    while i < |opts| && !exact
      invariant i <= |opts| && Seen(opts, name, i, found, exact, ambig)
      decreases |opts| - i, !exact
    {
      SameName(opts[i].name, name);
      if name <= opts[i].name {
        if |name| == |opts[i].name| {
          SeeExact(opts, name, i, found, ambig);
          found, exact := Some(i), true;
        } else {
          SeeOneMore(opts, name, i, found, ambig);
          if found.None? {
            found, i := Some(i), i + 1;
          } else {
            ambig, i := true, i + 1;
          }
        }
      } else {
        SeeOneMore(opts, name, i, found, ambig);
        i := i + 1;
      }
    }
    SeenAll(opts, name, i, found, exact, ambig);
    if ambig && !exact {
      return Ambiguous;
    }
    m := if found.Some? then Found(found.value) else Unknown;
  }

  /** Swaps a[x..x+len) with a[y..y+len), the inner loop of `exchange`. */
  method SwapBlocks(a: array<string>, x: nat, y: nat, len: nat)
    requires x + len <= y && y + len <= a.Length
    modifies a
    ensures a[x..x + len] == old(a[y..y + len]) && a[y..y + len] == old(a[x..x + len])
    ensures forall k :: 0 <= k < a.Length && !(x <= k < x + len) && !(y <= k < y + len) ==> a[k] == old(a[k])
  {
    var i := 0;
    while i < len
      invariant i <= len
      invariant a[x..x + i] == old(a[y..y + i]) && a[y..y + i] == old(a[x..x + i])
      invariant forall k :: 0 <= k < a.Length && !(x <= k < x + i) && !(y <= k < y + i) ==> a[k] == old(a[k])
    {
      a[x + i], a[y + i] := a[y + i], a[x + i];
      i := i + 1;
    }
  }

  /** `s` with its adjacent blocks [bottom, middle) and [middle, top) in the other order. */
  ghost function Exchanged(s: seq<string>, bottom: nat, middle: nat, top: nat): seq<string>
    requires bottom <= middle <= top <= |s|
  {
    s[..bottom] + s[middle..top] + s[bottom..middle] + s[top..]
  }

  lemma NothingExchanged(s: seq<string>, bottom: nat, middle: nat, top: nat)
    requires bottom <= middle <= top <= |s| && (bottom == middle || middle == top)
    ensures Exchanged(s, bottom, middle, top) == s
  {
  }

  /** The shorter bottom block is in place once it has changed places with the far end of the top block. */
  lemma BottomMoved(s: seq<string>, t: seq<string>, bottom: nat, middle: nat, top: nat)
    requires bottom < middle <= top - (middle - bottom) && top <= |s| == |t|
    requires var cut := top - (middle - bottom);
      && t[bottom..middle] == s[cut..top] && t[cut..top] == s[bottom..middle]
      && forall k :: 0 <= k < |s| && !(bottom <= k < middle) && !(cut <= k < top) ==> t[k] == s[k]
    ensures Exchanged(t, bottom, middle, top - (middle - bottom)) == Exchanged(s, bottom, middle, top)
  {
    var cut := top - (middle - bottom);
    assert t[..bottom] == s[..bottom] && t[middle..cut] == s[middle..cut] && t[top..] == s[top..];
    assert t[cut..] == t[cut..top] + t[top..];
    assert s[middle..top] == s[middle..cut] + s[cut..top];
  }

  lemma TopMoved(s: seq<string>, t: seq<string>, bottom: nat, middle: nat, top: nat)
    requires bottom + (top - middle) <= middle < top <= |s| == |t|
    requires var cut := bottom + (top - middle);
      && t[bottom..cut] == s[middle..top] && t[middle..top] == s[bottom..cut]
      && forall k :: 0 <= k < |s| && !(bottom <= k < cut) && !(middle <= k < top) ==> t[k] == s[k]
    ensures Exchanged(t, bottom + (top - middle), middle, top) == Exchanged(s, bottom, middle, top)
  {
    var cut := bottom + (top - middle);
    assert t[..bottom] == s[..bottom] && t[cut..middle] == s[cut..middle] && t[top..] == s[top..];
    assert t[..cut] == t[..bottom] + t[bottom..cut];
    assert s[bottom..middle] == s[bottom..cut] + s[cut..middle];
  }

  method MoveBottom(a: array<string>, bottom: nat, middle: nat, top: nat)
    requires bottom < middle <= top - (middle - bottom) && top <= a.Length
    modifies a
    ensures Exchanged(a[..], bottom, middle, top - (middle - bottom)) == Exchanged(old(a[..]), bottom, middle, top)
  {
    SwapBlocks(a, bottom, top - (middle - bottom), middle - bottom);
    BottomMoved(old(a[..]), a[..], bottom, middle, top);
  }

  method MoveTop(a: array<string>, bottom: nat, middle: nat, top: nat)
    requires bottom + (top - middle) <= middle < top <= a.Length
    modifies a
    ensures Exchanged(a[..], bottom + (top - middle), middle, top) == Exchanged(old(a[..]), bottom, middle, top)
  {
    SwapBlocks(a, bottom, middle, top - middle);
    TopMoved(old(a[..]), a[..], bottom, middle, top);
  }

  /** The block-swapping loop of `exchange`. */
  method ExchangeBlocks(a: array<string>, first: nat, last: nat, end: nat)
    requires first <= last <= end <= a.Length
    modifies a
    ensures a[..] == Exchanged(old(a[..]), first, last, end)
  {
    hide *;
    var bottom: nat, middle: nat, top: nat := first, last, end;
    ghost var target := Exchanged(a[..], first, last, end);
    while top > middle > bottom
      invariant bottom <= middle <= top <= a.Length
      invariant Exchanged(a[..], bottom, middle, top) == target
      decreases top - bottom
    {
      if top - middle > middle - bottom {
        MoveBottom(a, bottom, middle, top);
        top := top - (middle - bottom);
      } else {
        MoveTop(a, bottom, middle, top);
        bottom := bottom + (top - middle);
      }
    }
    NothingExchanged(a[..], bottom, middle, top);
  }

  /** Characters and elements of `args` still to be scanned. */
  ghost function Bulk(args: seq<string>): nat {
    if args == [] then 0 else |args[0]| + 1 + Bulk(args[1..])
  }

  lemma {:induction false} BulkDrops(args: seq<string>, n: nat)
    requires n <= |args|
    ensures Bulk(args[n..]) + n <= Bulk(args)
  {
    if n == 0 {
      assert args[0..] == args;
    } else {
      BulkDrops(args[1..], n - 1);
      assert args[1..][n - 1..] == args[n..];
    }
  }

  /** The scanner's state as a value: argv, the block of skipped operands, and the scan position. */
  datatype Scan = Scan(args: seq<string>, first: nat, last: nat, optind: nat, nextchar: string)

  /** Between calls `optind` may lie anywhere from 1 on: after the return of -1 it is in front of the
      operands, and a caller may have moved it back. */
  ghost predicate WellFormed(v: Scan) {
    && 1 <= v.first <= v.last <= |v.args| && 1 <= v.optind <= |v.args|
    && (v.nextchar != "" ==> v.last <= v.optind < |v.args| && IsOption(v.args[v.optind]))
  }

  /** What is left to read. */
  ghost function Remaining(cfg: Config, v: Scan): Parse
    requires WellFormed(v)
  {
    if v.nextchar == "" then Read(cfg, v.args[v.optind..]) else ReadFrom(cfg, v.nextchar, v.args[v.optind..])
  }

  /** The option elements scanned so far, those already in place and those still behind operands. */
  ghost function Options(v: Scan): seq<string>
    requires WellFormed(v)
  {
    v.args[1..Min(v.first, v.optind)] + v.args[Min(v.last, v.optind)..v.optind]
  }

  /** The operands skipped so far. */
  ghost function Operands(v: Scan): seq<string>
    requires WellFormed(v)
  {
    v.args[Min(v.first, v.optind)..Min(v.last, v.optind)]
  }

  /** The reading of the whole list, as far as this state still determines it: the events to come, and
      the two element lists, done and to come. */
  ghost function Whole(cfg: Config, v: Scan): Parse
    requires WellFormed(v)
  {
    var p := Remaining(cfg, v);
    Parse(p.events, Options(v) + p.options, Operands(v) + p.operands)
  }

  ghost function Unscanned(v: Scan): nat
    requires WellFormed(v)
  {
    if v.nextchar == "" then Bulk(v.args[v.optind..]) else |v.nextchar| + Bulk(v.args[v.optind + 1..])
  }

  // ----- what each step of a call does to the reading

  /** The scan position after decoding: past the element when its text is used up, and past the
      next one too when that was taken as an argument. */
  ghost function Position(start: nat, d: Decoded): nat {
    start + (if d.rest == "" then 1 else 0) + (if d.tookNext then 1 else 0)
  }

  /** Decoding takes the first event off what was left to read, and takes the elements it moves over
      off the options to come. */
  lemma RemainingAfterDecode(cfg: Config, v: Scan, d: Decoded)
    requires WellFormed(v) && v.nextchar != ""
    requires d == Decode(cfg, v.args[v.optind], v.nextchar, Next(v.args[v.optind..]))
    ensures WellFormed(v.(optind := Position(v.optind, d), nextchar := d.rest))
    ensures var v' := v.(optind := Position(v.optind, d), nextchar := d.rest);
      && Unscanned(v') < Unscanned(v)
      && var p := Remaining(cfg, v');
         Remaining(cfg, v) == Parse([d.event] + p.events, v.args[v.optind..v'.optind] + p.options, p.operands)
  {
    hide Read, ReadFrom, Decode, Bulk, IsOption;
    var args, optind, position := v.args, v.optind, Position(v.optind, d);
    ReadFromStep(cfg, v.nextchar, args[optind..], d);
    LessAfterDecode(cfg, v, d);
    if d.rest == "" {
      assert args[optind..][position - optind..] == args[position..];
      assert args[optind..][..position - optind] == args[optind..position];
    } else {
      var p := ReadFrom(cfg, d.rest, args[optind..]);
      assert args[optind..optind] + p.options == p.options;
    }
  }

  lemma LessAfterDecode(cfg: Config, v: Scan, d: Decoded)
    requires WellFormed(v) && v.nextchar != ""
    requires d == Decode(cfg, v.args[v.optind], v.nextchar, Next(v.args[v.optind..]))
    ensures WellFormed(v.(optind := Position(v.optind, d), nextchar := d.rest))
    ensures Unscanned(v.(optind := Position(v.optind, d), nextchar := d.rest)) < Unscanned(v)
  {
    hide Decode, Bulk, IsOption;
    var args, optind, position := v.args, v.optind, Position(v.optind, d);
    if d.rest == "" {
      BulkDrops(args[optind + 1..], position - optind - 1);
      assert args[optind + 1..][position - optind - 1..] == args[position..];
    }
  }

  /** One decoded option is exactly the first event that was still to come. */
  lemma DecodeStep(cfg: Config, v: Scan, d: Decoded)
    requires WellFormed(v) && v.nextchar != ""
    requires d == Decode(cfg, v.args[v.optind], v.nextchar, Next(v.args[v.optind..]))
    ensures var v' := v.(optind := Position(v.optind, d), nextchar := d.rest);
      && WellFormed(v') && Unscanned(v') < Unscanned(v)
      && Whole(cfg, v) == Whole(cfg, v').(events := [d.event] + Whole(cfg, v').events)
  {
    hide Remaining, Unscanned, Decode, IsOption;
    var v' := v.(optind := Position(v.optind, d), nextchar := d.rest);
    RemainingAfterDecode(cfg, v, d);
    var moved, p := v.args[v.optind..v'.optind], Remaining(cfg, v');
    assert Options(v') == Options(v) + moved;
    assert Options(v) + (moved + p.options) == (Options(v) + moved) + p.options;
  }

  /** Pulling the block of skipped operands back to `optind` changes nothing. */
  lemma ClampKeepsWhole(cfg: Config, v: Scan)
    requires WellFormed(v) && v.nextchar == ""
    ensures var w := v.(first := Min(v.first, v.optind), last := Min(v.last, v.optind));
      WellFormed(w) && Whole(cfg, w) == Whole(cfg, v) && Unscanned(w) == Unscanned(v)
  {
  }

  /** The state with every option scanned so far in front of the skipped operands. */
  ghost function Settle(v: Scan): Scan
    requires WellFormed(v) && v.nextchar == "" && v.last <= v.optind
  {
    if v.first != v.last && v.last != v.optind then
      v.(args := Exchanged(v.args, v.first, v.last, v.optind), first := v.first + (v.optind - v.last), last := v.optind)
    else if v.last != v.optind then v.(first := v.optind, last := v.optind)
    else v
  }

  lemma SettleKeepsWhole(cfg: Config, v: Scan)
    requires WellFormed(v) && v.nextchar == "" && v.last <= v.optind
    ensures var w := Settle(v);
      && WellFormed(w) && w.last == w.optind == v.optind
      && w.args[..1] == v.args[..1] && w.args[v.optind..] == v.args[v.optind..]
    ensures Whole(cfg, Settle(v)) == Whole(cfg, v) && Unscanned(Settle(v)) == Unscanned(v)
  {
    var w := Settle(v);
    assert w.args[v.optind..] == v.args[v.optind..];
    assert Options(w) == w.args[1..w.first] == Options(v);
    assert Operands(w) == Operands(v);
  }

  /** Skipping operands up to `k` extends the block of skipped operands. */
  lemma SkipKeepsWhole(cfg: Config, v: Scan, k: nat)
    requires WellFormed(v) && v.nextchar == "" && v.last == v.optind <= k <= |v.args|
    requires forall i :: v.optind <= i < k ==> IsOperand(v.args[i])
    ensures var w := v.(optind := k, last := k);
      WellFormed(w) && Whole(cfg, w) == Whole(cfg, v) && Unscanned(w) <= Unscanned(v)
  {
    hide Read, ReadFrom, Bulk;
    var w, n := v.(optind := k, last := k), k - v.optind;
    var rest := v.args[v.optind..];
    ReadSkips(cfg, rest, n);
    BulkDrops(rest, n);
    assert rest[n..] == v.args[k..];
    assert Options(w) == Options(v);
    assert Operands(w) == Operands(v) + rest[..n];
    var q := Read(cfg, v.args[k..]);
    assert Operands(v) + (rest[..n] + q.operands) == (Operands(v) + rest[..n]) + q.operands;
  }

  /** At the end of the list, all that is left is where the operands begin. */
  lemma EndOfList(cfg: Config, v: Scan)
    requires WellFormed(v) && v.nextchar == "" && v.last == v.optind == |v.args|
    ensures var p := Whole(cfg, v);
      p.events == [] && v.args == v.args[..1] + p.options + p.operands && v.first == 1 + |p.options|
  {
    var p := Whole(cfg, v);
    assert p.options == v.args[1..v.first] && p.operands == v.args[v.first..];
  }

  lemma DoubleDashReads(cfg: Config, v: Scan)
    requires WellFormed(v) && v.nextchar == "" && v.last == v.optind < |v.args| && v.args[v.optind] == "--"
    ensures 1 <= v.first <= v.optind
    ensures var p, k := Whole(cfg, v), v.optind;
      && p.events == [] && p.options == v.args[1..v.first] + v.args[k..k + 1]
      && p.operands == v.args[v.first..k] + v.args[k + 1..]
  {
    hide ReadFrom;
    var k := v.optind;
    assert v.args[k..][..1] == v.args[k..k + 1] && v.args[k..][1..] == v.args[k + 1..];
  }

  lemma DoubleDashSettles(v: Scan)
    requires WellFormed(v) && v.nextchar == "" && v.last == v.optind < |v.args|
    ensures WellFormed(v.(optind := v.optind + 1))
    ensures var w, k := Settle(v.(optind := v.optind + 1)), v.optind;
      && w.args == v.args[..v.first] + v.args[k..k + 1] + v.args[v.first..k] + v.args[k + 1..] && w.first == v.first + 1
  {
    var k := v.optind;
    if v.first == k {
      assert v.args == v.args[..k] + v.args[k..k + 1] + v.args[k..k] + v.args[k + 1..];
    }
  }

  /** `--` ends the options: it joins them, and everything behind it is an operand. */
  lemma DoubleDash(cfg: Config, v: Scan)
    requires WellFormed(v) && v.nextchar == "" && v.last == v.optind < |v.args| && v.args[v.optind] == "--"
    ensures var w, p := Settle(v.(optind := v.optind + 1)), Whole(cfg, v);
      p.events == [] && w.args == v.args[..1] + p.options + p.operands && w.first == 1 + |p.options|
  {
    hide *;
    DoubleDashReads(cfg, v);
    DoubleDashSettles(v);
    var k := v.optind;
    var option, operands, rest := v.args[k..k + 1], v.args[v.first..k], v.args[k + 1..];
    assert v.args[..v.first] == v.args[..1] + v.args[1..v.first];
    assert (v.args[..1] + v.args[1..v.first]) + option + operands + rest
        == v.args[..1] + (v.args[1..v.first] + option) + (operands + rest);
  }

  /** An option element is opened by pointing at its text. */
  lemma OpenElement(cfg: Config, v: Scan)
    requires WellFormed(v) && v.nextchar == "" && v.last == v.optind < |v.args| && IsOption(v.args[v.optind])
    ensures var w := v.(nextchar := Text(cfg, v.args[v.optind]));
      WellFormed(w) && Whole(cfg, w) == Whole(cfg, v) && Unscanned(w) < Unscanned(v)
  {
    assert v.args[v.optind..][1..] == v.args[v.optind + 1..];
  }

  class Scanner {
    const cfg: Config
    const argv: array<string>
    var optind: nat
    var initialized: bool
    var firstNonopt: nat
    var lastNonopt: nat
    var nextchar: string  // "" stands for a null pointer as well as for an empty string

    ghost predicate Started()
      reads this
    {
      initialized && optind != 0
    }

    /** Before the first call the state counts as the one `_getopt_initialize` sets up. */
    ghost function View(): Scan
      reads this, argv
    {
      if Started() then Scan(argv[..], firstNonopt, lastNonopt, optind, nextchar)
      else var at := if optind == 0 then 1 else optind; Scan(argv[..], at, at, at, "")
    }

    ghost predicate Valid()
      reads this, argv
    {
      Supported(cfg) && WellFormed(View())
    }

    constructor (cfg: Config, argv: array<string>)
      requires Supported(cfg) && argv.Length >= 1
      ensures Valid() && this.cfg == cfg && this.argv == argv && View() == Scan(argv[..], 1, 1, 1, "")
    {
      this.cfg, this.argv := cfg, argv;
      optind, initialized := 1, false;
      firstNonopt, lastNonopt, nextchar := 0, 0, "";
    }

    /** `exchange`: the options scanned since the skipped operands move in front of them. */
    method Exchange()
      requires firstNonopt <= lastNonopt <= optind <= argv.Length
      modifies this`firstNonopt, this`lastNonopt, argv
      ensures argv[..] == Exchanged(old(argv[..]), old(firstNonopt), old(lastNonopt), optind)
      ensures firstNonopt == old(firstNonopt) + (optind - old(lastNonopt)) && lastNonopt == optind
    {
      ExchangeBlocks(argv, firstNonopt, lastNonopt, optind);
      firstNonopt := firstNonopt + (optind - lastNonopt);
      lastNonopt := optind;
    }

    /** `_getopt_initialize`, for PERMUTE ordering. */
    method Initialize()
      modifies this`firstNonopt, this`lastNonopt, this`nextchar
      ensures firstNonopt == lastNonopt == optind && nextchar == ""
    {
      firstNonopt, lastNonopt, nextchar := optind, optind, "";
    }

    method NameEnd(text: string) returns (n: nat)
      ensures n == IndexOf(text, '=')
    {
      n := 0;
      while n < |text| && text[n] != '='
        invariant n <= |text| && IndexOf(text, '=') == IndexOf(text, '=', n)
      {
        n := n + 1;
      }
    }

    /** Looks `nextchar` up as a long name; None leaves everything as it was, for the short options. */
    method DecodeName() returns (r: Option<Event>)
      requires Valid() && Started() && nextchar != "" && cfg.longopts.Some?
      modifies this`optind, this`nextchar
      ensures var d := DecodeLong(cfg, argv[old(optind)], old(nextchar), Next(argv[old(optind)..]));
        && (d.None? ==> r.None? && optind == old(optind) && nextchar == old(nextchar))
        && (d.Some? ==>
              r == Some(d.value.event) && optind == Position(old(optind), d.value) && nextchar == d.value.rest)
    {
      var n := NameEnd(nextchar);
      var m := FindLong(cfg.longopts.value, nextchar[..n]);
      match m
      case Ambiguous =>
        nextchar, optind := "", optind + 1;
        return Some(Complaint('?' as int, 0));
      case Unknown =>
        if !cfg.longOnly || argv[optind][1] == '-' || IndexOf(cfg.optstring, nextchar[0]) == |cfg.optstring| {
          nextchar, optind := "", optind + 1;
          return Some(Complaint('?' as int, 0));
        }
        return None;
      case Found(i) =>
        var o := cfg.longopts.value[i];
        var optarg: Option<string> := None;
        optind := optind + 1;
        if n < |nextchar| {
          if o.hasArg.NoArgument? {
            nextchar := "";
            return Some(Complaint('?' as int, o.val));
          }
          optarg := Some(nextchar[n + 1..]);
        } else if o.hasArg.RequiredArgument? {
          if optind < argv.Length {
            optarg, optind := Some(argv[optind]), optind + 1;
          } else {
            nextchar := "";
            return Some(Complaint(MissingCode(cfg), o.val));
          }
        }
        nextchar := "";
        return Some(Chosen(o, i, optarg));
    }

    /** Handles the next short option letter. */
    method DecodeLetter() returns (e: Event)
      requires Valid() && Started() && nextchar != ""
      modifies this`optind, this`nextchar
      ensures var d := DecodeShort(cfg, old(nextchar), Next(argv[old(optind)..]));
        e == d.event && optind == Position(old(optind), d) && nextchar == d.rest
    {
      var c := nextchar[0];
      nextchar := nextchar[1..];
      var k := IndexOf(cfg.optstring, c);
      if nextchar == "" {
        optind := optind + 1;
      }
      if k == |cfg.optstring| || c == ':' {
        return Complaint('?' as int, c as int);
      }
      e := Plain(c as int);
      if ColonAt(cfg.optstring, k + 1) {
        if ColonAt(cfg.optstring, k + 2) {
          if nextchar != "" {
            e := e.(optarg := Some(nextchar));
            optind := optind + 1;
          }
        } else if nextchar != "" {
          e := e.(optarg := Some(nextchar));
          optind := optind + 1;
        } else if optind == argv.Length {
          e := Complaint(MissingCode(cfg), c as int);
        } else {
          e := e.(optarg := Some(argv[optind]));
          optind := optind + 1;
        }
        nextchar := "";
      }
    }

    /** Decodes one option of the current element. */
    method DecodeElement() returns (e: Event)
      requires Valid() && Started() && nextchar != ""
      modifies this`optind, this`nextchar
      ensures var d := Decode(cfg, argv[old(optind)], old(nextchar), Next(argv[old(optind)..]));
        e == d.event && optind == Position(old(optind), d) && nextchar == d.rest
    {
      var r: Option<Event> := None;
      if LooksLong(cfg, argv[optind]) {
        r := DecodeName();
      }
      if r.Some? {
        e := r.value;
      } else {
        e := DecodeLetter();
      }
    }

    /** Brings the options scanned since the skipped operands in front of them, or starts a new block. */
    method SettleBlocks()
      requires Valid() && Started() && nextchar == "" && lastNonopt <= optind
      modifies this`firstNonopt, this`lastNonopt, argv
      ensures View() == Settle(old(View()))
    {
      if firstNonopt != lastNonopt && lastNonopt != optind {
        Exchange();
      } else if lastNonopt != optind {
        firstNonopt := optind;
        lastNonopt := optind;
      }
    }

    /** Settles the blocks and skips further operands. */
    method SkipOperands()
      requires Valid() && Started() && nextchar == "" && lastNonopt <= optind
      modifies this`optind, this`firstNonopt, this`lastNonopt, argv
      ensures Valid() && Started() && argv[..1] == old(argv[..1]) && lastNonopt == optind
      ensures optind < argv.Length ==> !IsOperand(argv[optind])
      ensures Whole(cfg, View()) == Whole(cfg, old(View())) && Unscanned(View()) <= Unscanned(old(View()))
    {
      hide Whole, Unscanned, Settle;
      SettleKeepsWhole(cfg, View());
      SettleBlocks();
      ghost var settled := View();
      while optind < argv.Length && IsOperand(argv[optind])
        invariant settled.optind <= optind <= argv.Length
        invariant forall i :: settled.optind <= i < optind ==> IsOperand(settled.args[i])
        modifies this`optind
      {
        optind := optind + 1;
      }
      lastNonopt := optind;
      SkipKeepsWhole(cfg, settled, optind);
      assert argv[..] == settled.args;
      assert View() == settled.(optind := optind, last := optind);
    }

    /** Moves on to the next option element, permuting argv; done at `--` and at the end of the list. */
    method AdvanceElement() returns (done: bool)
      requires Valid() && Started() && nextchar == "" && lastNonopt <= optind
      modifies this`optind, this`nextchar, this`firstNonopt, this`lastNonopt, argv
      ensures Valid() && Started() && argv[..1] == old(argv[..1])
      ensures done ==> var p := Whole(cfg, old(View()));
        p.events == [] && argv[..] == argv[..1] + p.options + p.operands && optind == 1 + |p.options|
      ensures !done ==> nextchar != "" && Whole(cfg, View()) == Whole(cfg, old(View()))
      ensures !done ==> Unscanned(View()) < Unscanned(old(View()))
    {
      hide Whole, Unscanned, Exchanged, Text;
      SkipOperands();
      ghost var v := View();
      if optind != argv.Length && argv[optind] == "--" {
        DoubleDash(cfg, v);
        optind := optind + 1;
        SettleBlocks();
        lastNonopt := argv.Length;
        optind := argv.Length;
      } else if optind == argv.Length {
        EndOfList(cfg, v);
      }
      if optind == argv.Length {
        if firstNonopt != lastNonopt {
          optind := firstNonopt;
        }
        return true;
      }
      OpenElement(cfg, v);
      nextchar := Text(cfg, argv[optind]);
      return false;
    }

    /** On the first call the scan starts at `optind`, or at 1. */
    method Start()
      requires Valid()
      modifies this`optind, this`initialized, this`firstNonopt, this`lastNonopt, this`nextchar
      ensures Valid() && Started() && View() == old(View())
    {
      hide IsOption, Supported;
      if optind == 0 || !initialized {
        if optind == 0 {
          optind := 1;
        }
        Initialize();
        initialized := true;
      }
    }

    /** Gives the block of skipped operands rational bounds if the caller has moved `optind` back. */
    method Clamp()
      requires Valid() && Started() && nextchar == ""
      modifies this`firstNonopt, this`lastNonopt
      ensures Valid() && Started() && lastNonopt <= optind
      ensures Whole(cfg, View()) == Whole(cfg, old(View())) && Unscanned(View()) == Unscanned(old(View()))
    {
      hide Whole, Unscanned, IsOption, Supported;
      ClampKeepsWhole(cfg, View());
      if lastNonopt > optind {
        lastNonopt := optind;
      }
      if firstNonopt > optind {
        firstNonopt := optind;
      }
    }

    /** `_getopt_internal`: one call. None stands for the return value -1. */
    method Getopt() returns (r: Option<Event>)
      requires Valid()
      modifies this, argv
      ensures Valid() && argv[..1] == old(argv[..1])
      ensures r.Some? ==> Unscanned(View()) < Unscanned(old(View()))
      ensures r.Some? ==> var p, q := Whole(cfg, View()), Whole(cfg, old(View()));
        q == p.(events := [r.value] + p.events)
      ensures r.None? ==> var p := Whole(cfg, old(View()));
        p.events == [] && argv[..] == argv[..1] + p.options + p.operands && optind == 1 + |p.options|
    {
      hide Whole, Unscanned, Decode, IsOption, Supported;
      Start();
      if nextchar == "" {
        Clamp();
        var done := AdvanceElement();
        if done {
          return None;
        }
      }
      DecodeStep(cfg, View(), Decode(cfg, argv[optind], nextchar, Next(argv[..][optind..])));
      assert argv[..][optind..] == argv[optind..];
      var e := DecodeElement();
      return Some(e);
    }
  }

  /** A fresh scan determines exactly the reading of the arguments. */
  lemma FreshScan(cfg: Config, args: seq<string>)
    requires |args| >= 1
    ensures Whole(cfg, Scan(args, 1, 1, 1, "")) == Read(cfg, args[1..])
  {
    var p := Read(cfg, args[1..]);
    assert args[1..1] + args[1..1] + p.options == p.options && args[1..1] + p.operands == p.operands;
  }

  /** Putting the two lists behind the program name permutes the command line. */
  lemma ReadingPermutes(cfg: Config, args: seq<string>)
    requires |args| >= 1
    ensures var p := Read(cfg, args[1..]); multiset(args[..1] + p.options + p.operands) == multiset(args)
  {
    hide *;
    var p := Read(cfg, args[1..]);
    ReadConserves(cfg, args[1..]);
    assert args == args[..1] + args[1..];
    assert args[..1] + p.options + p.operands == args[..1] + (p.options + p.operands);
  }

  /** The caller's loop over a whole command line. The options come out in the order in which they
      stand on the ORIGINAL command line, and argv ends up stably partitioned. */
  method ParseCommandLine(cfg: Config, argv: array<string>) returns (events: seq<Event>, optind: nat)
    requires Supported(cfg) && argv.Length >= 1
    modifies argv
    ensures var p := Read(cfg, old(argv[1..]));
      events == p.events && argv[..] == old(argv[..1]) + p.options + p.operands && optind == 1 + |p.options|
    ensures multiset(argv[..]) == multiset(old(argv[..]))
  {
    hide Whole, Unscanned, Read, WellFormed, Supported, Scanner.View;
    ghost var p, original := Read(cfg, argv[1..]), argv[..];
    FreshScan(cfg, original);
    ReadingPermutes(cfg, original);
    assert original[1..] == argv[1..] && original[..1] == argv[..1];
    var s := new Scanner(cfg, argv);
    events := [];
    while true
      invariant s.Valid() && fresh(s) && s.argv == argv && s.cfg == cfg && argv[..1] == original[..1]
      invariant p == Whole(cfg, s.View()).(events := events + Whole(cfg, s.View()).events)
      decreases Unscanned(s.View())
    {
      ghost var before := Whole(cfg, s.View());
      var r := s.Getopt();
      if r.None? {
        assert events + before.events == events;
        return events, s.optind;
      }
      ghost var after := Whole(cfg, s.View());
      assert events + ([r.value] + after.events) == (events + [r.value]) + after.events;
      events := events + [r.value];
    }
  }
}
