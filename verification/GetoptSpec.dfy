/**
  What a complete run of `getopt_long` means, said without any permutation: a
  left-to-right reading of the ORIGINAL argument list that yields the options
  reported, the option elements and the operands.

  The reading is for PERMUTE ordering (an option string without a leading `+`
  or `-`, POSIXLY_CORRECT unset) and without the `-W` convenience.
 */
module GetoptSpec {
  import opened Wrappers

  datatype HasArg = NoArgument | RequiredArgument | OptionalArgument

  /** `struct option`: with `flag` the value is stored through a pointer and 0 is returned. */
  datatype LongOption = LongOption(name: string, hasArg: HasArg, flag: bool, val: int)

  /** Everything one successful call tells its caller: the return value, `optarg`, the new `optopt`
      (when the call sets it), `*longind`, and what was stored through `flag`. */
  datatype Event = Event(code: int, optarg: Option<string>, optopt: Option<int>, longind: Option<nat>,
                         stored: Option<int>)

  datatype Config = Config(optstring: string, longopts: Option<seq<LongOption>>, longOnly: bool)

  ghost predicate Supported(cfg: Config) {
    && (cfg.optstring != "" ==> cfg.optstring[0] != '+' && cfg.optstring[0] != '-')
    && (forall i :: 0 <= i < |cfg.optstring| - 1 ==> cfg.optstring[i] == 'W' ==> cfg.optstring[i + 1] != ';')
  }

  // ----- elementary readings of strings

  /** Position of the first `c` at or after `from`, or the length of `s`. */
  function IndexOf(s: string, c: char, from: nat := 0): (k: nat)
    requires from <= |s|
    ensures from <= k <= |s|
    ensures k < |s| ==> s[k] == c
    ensures forall i :: from <= i < k ==> s[i] != c
    decreases |s| - from
  {
    if from == |s| || s[from] == c then from else IndexOf(s, c, from + 1)
  }

  predicate ColonAt(s: string, i: nat) {
    i < |s| && s[i] == ':'
  }

  /** The code for a missing argument: a leading colon in the option string asks for ':'. */
  function MissingCode(cfg: Config): int {
    if ColonAt(cfg.optstring, 0) then ':' as int else '?' as int
  }

  /** An element that does not have option syntax: `-` alone is such an element. */
  predicate IsOperand(elem: string) {
    elem == "" || elem[0] != '-' || |elem| == 1
  }

  predicate IsOption(elem: string) {
    !IsOperand(elem) && elem != "--"
  }

  /** The text of an option element after its introducer. */
  function Text(cfg: Config, elem: string): (rest: string)
    requires IsOption(elem)
    ensures 0 < |rest| < |elem|
  {
    elem[if cfg.longopts.Some? && elem[1] == '-' then 2 else 1..]
  }

  // ----- long names

  datatype Match = Unknown | Ambiguous | Found(index: nat)

  function FirstExact(opts: seq<LongOption>, name: string, from: nat): (k: nat)
    requires from <= |opts|
    ensures from <= k <= |opts|
    ensures k < |opts| ==> opts[k].name == name
    ensures forall i :: from <= i < k ==> opts[i].name != name
    decreases |opts| - from
  {
    if from == |opts| || opts[from].name == name then from else FirstExact(opts, name, from + 1)
  }

  function FirstAbbreviated(opts: seq<LongOption>, name: string, from: nat): (k: nat)
    requires from <= |opts|
    ensures from <= k <= |opts|
    ensures k < |opts| ==> name <= opts[k].name
    ensures forall i :: from <= i < k ==> !(name <= opts[i].name)
    decreases |opts| - from
  {
    if from == |opts| || name <= opts[from].name then from else FirstAbbreviated(opts, name, from + 1)
  }

  /** The exact match if there is one, else the only option abbreviated by `name`. */
  function LongMatch(opts: seq<LongOption>, name: string): (m: Match)
    ensures m.Found? ==> m.index < |opts| && name <= opts[m.index].name
  {
    var e := FirstExact(opts, name, 0);
    if e < |opts| then Found(e) else
    var p := FirstAbbreviated(opts, name, 0);
    if p == |opts| then Unknown
    else if FirstAbbreviated(opts, name, p + 1) < |opts| then Ambiguous
    else Found(p)
  }

  /** The option a table resolves `name` to, whatever its position. */
  datatype Resolution = NoSuchOption | NotUnique | Resolved(option: LongOption)

  function Resolve(opts: seq<LongOption>, name: string): Resolution {
    match LongMatch(opts, name)
    case Unknown => NoSuchOption
    case Ambiguous => NotUnique
    case Found(i) => Resolved(opts[i])
  }

  ghost predicate DistinctNames(opts: seq<LongOption>) {
    forall i, j :: 0 <= i < j < |opts| ==> opts[i].name != opts[j].name
  }

  /** Resolution in terms of the SET of options alone. */
  ghost predicate ResolvesTo(opts: seq<LongOption>, name: string, r: Resolution) {
    match r
    case NoSuchOption => forall o :: o in opts ==> !(name <= o.name)
    case NotUnique =>
      && (forall o :: o in opts ==> o.name != name)
      && (exists o, o' :: o in opts && o' in opts && o != o' && name <= o.name && name <= o'.name)
    case Resolved(o) =>
      && o in opts && name <= o.name
      && (o.name == name || forall o' :: o' in opts && name <= o'.name ==> o' == o)
  }

  lemma ResolveMeetsItsMeaning(opts: seq<LongOption>, name: string)
    requires DistinctNames(opts)
    ensures ResolvesTo(opts, name, Resolve(opts, name))
  {
    var e := FirstExact(opts, name, 0);
    if e == |opts| {
      var p := FirstAbbreviated(opts, name, 0);
      if p < |opts| {
        var q := FirstAbbreviated(opts, name, p + 1);
        if q < |opts| {
          assert opts[p] in opts && opts[q] in opts && opts[p] != opts[q];
        } else {
          forall o' | o' in opts && name <= o'.name ensures o' == opts[p] {
            var i :| 0 <= i < |opts| && opts[i] == o';
            assert i == p;
          }
        }
      }
    }
  }

  lemma MeaningIsUnique(opts: seq<LongOption>, name: string, r: Resolution, r': Resolution)
    requires DistinctNames(opts)
    requires ResolvesTo(opts, name, r) && ResolvesTo(opts, name, r')
    ensures r == r'
  {
    if r.Resolved? && r'.Resolved? {
      var i :| 0 <= i < |opts| && opts[i] == r.option;
      var j :| 0 <= j < |opts| && opts[j] == r'.option;
      assert i != j ==> opts[i].name != opts[j].name;
    }
  }

  /** Reordering a table of distinct names never changes what a name or an abbreviation means. */
  lemma TableOrderIsIrrelevant(opts: seq<LongOption>, opts': seq<LongOption>, name: string)
    requires DistinctNames(opts) && DistinctNames(opts')
    requires forall o :: o in opts <==> o in opts'
    ensures Resolve(opts, name) == Resolve(opts', name)
  {
    ResolveMeetsItsMeaning(opts, name);
    ResolveMeetsItsMeaning(opts', name);
    var r := Resolve(opts', name);
    assert ResolvesTo(opts, name, r);
    MeaningIsUnique(opts, name, Resolve(opts, name), r);
  }

  // ----- decoding one option out of an element

  /** One reported option, the text still to be scanned in the element ("" when the element is
      finished), and whether the following element was taken as the argument. */
  datatype Decoded = Decoded(event: Event, rest: string, tookNext: bool)

  function Plain(code: int): Event { Event(code, None, None, None, None) }

  function Complaint(code: int, optopt: int): Event { Event(code, None, Some(optopt), None, None) }

  function DecodeShort(cfg: Config, rest: string, next: Option<string>): (d: Decoded)
    requires rest != ""
    ensures |d.rest| < |rest|
    ensures d.tookNext ==> next.Some? && d.rest == ""
  {
    var c, rest1 := rest[0], rest[1..];
    var k := IndexOf(cfg.optstring, c);
    if k == |cfg.optstring| || c == ':' then Decoded(Complaint('?' as int, c as int), rest1, false)
    else if !ColonAt(cfg.optstring, k + 1) then Decoded(Plain(c as int), rest1, false)
    else if rest1 != "" then Decoded(Plain(c as int).(optarg := Some(rest1)), "", false)
    else if ColonAt(cfg.optstring, k + 2) then Decoded(Plain(c as int), "", false)
    else if next.None? then Decoded(Complaint(MissingCode(cfg), c as int), "", false)
    else Decoded(Plain(c as int).(optarg := next), "", true)
  }

  function Chosen(o: LongOption, index: nat, optarg: Option<string>): Event {
    if o.flag then Event(0, optarg, None, Some(index), Some(o.val)) else Event(o.val, optarg, None, Some(index), None)
  }

  /** None: the element is to be read as short options after all. */
  function DecodeLong(cfg: Config, elem: string, rest: string, next: Option<string>): (d: Option<Decoded>)
    requires cfg.longopts.Some? && IsOption(elem) && rest != ""
    ensures d.Some? ==> d.value.rest == ""
    ensures d.Some? && d.value.tookNext ==> next.Some?
  {
    var opts := cfg.longopts.value;
    var n := IndexOf(rest, '=');
    match LongMatch(opts, rest[..n])
    case Ambiguous => Some(Decoded(Complaint('?' as int, 0), "", false))
    case Unknown =>
      if !cfg.longOnly || elem[1] == '-' || IndexOf(cfg.optstring, rest[0]) == |cfg.optstring|
      then Some(Decoded(Complaint('?' as int, 0), "", false)) else None
    case Found(i) =>
      var o := opts[i];
      if n < |rest| then
        if o.hasArg.NoArgument? then Some(Decoded(Complaint('?' as int, o.val), "", false))
        else Some(Decoded(Chosen(o, i, Some(rest[n + 1..])), "", false))
      else if !o.hasArg.RequiredArgument? then Some(Decoded(Chosen(o, i, None), "", false))
      else if next.None? then Some(Decoded(Complaint(MissingCode(cfg), o.val), "", false))
      else Some(Decoded(Chosen(o, i, next), "", true))
  }

  /** Whether the element is looked up among the long names first. */
  predicate LooksLong(cfg: Config, elem: string)
    requires IsOption(elem)
  {
    cfg.longopts.Some? &&
    (elem[1] == '-' || (cfg.longOnly && (|elem| > 2 || IndexOf(cfg.optstring, elem[1]) == |cfg.optstring|)))
  }

  function Decode(cfg: Config, elem: string, rest: string, next: Option<string>): (d: Decoded)
    requires IsOption(elem) && rest != ""
    ensures |d.rest| < |rest|
    ensures d.tookNext ==> next.Some? && d.rest == ""
  {
    if LooksLong(cfg, elem) && DecodeLong(cfg, elem, rest, next).Some?
    then DecodeLong(cfg, elem, rest, next).value
    else DecodeShort(cfg, rest, next)
  }

  // ----- reading a whole argument list

  /** The options reported, the elements that are options (with the arguments they took and any
      `--`), and the operands, the two element lists each in their original order. */
  datatype Parse = Parse(events: seq<Event>, options: seq<string>, operands: seq<string>)

  function Next(args: seq<string>): Option<string> {
    if |args| > 1 then Some(args[1]) else None
  }

  /** Reads `args` when `rest` of its first element is still to be scanned. */
  function ReadFrom(cfg: Config, rest: string, args: seq<string>): Parse
    requires args != [] && IsOption(args[0]) && rest != ""
    decreases |args|, 0, |rest|
  {
    var d := Decode(cfg, args[0], rest, Next(args));
    var p := if d.rest != "" then ReadFrom(cfg, d.rest, args) else
             var n := if d.tookNext then 2 else 1;
             var q := Read(cfg, args[n..]);
             q.(options := args[..n] + q.options);
    p.(events := [d.event] + p.events)
  }

  function Read(cfg: Config, args: seq<string>): Parse
    decreases |args|, 1
  {
    if args == [] then Parse([], [], [])
    else if args[0] == "--" then Parse([], args[..1], args[1..])
    else if IsOperand(args[0]) then
      var p := Read(cfg, args[1..]);
      p.(operands := args[..1] + p.operands)
    else ReadFrom(cfg, Text(cfg, args[0]), args)
  }

  /** Nothing is lost or invented: the two lists together are the arguments. */
  lemma {:induction false} ReadConserves(cfg: Config, args: seq<string>)
    ensures multiset(Read(cfg, args).options + Read(cfg, args).operands) == multiset(args)
    decreases |args|, 1
  {
    if args == [] {
    } else if args[0] == "--" {
      assert args == args[..1] + args[1..];
    } else if IsOperand(args[0]) {
      ReadConserves(cfg, args[1..]);
      assert args == args[..1] + args[1..];
    } else {
      ReadFromConserves(cfg, Text(cfg, args[0]), args);
    }
  }

  lemma {:induction false} ReadFromConserves(cfg: Config, rest: string, args: seq<string>)
    requires args != [] && IsOption(args[0]) && rest != ""
    ensures multiset(ReadFrom(cfg, rest, args).options + ReadFrom(cfg, rest, args).operands) == multiset(args)
    decreases |args|, 0, |rest|
  {
    var d := Decode(cfg, args[0], rest, Next(args));
    if d.rest != "" {
      ReadFromConserves(cfg, d.rest, args);
    } else {
      var n := if d.tookNext then 2 else 1;
      ReadConserves(cfg, args[n..]);
      assert args == args[..n] + args[n..];
    }
  }

  lemma ReadOperand(cfg: Config, args: seq<string>)
    requires args != [] && IsOperand(args[0])
    ensures Read(cfg, args) == Read(cfg, args[1..]).(operands := args[..1] + Read(cfg, args[1..]).operands)
  {
    hide ReadFrom;
  }

  /** Decoding an option takes it off the reading. */
  lemma ReadFromStep(cfg: Config, rest: string, args: seq<string>, d: Decoded)
    requires args != [] && IsOption(args[0]) && rest != "" && d == Decode(cfg, args[0], rest, Next(args))
    ensures d.rest != "" ==>
              var p := ReadFrom(cfg, d.rest, args);
              ReadFrom(cfg, rest, args) == p.(events := [d.event] + p.events)
    ensures d.rest == "" ==>
              var n := if d.tookNext then 2 else 1;
              && n <= |args|
              && var q := Read(cfg, args[n..]);
                 ReadFrom(cfg, rest, args) == Parse([d.event] + q.events, args[..n] + q.options, q.operands)
  {
    hide Decode, Read;
  }

  /** Skipping a block of operands moves exactly that block to the operands. */
  lemma {:induction false} ReadSkips(cfg: Config, args: seq<string>, k: nat)
    requires k <= |args|
    requires forall i :: 0 <= i < k ==> IsOperand(args[i])
    ensures Read(cfg, args) == Read(cfg, args[k..]).(operands := args[..k] + Read(cfg, args[k..]).operands)
  {
    hide Read, IsOperand;
    if k == 0 {
      assert args[0..] == args;
    } else {
      ReadOperand(cfg, args);
      ReadSkips(cfg, args[1..], k - 1);
      assert args[1..][k - 1..] == args[k..];
      assert args[..1] + args[1..][..k - 1] == args[..k];
      var q := Read(cfg, args[k..]);
      assert args[..1] + (args[1..][..k - 1] + q.operands) == args[..k] + q.operands;
    }
  }

  // ----- a reading is a stable partition

  /** The elements of `args` whose mark is `b`, in their order. */
  ghost function Marked(args: seq<string>, marks: seq<bool>, b: bool): seq<string>
    requires |args| == |marks|
  {
    if args == [] then []
    else (if marks[0] == b then args[..1] else []) + Marked(args[1..], marks[1..], b)
  }

  /** An element counts as an option for option syntax, or as the argument right behind an option. */
  ghost predicate OptionAt(args: seq<string>, marks: seq<bool>, i: nat)
    requires i < |args| == |marks|
  {
    !IsOperand(args[i]) || (i > 0 && marks[i - 1] && IsOption(args[i - 1]))
  }

  /** An element counts as an operand for lack of option syntax, or for a marked `--` before it. */
  ghost predicate OperandAt(args: seq<string>, marks: seq<bool>, i: nat)
    requires i < |args| == |marks|
  {
    IsOperand(args[i]) || exists j :: 0 <= j < i && marks[j] && args[j] == "--"
  }

  /** `marks` tells options (true) from operands (false). */
  ghost predicate Justified(args: seq<string>, marks: seq<bool>) {
    && |args| == |marks|
    && forall i :: 0 <= i < |args| ==> if marks[i] then OptionAt(args, marks, i) else OperandAt(args, marks, i)
  }

  ghost predicate Partitions(args: seq<string>, marks: seq<bool>, p: Parse) {
    && Justified(args, marks)
    && p.options == Marked(args, marks, true)
    && p.operands == Marked(args, marks, false)
  }

  lemma {:induction false} MarkedUniform(args: seq<string>, marks: seq<bool>, b: bool)
    requires |args| == |marks|
    requires forall i :: 0 <= i < |marks| ==> marks[i] == b
    ensures Marked(args, marks, b) == args && Marked(args, marks, !b) == []
  {
    if args != [] {
      MarkedUniform(args[1..], marks[1..], b);
      assert args == args[..1] + args[1..];
    }
  }

  lemma MarkedFirst(args: seq<string>, marks: seq<bool>, b: bool)
    requires |args| == |marks| > 0
    ensures Marked(args, marks, b) == (if marks[0] == b then args[..1] else []) + Marked(args[1..], marks[1..], b)
  {
  }

  lemma {:induction false} MarkedConcat(a: seq<string>, m: seq<bool>, a': seq<string>, m': seq<bool>, b: bool)
    requires |a| == |m| && |a'| == |m'|
    ensures Marked(a + a', m + m', b) == Marked(a, m, b) + Marked(a', m', b)
  {
    if a == [] {
      assert a + a' == a' && m + m' == m';
    } else {
      MarkedConcat(a[1..], m[1..], a', m', b);
      assert (a + a')[1..] == a[1..] + a' && (m + m')[1..] == m[1..] + m' && (a + a')[..1] == a[..1];
      MarkedFirst(a, m, b);
      MarkedFirst(a + a', m + m', b);
      hide Marked;
      var first := if m[0] == b then a[..1] else [];
      var x, y := Marked(a[1..], m[1..], b), Marked(a', m', b);
      assert first + (x + y) == (first + x) + y;
    }
  }

  /** Puts a uniformly marked front before a partitioned tail. */
  lemma PartitionExtends(args: seq<string>, n: nat, b: bool, marks: seq<bool>, tail: Parse) returns (all: seq<bool>)
    requires 1 <= n <= |args| && Partitions(args[n..], marks, tail)
    requires if b then IsOption(args[0]) && n <= 2 else n == 1 && IsOperand(args[0])
    ensures Partitions(args, all, if b then tail.(options := args[..n] + tail.options)
                                  else tail.(operands := args[..n] + tail.operands))
  {
    hide Marked, OptionAt, OperandAt, IsOption, IsOperand;
    var front := seq(n, _ => b);
    all := front + marks;
    MarkedConcat(args[..n], front, args[n..], marks, true);
    MarkedConcat(args[..n], front, args[n..], marks, false);
    MarkedUniform(args[..n], front, b);
    assert args == args[..n] + args[n..];
    JustifiedExtends(args, n, b, marks, all);
  }

  lemma JustifiedExtends(args: seq<string>, n: nat, b: bool, marks: seq<bool>, all: seq<bool>)
    requires 1 <= n <= |args| && Justified(args[n..], marks) && all == seq(n, _ => b) + marks
    requires if b then IsOption(args[0]) && n <= 2 else n == 1 && IsOperand(args[0])
    ensures Justified(args, all)
  {
    var front := seq(n, _ => b);
    forall i | 0 <= i < |args|
      ensures if all[i] then OptionAt(args, all, i) else OperandAt(args, all, i)
    {
      if i < n {
        assert all[i] == front[i] == b && all[0] == front[0] == b;
      } else {
        assert all[i] == marks[i - n] && args[n..][i - n] == args[i];
        if all[i] {
          assert OptionAt(args[n..], marks, i - n);
          assert i > n ==> all[i - 1] == marks[i - n - 1] && args[n..][i - n - 1] == args[i - 1];
        } else if !IsOperand(args[i]) {
          assert OperandAt(args[n..], marks, i - n);
          var j :| 0 <= j < i - n && marks[j] && args[n..][j] == "--";
          assert all[n + j] && args[n + j] == "--";
        }
      }
    }
  }

  /** Every reading is a stable partition of the arguments into options and operands. */
  lemma {:induction false} ReadPartitions(cfg: Config, args: seq<string>) returns (marks: seq<bool>)
    ensures Partitions(args, marks, Read(cfg, args))
    decreases |args|, 1
  {
    if args == [] {
      marks := [];
    } else if args[0] == "--" {
      var after := seq(|args| - 1, _ => false);
      marks := [true] + after;
      MarkedUniform(args[1..], after, false);
      MarkedUniform(args[..1], [true], true);
      MarkedConcat(args[..1], [true], args[1..], after, true);
      MarkedConcat(args[..1], [true], args[1..], after, false);
      assert args == args[..1] + args[1..];
    } else if IsOperand(args[0]) {
      var m := ReadPartitions(cfg, args[1..]);
      marks := PartitionExtends(args, 1, false, m, Read(cfg, args[1..]));
    } else {
      marks := ReadFromPartitions(cfg, Text(cfg, args[0]), args);
    }
  }

  lemma {:induction false} ReadFromPartitions(cfg: Config, rest: string, args: seq<string>) returns (marks: seq<bool>)
    requires args != [] && IsOption(args[0]) && rest != ""
    ensures Partitions(args, marks, ReadFrom(cfg, rest, args))
    decreases |args|, 0, |rest|
  {
    var d := Decode(cfg, args[0], rest, Next(args));
    if d.rest != "" {
      marks := ReadFromPartitions(cfg, d.rest, args);
    } else {
      var n := if d.tookNext then 2 else 1;
      var m := ReadPartitions(cfg, args[n..]);
      marks := PartitionExtends(args, n, true, m, Read(cfg, args[n..]));
    }
  }
}
