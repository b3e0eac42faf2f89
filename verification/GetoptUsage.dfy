/**
  Command lines as their users mean them: options with or without arguments and
  operands, spelled out as arguments in every form that lib/getopt.c knows. A
  reading takes each of them as it was meant.
 */
module GetoptUsage {
  import opened Wrappers
  import opened GetoptSpec
  import Getopt

  /** An argument in the same element, or in an element of its own. */
  datatype Argument = Without | Attached(text: string) | Behind(text: string)

  /** `Long`: the option at `index`, by its name or an abbreviation, behind one or two dashes; `NoName`: a name
      that stands for no option; `Letters`: short options without arguments, and `LettersWith`: with one more that
      may have an argument. */
  datatype Item =
    | Operand(text: string)
    | Long(single: bool, typed: string, index: nat, arg: Argument)
    | NoName(typed: string, value: Option<string>)
    | Letters(plain: string)
    | LettersWith(plain: string, letter: char, arg: Argument)

  // ----- how an item is spelled

  function Assigned(value: Option<string>): string {
    if value.Some? then "=" + value.value else ""
  }

  function InElement(arg: Argument): Option<string> {
    if arg.Attached? then Some(arg.text) else None
  }

  /** What stands behind the dashes. */
  function Body(item: Item): string {
    match item
    case Operand(text) => text
    case Long(_, typed, _, arg) => typed + Assigned(InElement(arg))
    case NoName(typed, value) => typed + Assigned(value)
    case Letters(plain) => plain
    case LettersWith(plain, letter, arg) => plain + ([letter] + if arg.Attached? then arg.text else "")
  }

  function Dashes(item: Item): string {
    match item
    case Operand(_) => ""
    case Long(single, _, _, _) => if single then "-" else "--"
    case NoName(_, _) => "--"
    case Letters(_) => "-"
    case LettersWith(_, _, _) => "-"
  }

  /** The argument in an element of its own. */
  function Own(item: Item): seq<string> {
    if (item.Long? || item.LettersWith?) && item.arg.Behind? then [item.arg.text] else []
  }

  function Spell(item: Item): seq<string> {
    [Dashes(item) + Body(item)] + Own(item)
  }

  function SpellAll(items: seq<Item>): seq<string> {
    if items == [] then [] else Spell(items[0]) + SpellAll(items[1..])
  }

  // ----- which items there are

  /** The option string declares `c`, by its first occurrence: followed by no colon, by one, or by two. */
  ghost predicate DeclaredAt(s: string, c: char, a: HasArg, k: nat) {
    && c != ':' && k < |s| && s[k] == c && (forall j :: 0 <= j < k ==> s[j] != c)
    && (a.NoArgument? <==> k + 1 == |s| || s[k + 1] != ':')
    && (a.OptionalArgument? <==> k + 2 < |s| && s[k + 1] == ':' && s[k + 2] == ':')
  }

  ghost predicate Declared(s: string, c: char, a: HasArg) {
    exists k: nat :: DeclaredAt(s, c, a, k)
  }

  ghost predicate Undeclared(s: string, c: char) {
    c == ':' || c !in s
  }

  ghost predicate TakesNone(s: string, c: char) {
    Undeclared(s, c) || Declared(s, c, NoArgument)
  }

  /** `typed` is the name of the option at `i` and of none before it, or abbreviates its name alone. */
  ghost predicate Names(opts: seq<LongOption>, typed: string, i: nat) {
    && i < |opts| && typed <= opts[i].name
    && if typed == opts[i].name then forall j :: 0 <= j < i ==> opts[j].name != typed
       else forall j :: 0 <= j < |opts| && j != i ==> !(typed <= opts[j].name)
  }

  /** It is the name of none, and abbreviates none or more than one. */
  ghost predicate Nameless(opts: seq<LongOption>, typed: string) {
    && (forall j :: 0 <= j < |opts| ==> opts[j].name != typed)
    && (|| (forall j :: 0 <= j < |opts| ==> !(typed <= opts[j].name))
        || (exists i, j :: 0 <= i < j < |opts| && typed <= opts[i].name && typed <= opts[j].name))
  }

  /** One dash is enough for a long option of `getopt_long_only`, unless it is a letter that is declared. */
  ghost predicate OneDashWillDo(cfg: Config, body: string)
    requires body != ""
  {
    cfg.longOnly && body[0] != '-' && (|body| > 1 || body[0] !in cfg.optstring)
  }

  /** The item can be written down; only the last of all, `last`, may lack an argument it requires. */
  ghost predicate Proper(cfg: Config, item: Item, last: bool) {
    match item
    case Operand(text) => text == "" || text[0] != '-' || text == "-"
    case Long(single, typed, i, arg) =>
      && cfg.longopts.Some? && '=' !in typed && Names(cfg.longopts.value, typed, i)
      && Body(item) != "" && (single ==> OneDashWillDo(cfg, Body(item)))
      && (arg.Behind? ==> cfg.longopts.value[i].hasArg.RequiredArgument?)
      && (arg.Without? && cfg.longopts.value[i].hasArg.RequiredArgument? ==> last)
    case NoName(typed, value) =>
      cfg.longopts.Some? && '=' !in typed && Nameless(cfg.longopts.value, typed) && Body(item) != ""
    case Letters(plain) =>
      !cfg.longOnly && plain != "" && plain[0] != '-' && forall c :: c in plain ==> TakesNone(cfg.optstring, c)
    case LettersWith(plain, c, arg) =>
      && !cfg.longOnly && (plain + [c])[0] != '-' && (forall c :: c in plain ==> TakesNone(cfg.optstring, c))
      && match arg
         case Without =>
           Declared(cfg.optstring, c, OptionalArgument) || (Declared(cfg.optstring, c, RequiredArgument) && last)
         case Attached(text) =>
           text != "" && (Declared(cfg.optstring, c, OptionalArgument) || Declared(cfg.optstring, c, RequiredArgument))
         case Behind(_) => Declared(cfg.optstring, c, RequiredArgument)
  }

  // ----- what an item says

  function TextOf(arg: Argument): Option<string> {
    match arg
    case Without => None
    case Attached(text) => Some(text)
    case Behind(text) => Some(text)
  }

  /** An argument is missing: the option string chooses the code by a leading colon. */
  function Missing(cfg: Config, about: int): Event {
    Event(if cfg.optstring != "" && cfg.optstring[0] == ':' then 58 else 63, None, Some(about), None, None)
  }

  /** A long option is returned by its value, or, if there is a flag, 0 and its value is stored. */
  ghost function LongSays(cfg: Config, o: LongOption, i: nat, arg: Argument): Event {
    if arg.Attached? && o.hasArg.NoArgument? then Event(63, None, Some(o.val), None, None)
    else if arg.Without? && o.hasArg.RequiredArgument? then Missing(cfg, o.val)
    else if o.flag then Event(0, TextOf(arg), None, Some(i), Some(o.val))
    else Event(o.val, TextOf(arg), None, Some(i), None)
  }

  ghost function LetterSays(s: string, c: char): Event {
    if Undeclared(s, c) then Event(63, None, Some(c as int), None, None) else Event(c as int, None, None, None, None)
  }

  ghost function LettersSay(s: string, plain: string): seq<Event> {
    if plain == "" then [] else [LetterSays(s, plain[0])] + LettersSay(s, plain[1..])
  }

  ghost function Says(cfg: Config, item: Item): seq<Event>
    requires item.Long? ==> cfg.longopts.Some? && item.index < |cfg.longopts.value|
  {
    match item
    case Operand(_) => []
    case Long(_, _, i, arg) => [LongSays(cfg, cfg.longopts.value[i], i, arg)]
    case NoName(_, _) => [Event(63, None, Some(0), None, None)]
    case Letters(plain) => LettersSay(cfg.optstring, plain)
    case LettersWith(plain, c, arg) =>
      LettersSay(cfg.optstring, plain)
      + [if arg.Without? && Declared(cfg.optstring, c, RequiredArgument) then Missing(cfg, c as int)
         else Event(c as int, TextOf(arg), None, None, None)]
  }

  // ----- finding names and letters

  lemma {:induction false} IndexIs(s: string, c: char, from: nat, k: nat)
    requires from <= k <= |s| && (k < |s| ==> s[k] == c) && forall j :: from <= j < k ==> s[j] != c
    ensures IndexOf(s, c, from) == k
    decreases k - from
  {
    if from < k {
      IndexIs(s, c, from + 1, k);
    }
  }

  lemma NameEnds(typed: string, value: Option<string>)
    requires '=' !in typed
    ensures var body := typed + Assigned(value); var n := IndexOf(body, '=');
      && n == |typed| && body[..n] == typed
      && if value.Some? then n < |body| && body[n + 1..] == value.value else n == |body|
  {
    hide IndexOf;
    var body := typed + Assigned(value);
    forall j | 0 <= j < |typed| ensures body[j] != '=' {
      assert body[j] == typed[j] && typed[j] in typed;
    }
    IndexIs(body, '=', 0, |typed|);
  }

  lemma NameIsFound(opts: seq<LongOption>, typed: string, i: nat)
    requires Names(opts, typed, i)
    ensures LongMatch(opts, typed) == Found(i)
  {
  }

  lemma NamelessIsNotFound(opts: seq<LongOption>, typed: string)
    requires Nameless(opts, typed)
    ensures !LongMatch(opts, typed).Found?
  {
    var p := FirstAbbreviated(opts, typed, 0);
    if i, j :| 0 <= i < j < |opts| && typed <= opts[i].name && typed <= opts[j].name {
      assert p <= i;
    }
  }

  lemma LetterIsFound(s: string, c: char, a: HasArg)
    requires Declared(s, c, a)
    ensures var k := IndexOf(s, c);
      && k < |s| && c != ':' && (ColonAt(s, k + 1) <==> !a.NoArgument?)
      && (a.OptionalArgument? <==> ColonAt(s, k + 1) && ColonAt(s, k + 2))
    ensures !Undeclared(s, c)
  {
    var k: nat :| DeclaredAt(s, c, a, k);
    IndexIs(s, c, 0, k);
  }

  lemma LetterIsNotFound(s: string, c: char)
    requires Undeclared(s, c)
    ensures c == ':' || IndexOf(s, c) == |s|
  {
    if c !in s {
      IndexIs(s, c, 0, |s|);
    }
  }

  // ----- items are read as they are meant

  /** An option that takes the first `n` elements, with the reading of the others. */
  function Before(events: seq<Event>, front: seq<string>, p: Parse): Parse {
    Parse(events + p.events, front + p.options, p.operands)
  }

  /** One option that ends its element. */
  lemma ReadsLast(cfg: Config, rest: string, args: seq<string>, event: Event, tookNext: bool)
    requires args != [] && IsOption(args[0]) && rest != "" && (tookNext ==> |args| >= 2)
    requires Decode(cfg, args[0], rest, Next(args)) == Decoded(event, "", tookNext)
    ensures var n := if tookNext then 2 else 1;
      ReadFrom(cfg, rest, args) == Before([event], args[..n], Read(cfg, args[n..]))
  {
    hide Decode, Read, ReadFrom;
    ReadFromStep(cfg, rest, args, Decoded(event, "", tookNext));
  }

  lemma ReadsOption(cfg: Config, args: seq<string>)
    requires args != [] && IsOption(args[0])
    ensures Read(cfg, args) == ReadFrom(cfg, Text(cfg, args[0]), args)
  {
    hide ReadFrom;
  }

  /** The elements of an item, and what follows them. */
  lemma Apart(item: Item, more: seq<string>)
    ensures var args, n := Spell(item) + more, |Spell(item)|;
      && n == 1 + |Own(item)| && args[..n] == Spell(item) && args[n..] == more && args[0] == Dashes(item) + Body(item)
      && (Own(item) != [] ==> n == 2 && Next(args) == Some(item.arg.text))
      && (Own(item) == [] && more == [] ==> Next(args) == None)
  {
  }

  /** Behind its dashes a long option is looked up by its name. */
  lemma LooksForName(cfg: Config, item: Item, elem: string)
    requires (item.Long? || item.NoName?) && cfg.longopts.Some? && Body(item) != "" && elem == Dashes(item) + Body(item)
    requires item.Long? && item.single ==> OneDashWillDo(cfg, Body(item))
    ensures IsOption(elem) && Text(cfg, elem) == Body(item) && LooksLong(cfg, elem)
    ensures item.NoName? ==> elem[1] == '-'
  {
    var body := Body(item);
    hide Body;
    if item.Long? && item.single {
      assert elem[1] == body[0] && elem[1..] == body;
      if |body| == 1 {
        LetterIsNotFound(cfg.optstring, body[0]);
      }
    } else {
      assert elem[1] == '-' && elem[2..] == body;
    }
  }

  lemma LongIsDecoded(cfg: Config, item: Item, elem: string, next: Option<string>, last: bool)
    requires item.Long? && Proper(cfg, item, last) && IsOption(elem)
    requires item.arg.Behind? ==> next == Some(item.arg.text)
    requires last ==> item.arg.Behind? || next.None?
    ensures var o := cfg.longopts.value[item.index];
      DecodeLong(cfg, elem, Body(item), next)
        == Some(Decoded(LongSays(cfg, o, item.index, item.arg), "", item.arg.Behind?))
  {
    NameEnds(item.typed, InElement(item.arg));
    NameIsFound(cfg.longopts.value, item.typed, item.index);
    hide IndexOf, LongMatch, Names;
  }

  lemma NoNameIsDecoded(cfg: Config, item: Item, elem: string, next: Option<string>)
    requires item.NoName? && Proper(cfg, item, false) && IsOption(elem) && elem[1] == '-'
    ensures DecodeLong(cfg, elem, Body(item), next) == Some(Decoded(Event(63, None, Some(0), None, None), "", false))
  {
    NameEnds(item.typed, item.value);
    NamelessIsNotFound(cfg.longopts.value, item.typed);
    hide IndexOf, LongMatch, Nameless;
  }

  lemma ReadsLong(cfg: Config, item: Item, more: seq<string>)
    requires (item.Long? || item.NoName?) && Proper(cfg, item, more == [])
    ensures Read(cfg, Spell(item) + more) == Before(Says(cfg, item), Spell(item), Read(cfg, more))
  {
    var args, body := Spell(item) + more, Body(item);
    var elem := Dashes(item) + body;
    Apart(item, more);
    LooksForName(cfg, item, elem);
    if item.Long? {
      LongIsDecoded(cfg, item, elem, Next(args), more == []);
    } else {
      NoNameIsDecoded(cfg, item, elem, Next(args));
    }
    ReadsOption(cfg, args);
    hide Read, ReadFrom, DecodeLong, DecodeShort, Names, Nameless, Spell, Text, LooksLong, Next, IsOption;
    ReadsLast(cfg, body, args, Says(cfg, item)[0], Own(item) != []);
  }

  // ----- letters

  lemma LetterIsDecoded(cfg: Config, elem: string, c: char, tail: string, next: Option<string>)
    requires IsOption(elem) && !LooksLong(cfg, elem) && TakesNone(cfg.optstring, c)
    ensures Decode(cfg, elem, [c] + tail, next) == Decoded(LetterSays(cfg.optstring, c), tail, false)
  {
    assert ([c] + tail)[1..] == tail;
    if Undeclared(cfg.optstring, c) {
      LetterIsNotFound(cfg.optstring, c);
    } else {
      LetterIsFound(cfg.optstring, c, NoArgument);
    }
    hide IndexOf, Undeclared, Declared;
  }

  /** Letters without arguments, with `tail` behind them in the element. */
  lemma {:induction false} ReadsLetters(cfg: Config, plain: string, tail: string, args: seq<string>)
    requires args != [] && IsOption(args[0]) && !LooksLong(cfg, args[0]) && plain != ""
    requires forall c :: c in plain ==> TakesNone(cfg.optstring, c)
    ensures var events := LettersSay(cfg.optstring, plain);
      if tail == "" then ReadFrom(cfg, plain + tail, args) == Before(events, args[..1], Read(cfg, args[1..]))
      else ReadFrom(cfg, plain + tail, args) == Before(events, [], ReadFrom(cfg, tail, args))
  {
    hide *;
    var c, others, s := plain[0], plain[1..], cfg.optstring;
    assert c in plain && forall d :: d in others ==> d in plain;
    LettersSayFirst(s, plain);
    ReadsLetter(cfg, plain, tail, args);
    if others != "" {
      ReadsLetters(cfg, others, tail, args);
      if tail == "" {
        BeforeTwice([LetterSays(s, c)], LettersSay(s, others), args[..1], Read(cfg, args[1..]));
      } else {
        BeforeTwice([LetterSays(s, c)], LettersSay(s, others), [], ReadFrom(cfg, tail, args));
      }
    }
  }

  lemma LettersSayFirst(s: string, plain: string)
    requires plain != ""
    ensures LettersSay(s, plain) == [LetterSays(s, plain[0])] + LettersSay(s, plain[1..])
    ensures plain[1..] == "" ==> LettersSay(s, plain) == [LetterSays(s, plain[0])]
  {
    hide LetterSays;
  }

  lemma BeforeTwice(first: seq<Event>, second: seq<Event>, front: seq<string>, p: Parse)
    ensures Before(first, [], Before(second, front, p)) == Before(first + second, front, p)
  {
    assert first + (second + p.events) == (first + second) + p.events;
  }

  /** The first of them. */
  lemma ReadsLetter(cfg: Config, plain: string, tail: string, args: seq<string>)
    requires args != [] && IsOption(args[0]) && !LooksLong(cfg, args[0]) && plain != ""
    requires TakesNone(cfg.optstring, plain[0])
    ensures var events, rest := [LetterSays(cfg.optstring, plain[0])], plain[1..] + tail;
      && (plain[1..] == "" ==> rest == tail)
      && if rest == "" then ReadFrom(cfg, plain + tail, args) == Before(events, args[..1], Read(cfg, args[1..]))
         else ReadFrom(cfg, plain + tail, args) == Before(events, [], ReadFrom(cfg, rest, args))
  {
    var c, rest := plain[0], plain[1..] + tail;
    var d := Decoded(LetterSays(cfg.optstring, c), rest, false);
    assert plain + tail == [c] + rest;
    LetterIsDecoded(cfg, args[0], c, rest, Next(args));
    hide ReadFrom, Read, Decode, LetterSays, IsOption, LooksLong;
    ReadFromStep(cfg, plain + tail, args, d);
  }

  /** The letter at the end, with its argument. */
  lemma LastIsDecoded(cfg: Config, item: Item, elem: string, next: Option<string>, last: bool)
    requires item.LettersWith? && Proper(cfg, item, last) && IsOption(elem) && !LooksLong(cfg, elem)
    requires item.arg.Behind? ==> next == Some(item.arg.text)
    requires last ==> item.arg.Behind? || next.None?
    ensures var tail, events := [item.letter] + (if item.arg.Attached? then item.arg.text else ""), Says(cfg, item);
      Decode(cfg, elem, tail, next) == Decoded(events[|events| - 1], "", item.arg.Behind?)
  {
    var s, c := cfg.optstring, item.letter;
    var tail := [c] + if item.arg.Attached? then item.arg.text else "";
    assert tail[1..] == if item.arg.Attached? then item.arg.text else "";
    if Declared(s, c, RequiredArgument) {
      LetterIsFound(s, c, RequiredArgument);
    } else {
      LetterIsFound(s, c, OptionalArgument);
    }
    hide IndexOf, Declared, TakesNone, LettersSay;
  }

  lemma LooksForLetters(cfg: Config, elem: string, body: string)
    requires !cfg.longOnly && body != "" && body[0] != '-' && elem == "-" + body
    ensures IsOption(elem) && !LooksLong(cfg, elem) && Text(cfg, elem) == body
  {
    assert elem[1] == body[0] && elem[1..] == body;
  }

  lemma ReadsPlain(cfg: Config, item: Item, more: seq<string>)
    requires item.Letters? && Proper(cfg, item, more == [])
    ensures Read(cfg, Spell(item) + more) == Before(Says(cfg, item), Spell(item), Read(cfg, more))
  {
    var args := Spell(item) + more;
    Apart(item, more);
    LooksForLetters(cfg, args[0], item.plain);
    ReadsOption(cfg, args);
    assert item.plain + "" == item.plain;
    hide Read, ReadFrom, Text, Spell;
    ReadsLetters(cfg, item.plain, "", args);
  }

  lemma ReadsWithLast(cfg: Config, item: Item, more: seq<string>)
    requires item.LettersWith? && Proper(cfg, item, more == [])
    ensures Read(cfg, Spell(item) + more) == Before(Says(cfg, item), Spell(item), Read(cfg, more))
  {
    var args, events := Spell(item) + more, Says(cfg, item);
    var plain, tail, event := item.plain, [item.letter] + (if item.arg.Attached? then item.arg.text else ""),
      events[|events| - 1];
    Apart(item, more);
    assert (plain + tail)[0] == (plain + [item.letter])[0];
    LooksForLetters(cfg, args[0], plain + tail);
    ReadsOption(cfg, args);
    LastIsDecoded(cfg, item, args[0], Next(args), more == []);
    hide Read, ReadFrom, Text, Spell, Decode, IsOption, LooksLong, Next;
    ReadsLast(cfg, tail, args, event, item.arg.Behind?);
    if plain == "" {
      assert plain + tail == tail && events == [event];
    } else {
      ReadsLetters(cfg, plain, tail, args);
      BeforeTwice(LettersSay(cfg.optstring, plain), [event], Spell(item), Read(cfg, more));
    }
  }

  // ----- whole command lines

  function InOptions(item: Item): seq<string> {
    if item.Operand? then [] else Spell(item)
  }

  function InOperands(item: Item): seq<string> {
    if item.Operand? then [item.text] else []
  }

  lemma ReadsPlainOperand(cfg: Config, item: Item, more: seq<string>)
    requires item.Operand? && Proper(cfg, item, more == [])
    ensures var p := Read(cfg, more);
      Read(cfg, Spell(item) + more) == Parse([] + p.events, [] + p.options, [item.text] + p.operands)
  {
    hide Read;
    var args := Spell(item) + more;
    Apart(item, more);
    assert "" + item.text == item.text && args[..1] == [item.text] && args[1..] == more;
    hide Spell;
    ReadOperand(cfg, args);
  }

  lemma ReadsItem(cfg: Config, item: Item, more: seq<string>)
    requires Proper(cfg, item, more == [])
    ensures var p := Read(cfg, more);
      Read(cfg, Spell(item) + more) ==
        Parse(Says(cfg, item) + p.events, InOptions(item) + p.options, InOperands(item) + p.operands)
  {
    hide Read, Spell, Proper;
    match item
    case Operand(_) => ReadsPlainOperand(cfg, item, more);
    case Long(_, _, _, _) => ReadsLong(cfg, item, more);
    case NoName(_, _) => ReadsLong(cfg, item, more);
    case Letters(_) => ReadsPlain(cfg, item, more);
    case LettersWith(_, _, _) => ReadsWithLast(cfg, item, more);
  }

  /** The elements of the options, and the operands, each in their order. */
  function OptionsOf(items: seq<Item>): seq<string> {
    if items == [] then [] else InOptions(items[0]) + OptionsOf(items[1..])
  }

  function OperandsOf(items: seq<Item>): seq<string> {
    if items == [] then [] else InOperands(items[0]) + OperandsOf(items[1..])
  }

  /** Operands of any form behind `--`. */
  function Ending(others: Option<seq<string>>): seq<string> {
    if others.Some? then ["--"] + others.value else []
  }

  ghost predicate AllProper(cfg: Config, items: seq<Item>, closed: bool) {
    forall i :: 0 <= i < |items| ==> Proper(cfg, items[i], i == |items| - 1 && !closed)
  }

  ghost function SaysAll(cfg: Config, items: seq<Item>): seq<Event>
    requires exists closed :: AllProper(cfg, items, closed)
  {
    if items == [] then [] else ProperRest(cfg, items); Says(cfg, items[0]) + SaysAll(cfg, items[1..])
  }

  lemma ProperRest(cfg: Config, items: seq<Item>)
    requires items != []
    ensures forall closed :: AllProper(cfg, items, closed) ==> AllProper(cfg, items[1..], closed)
  {
    hide Proper;
  }

  ghost function Meant(cfg: Config, items: seq<Item>, others: Option<seq<string>>): Parse
    requires AllProper(cfg, items, others.Some?)
  {
    Parse(SaysAll(cfg, items), OptionsOf(items) + (if others.Some? then ["--"] else []),
          OperandsOf(items) + (if others.Some? then others.value else []))
  }

  lemma MeantFirst(cfg: Config, items: seq<Item>, others: Option<seq<string>>)
    requires AllProper(cfg, items, others.Some?) && items != []
    ensures AllProper(cfg, items[1..], others.Some?)
    ensures var p := Meant(cfg, items[1..], others); var item := items[0];
      && Proper(cfg, item, |items| == 1 && others.None?)
      && Meant(cfg, items, others) ==
           Parse(Says(cfg, item) + p.events, InOptions(item) + p.options, InOperands(item) + p.operands)
  {
    ProperRest(cfg, items);
    hide Proper, Says, InOptions, InOperands;
    var dash, tail := if others.Some? then ["--"] else [], if others.Some? then others.value else [];
    var a, b := OptionsOf(items[1..]), OperandsOf(items[1..]);
    assert (InOptions(items[0]) + a) + dash == InOptions(items[0]) + (a + dash);
    assert (InOperands(items[0]) + b) + tail == InOperands(items[0]) + (b + tail);
  }

  lemma SpellsSomething(items: seq<Item>, others: Option<seq<string>>)
    ensures SpellAll(items) + Ending(others) == [] <==> items == [] && others.None?
    ensures items != [] ==>
              SpellAll(items) + Ending(others) == Spell(items[0]) + (SpellAll(items[1..]) + Ending(others))
  {
    hide Body, Own, Dashes;
  }

  /** Every command line is read as it was meant: the options with their arguments one by one, and what is no option
      as an operand. */
  lemma {:induction false} ReadsAsMeant(cfg: Config, items: seq<Item>, others: Option<seq<string>>)
    requires AllProper(cfg, items, others.Some?)
    ensures Read(cfg, SpellAll(items) + Ending(others)) == Meant(cfg, items, others)
    decreases |items|
  {
    if items == [] {
      assert SpellAll(items) + Ending(others) == Ending(others);
    } else {
      hide *;
      SpellsSomething(items, others);
      MeantFirst(cfg, items, others);
      SpellsSomething(items[1..], others);
      ReadsAsMeant(cfg, items[1..], others);
      ReadsItem(cfg, items[0], SpellAll(items[1..]) + Ending(others));
    }
  }

  /** A whole run on such a command line. */
  method ParseAsMeant(cfg: Config, program: string, items: seq<Item>, others: Option<seq<string>>)
    returns (events: seq<Event>, argv: seq<string>, optind: nat)
    requires Supported(cfg) && AllProper(cfg, items, others.Some?)
    ensures var p := Meant(cfg, items, others);
      events == p.events && argv == [program] + p.options + p.operands && optind == 1 + |p.options|
  {
    hide *;
    var args := [program] + (SpellAll(items) + Ending(others));
    var a := new string[|args|](i requires 0 <= i < |args| => args[i]);
    assert a[..] == args && a[1..] == SpellAll(items) + Ending(others) && a[..1] == [program];
    ReadsAsMeant(cfg, items, others);
    events, optind := Getopt.ParseCommandLine(cfg, a);
    argv := a[..];
  }

  // ----- the options of the grub shell

  const GRUB_OPTIONS: seq<LongOption> := [
    LongOption("batch", NoArgument, false, -10),
    LongOption("boot-drive", RequiredArgument, false, -7),
    LongOption("config-file", RequiredArgument, false, -5),
    LongOption("device-map", RequiredArgument, false, -15),
    LongOption("help", NoArgument, false, -2),
    LongOption("hold", OptionalArgument, false, -4),
    LongOption("install-partition", RequiredArgument, false, -6),
    LongOption("no-config-file", NoArgument, false, -8),
    LongOption("no-curses", NoArgument, false, -9),
    LongOption("no-floppy", NoArgument, false, -14),
    LongOption("no-pager", NoArgument, false, -17),
    LongOption("preset-menu", NoArgument, false, -16),
    LongOption("probe-second-floppy", NoArgument, false, -13),
    LongOption("read-only", NoArgument, false, -12),
    LongOption("verbose", NoArgument, false, -11),
    LongOption("version", NoArgument, false, -3)]

  const GRUB := Config("", Some(GRUB_OPTIONS), false)

  lemma MeantAlone(cfg: Config, item: Item)
    requires Proper(cfg, item, true) && !item.Operand?
    ensures AllProper(cfg, [item], false) && Meant(cfg, [item], None) == Parse(Says(cfg, item), Spell(item), [])
  {
    assert AllProper(cfg, [item], false);
    MeantFirst(cfg, [item], None);
    hide Proper, Says, Spell;
    assert [item][1..] == [];
  }

  const HELP := Long(false, "help", 4, Without)

  lemma HelpIsProper()
    ensures Proper(GRUB, HELP, true) && Spell(HELP) == ["--help"]
    ensures Says(GRUB, HELP) == [Event(-2, None, None, Some(4), None)]
  {
    assert GRUB_OPTIONS[4] == LongOption("help", NoArgument, false, -2);
    assert |GRUB_OPTIONS[0].name| == 5 && |GRUB_OPTIONS[1].name| == 10;
    assert |GRUB_OPTIONS[2].name| == 11 && |GRUB_OPTIONS[3].name| == 10;
    assert Body(HELP) == "help" && "--" + "help" == "--help";
  }

  /** `grub --help`. */
  method GrubHelp() returns (events: seq<Event>, argv: seq<string>, optind: nat)
    ensures events == [Event(-2, None, None, Some(4), None)] && argv == ["grub", "--help"] && optind == 2
  {
    HelpIsProper();
    MeantAlone(GRUB, HELP);
    assert Supported(GRUB);
    hide *;
    events, argv, optind := ParseAsMeant(GRUB, "grub", [HELP], None);
  }
}
