/**
  Networks on which nothing goes wrong that a client could not bear: the server's
  packets arrive one by one, each behind the acknowledgement of the one before,
  and behind a bearable number of silences.
 */
module TftpSchedule {
  import opened Wrappers
  import opened Numbers
  import opened TftpPeer
  import opened TftpWindow

  /** The silences before the first answer, late(0), and before each block `k`, late(k); how many blocks the network
      delivers at most, and what it does behind them. */
  datatype Plan = Plan(late: nat -> nat, most: nat, tail: seq<Choice>)

  /** No more silences than a client bears up to block `n`: 20 before the first answer, none between the option
      acknowledgement and the first block, and 9 before any other block. */
  ghost predicate BearableTo(late: nat -> nat, n: nat) {
    late(0) <= 20 && late(1) == 0 && forall k :: 2 <= k <= n ==> late(k) <= 9
  }

  ghost predicate Feasible(plan: Plan) {
    1 <= plan.most <= MOST_BLOCKS && BearableTo(plan.late, plan.most)
  }

  /** Nothing comes for ten waits. */
  ghost predicate FallsSilent(tail: seq<Choice>) {
    forall i :: 0 <= i < 10 && i < |tail| ==> tail[i] == Expire
  }

  /** Never a silence. */
  function Never(): nat -> nat {
    _ => 0
  }

  function Prompt(tail: seq<Choice>): Plan {
    Plan(Never(), MOST_BLOCKS, tail)
  }

  /** Both options the client asks for, granted. */
  function FullOack(blksize: nat, length: nat): OackMessage {
    OackMessage([Blksize(blksize), Tsize(length)], false, false)
  }

  function Expires(m: nat): seq<Choice> {
    if m == 0 then [] else [Expire] + Expires(m - 1)
  }

  /** Silences at which the request is repeated, and served again. */
  function Retries(m: nat, serve: Choice): seq<Choice> {
    if m == 0 then [] else [Expire] + ([serve] + Retries(m - 1, serve))
  }

  /** Block `k` behind `m` silences, and the blocks behind it up to `last`. */
  function Coming(m: nat, k: nat, last: nat, late: nat -> nat): seq<Choice>
    requires k <= last
    decreases last + 1 - k, 0
  {
    Expires(m) + ([Advance] + ([DeliverData(k)] + Blocks(k + 1, last, late)))
  }

  /** The blocks from `k` to `last`. */
  function Blocks(k: nat, last: nat, late: nat -> nat): seq<Choice>
    decreases if k > last then 0 else last + 1 - k, 1
  {
    if k > last then [] else Coming(late(k), k, last, late)
  }

  /** The last block that can be had, of `most`. */
  function LastInReach(file: seq<Byte>, blksize: nat, most: nat): nat
    requires blksize >= 1
  {
    Min(|file| / blksize + 1, most)
  }

  function Serving(file: seq<Byte>, blksize: nat, oack: bool): Choice {
    Serve(blksize, if oack then Some(FullOack(blksize, |file|)) else None)
  }

  function FirstAnswer(oack: bool): seq<Choice> {
    if oack then [DeliverOack] else []
  }

  /** A whole transfer. */
  function Transfer(file: seq<Byte>, blksize: nat, oack: bool, plan: Plan): seq<Choice>
    requires blksize >= 1
  {
    var serve, last := Serving(file, blksize, oack), LastInReach(file, blksize, plan.most);
    [serve] + (Retries(plan.late(0), serve) + (FirstAnswer(oack) + (Blocks(1, last, plan.late) + plan.tail)))
  }

  /** For a file of less than one block: a stray packet before the option acknowledgement, which comes when the
      client is measuring the file; and then a transfer without options. */
  function Misleading(file: seq<Byte>): seq<Choice> {
    [Serving(file, DEFAULT_PACKET, true)] + ([DeliverOther] + BehindStray(file))
  }

  /** A stray packet will come first, and then `rest`. */
  ghost predicate Disturbs(file: seq<Byte>, script: seq<Choice>, rest: seq<Choice>) {
    script == [Serving(file, DEFAULT_PACKET, true)] + ([DeliverOther] + rest)
  }

  function BehindStray(file: seq<Byte>): seq<Choice> {
    [DeliverOack] + (Blocks(1, 1, Never()) + Again(file))
  }

  function Again(file: seq<Byte>): seq<Choice> {
    Transfer(file, DEFAULT_PACKET, false, Prompt([]))
  }

  /** Silences before the option acknowledgement, and one behind it. */
  function Stranding(file: seq<Byte>, blksize: nat, late: nat, more: seq<Choice>): seq<Choice> {
    var serve := Serving(file, blksize, true);
    [serve] + (Retries(late, serve) + ([DeliverOack] + ([Expire] + more)))
  }

  /** Twenty silences at which the request is repeated, and no answer at the next one. */
  function Unheard(file: seq<Byte>, blksize: nat, oack: bool, tail: seq<Choice>): seq<Choice> {
    var serve := Serving(file, blksize, oack);
    [serve] + (Retries(20, serve) + tail)
  }

  /** What is left of `tail` after `k` choices. */
  function Left(tail: seq<Choice>, k: nat): seq<Choice> {
    if k <= |tail| then tail[k..] else []
  }

  /** The transfer that the answer to a request begins. */
  function Answer(c: Choice): Session
    requires c.Serve?
  {
    Session(c.blksize, c.oack, if c.oack.None? then 1 else 0, [])
  }

  predicate HasOptions(s: Option<Session>) {
    s.Some? && s.value.oack.Some?
  }

  /** The block size in which a request will be served, and whether options will be acknowledged. */
  function SizeIn(script: seq<Choice>): nat {
    if script != [] && script[0].Serve? then script[0].blksize else 0
  }

  predicate OptionsIn(script: seq<Choice>) {
    script != [] && script[0].Serve? && script[0].oack.Some?
  }

  /** A transfer is offered that follows a plan. */
  ghost predicate OffersTransfer(file: seq<Byte>, script: seq<Choice>, plan: Plan) {
    script != [] && script[0].Serve? &&
    var b, oack := script[0].blksize, script[0].oack.Some?;
    && DEFAULT_PACKET <= b <= MAX_PACKET && (!oack ==> b == DEFAULT_PACKET) && Feasible(plan)
    && script == Transfer(file, b, oack, plan)
  }

  /** A request will be served. */
  ghost predicate ServesNext(file: seq<Byte>, script: seq<Choice>) {
    script != [] && script[0].Serve? && Conforming(file, script[0].blksize, script[0].oack)
  }

  /** The option acknowledgement is still to come. */
  predicate AwaitsOack(s: Session) {
    s.acks == [] && s.oack.Some?
  }

  /** The transfer runs on schedule: the client has accepted `n` blocks, and waited `silences` times since the last
      of them. */
  ghost predicate OnSchedule(file: seq<Byte>, session: Option<Session>, script: seq<Choice>, n: nat, silences: nat,
                             plan: Plan)
  {
    session.Some? && DEFAULT_PACKET <= session.value.blksize <= MAX_PACKET && Feasible(plan) &&
    var s := session.value;
    var last := LastInReach(file, s.blksize, plan.most);
    && n <= last && Serve(s.blksize, s.oack) == Serving(file, s.blksize, s.oack.Some?)
    && (s.oack.None? ==> s.blksize == DEFAULT_PACKET)
    && (s.acks == [] ==>
          && n == 0 && s.reach == (if s.oack.Some? then 0 else 1) && silences <= plan.late(0)
          && script == Retries(plan.late(0) - silences, Serve(s.blksize, s.oack))
                       + (FirstAnswer(s.oack.Some?) + (Blocks(1, last, plan.late) + plan.tail)))
    && (s.acks != [] ==>
          && n in s.acks && s.reach == n
          && (n == 0 ==> script == Blocks(1, last, plan.late) + plan.tail)
          && (0 < n < last ==>
                && silences <= plan.late(n + 1)
                && script == Coming(plan.late(n + 1) - silences, n + 1, last, plan.late) + plan.tail)
          && (n == last ==> script == plan.tail && silences == 0))
  }

  /** There is more to come. */
  ghost predicate More(file: seq<Byte>, s: Session, n: nat, plan: Plan)
    requires s.blksize >= 1
  {
    s.acks == [] || n < LastInReach(file, s.blksize, plan.most)
  }

  /** A silence comes first. */
  ghost predicate Quiet(s: Session, n: nat, silences: nat, plan: Plan) {
    if s.acks == [] then silences < plan.late(0) else 0 < n && silences < plan.late(n + 1)
  }

  lemma FullOackIsGood(file: seq<Byte>, blksize: nat)
    requires DEFAULT_PACKET <= blksize <= MAX_PACKET
    ensures Conforming(file, blksize, Some(FullOack(blksize, |file|))) && Agreeable(FullOack(blksize, |file|))
  {
    var m := FullOack(blksize, |file|);
    assert m.options[0] in m.options;
  }

  // ----- what comes next

  lemma NextDelivered(file: seq<Byte>, s: Option<Session>, k: nat, rest: seq<Choice>)
    requires CanDeliver(file, s, k) && k < BLOCK_MODULUS
    ensures Upcoming(file, s, [DeliverData(k)] + rest) ==
              Delivery(Arrived(Data(k, Block(file, s.value.blksize, k))), s, rest)
  {
    assert ([DeliverData(k)] + rest)[1..] == rest;
  }

  lemma NextAdvanced(file: seq<Byte>, s: Session, rest: seq<Choice>)
    ensures Upcoming(file, Some(s), [Advance] + rest) == Upcoming(file, Some(Advanced(file, s)), rest)
  {
    assert ([Advance] + rest)[1..] == rest;
  }

  lemma NextOack(file: seq<Byte>, s: Session, rest: seq<Choice>)
    requires s.oack.Some?
    ensures Upcoming(file, Some(s), [DeliverOack] + rest) == Delivery(Arrived(Oack(s.oack.value)), Some(s), rest)
  {
    assert ([DeliverOack] + rest)[1..] == rest;
  }

  lemma NextSilence(file: seq<Byte>, s: Option<Session>, rest: seq<Choice>)
    ensures Upcoming(file, s, [Expire] + rest) == Delivery(Timeout, s, rest) && ([Expire] + rest)[1..] == rest
  {
    assert ([Expire] + rest)[1..] == rest;
  }

  /** The two choices behind block `n` bring block `n + 1`. */
  lemma NextOfBlocks(file: seq<Byte>, s: Session, n: nat, rest: seq<Choice>)
    requires n + 1 < BLOCK_MODULUS && n * s.blksize <= |file|
    requires if s.acks == [] then n == 0 && s.reach == 1 else n in s.acks && s.reach == n
    ensures Start(s.blksize, n + 1) <= |file|
    ensures Upcoming(file, Some(s), [Advance] + ([DeliverData(n + 1)] + rest)) ==
              Delivery(Arrived(Data(n + 1, Block(file, s.blksize, n + 1))), Some(s.(reach := n + 1)), rest)
  {
    var t := s.(reach := n + 1);
    assert Advanced(file, s) == t;
    NextDelivered(file, Some(t), n + 1, rest);
    NextAdvanced(file, s, [DeliverData(n + 1)] + rest);
  }

  lemma ComingNow(k: nat, last: nat, late: nat -> nat, tail: seq<Choice>)
    requires k <= last
    ensures Coming(0, k, last, late) + tail == [Advance] + ([DeliverData(k)] + (Blocks(k + 1, last, late) + tail))
  {
    hide Blocks;
  }

  lemma ComingLater(m: nat, k: nat, last: nat, late: nat -> nat, tail: seq<Choice>)
    requires k <= last && m > 0
    ensures Coming(m, k, last, late) + tail == [Expire] + (Coming(m - 1, k, last, late) + tail)
  {
    hide Blocks;
    assert Expires(m) == [Expire] + Expires(m - 1);
  }

  lemma BlocksAreComing(k: nat, last: nat, late: nat -> nat)
    requires k <= last
    ensures Blocks(k, last, late) == Coming(late(k), k, last, late)
  {
    hide Coming;
  }

  lemma NoBlocks(k: nat, last: nat, late: nat -> nat)
    requires k > last
    ensures Blocks(k, last, late) == []
  {
  }

  lemma RetriesNow(serve: Choice, rest: seq<Choice>)
    ensures Retries(0, serve) + rest == rest
  {
  }

  lemma RetriesLater(m: nat, serve: Choice, rest: seq<Choice>)
    requires m > 0
    ensures Retries(m, serve) + rest == [Expire] + ([serve] + (Retries(m - 1, serve) + rest))
  {
  }

  /** Before anything has been acknowledged. */
  lemma FirstDelivered(file: seq<Byte>, s: Session, m: nat, rest: seq<Choice>, behind: seq<Choice>)
    requires s.acks == [] && s.reach == if s.oack.Some? then 0 else 1
    requires rest == if s.oack.Some? then [DeliverOack] + behind else [Advance] + ([DeliverData(1)] + behind)
    ensures var script := Retries(m, Serve(s.blksize, s.oack)) + rest; var d := Upcoming(file, Some(s), script);
      if m > 0 then d == Delivery(Timeout, Some(s), script[1..]) && script != []
      else if s.oack.Some? then d == Delivery(Arrived(Oack(s.oack.value)), Some(s), behind)
      else d == Delivery(Arrived(Data(1, Block(file, s.blksize, 1))), Some(s.(reach := 1)), behind)
  {
    hide Retries, Upcoming;
    var serve := Serve(s.blksize, s.oack);
    if m > 0 {
      RetriesLater(m, serve, rest);
      NextSilence(file, Some(s), [serve] + (Retries(m - 1, serve) + rest));
    } else {
      RetriesNow(serve, rest);
      if s.oack.Some? {
        NextOack(file, s, behind);
      } else {
        NextOfBlocks(file, s, 0, behind);
      }
    }
  }

  /** Behind the acknowledgement of block `n`. */
  lemma LaterDelivered(file: seq<Byte>, s: Session, n: nat, m: nat, last: nat, plan: Plan)
    requires n in s.acks && s.reach == n < last < BLOCK_MODULUS && n * s.blksize <= |file|
    ensures var script := Coming(m, n + 1, last, plan.late) + plan.tail; var d := Upcoming(file, Some(s), script);
      if m > 0 then d == Delivery(Timeout, Some(s), script[1..]) && script != []
      else
        && Start(s.blksize, n + 1) <= |file|
        && d == Delivery(Arrived(Data(n + 1, Block(file, s.blksize, n + 1))), Some(s.(reach := n + 1)),
                         Blocks(n + 2, last, plan.late) + plan.tail)
  {
    hide Blocks, Coming, Upcoming;
    if m > 0 {
      ComingLater(m, n + 1, last, plan.late, plan.tail);
      NextSilence(file, Some(s), Coming(m - 1, n + 1, last, plan.late) + plan.tail);
    } else {
      ComingNow(n + 1, last, plan.late, plan.tail);
      NextOfBlocks(file, s, n, Blocks(n + 2, last, plan.late) + plan.tail);
    }
  }

  /** What a client that is on schedule sees. */
  ghost predicate Brings(file: seq<Byte>, s: Session, n: nat, quiet: bool, script: seq<Choice>, plan: Plan)
    requires s.blksize >= 1
  {
    var last, d := LastInReach(file, s.blksize, plan.most), Upcoming(file, Some(s), script);
    if quiet then script != [] && d == Delivery(Timeout, Some(s), script[1..])
    else if AwaitsOack(s) then
      d == Delivery(Arrived(Oack(FullOack(s.blksize, |file|))), Some(s), Blocks(1, last, plan.late) + plan.tail)
    else
      && Start(s.blksize, n + 1) <= |file|
      && d == Delivery(Arrived(Data(n + 1, Block(file, s.blksize, n + 1))), Some(s.(reach := n + 1)),
                       Blocks(n + 2, last, plan.late) + plan.tail)
  }

  lemma FirstOnSchedule(file: seq<Byte>, s: Session, script: seq<Choice>, m: nat, plan: Plan)
    requires s.blksize >= 1 && s.acks == [] && s.reach == (if s.oack.Some? then 0 else 1) && Feasible(plan)
    requires s.oack.Some? ==> s.oack.value == FullOack(s.blksize, |file|)
    requires script == Retries(m, Serve(s.blksize, s.oack)) + (FirstAnswer(s.oack.Some?)
                       + (Blocks(1, LastInReach(file, s.blksize, plan.most), plan.late) + plan.tail))
    ensures Brings(file, s, 0, m > 0, script, plan)
  {
    hide Blocks, Coming, Retries, Upcoming, Block, FullOack;
    var last := LastInReach(file, s.blksize, plan.most);
    BlocksNow(1, last, plan);
    hide LastInReach;
    var blocks := Blocks(1, last, plan.late) + plan.tail;
    var behind := if s.oack.Some? then blocks else Blocks(2, last, plan.late) + plan.tail;
    assert s.oack.None? ==> FirstAnswer(false) + blocks == blocks;
    FirstDelivered(file, s, m, FirstAnswer(s.oack.Some?) + blocks, behind);
  }

  /** A client that is on schedule sees a silence, the option acknowledgement, or the next block. */
  lemma ScheduleDelivers(file: seq<Byte>, session: Option<Session>, script: seq<Choice>, n: nat, silences: nat,
                         plan: Plan)
    requires OnSchedule(file, session, script, n, silences, plan) && More(file, session.value, n, plan)
    ensures Brings(file, session.value, n, Quiet(session.value, n, silences, plan), script, plan)
  {
    hide Blocks, Coming, Retries, Upcoming, Block, FirstAnswer;
    var s, late := session.value, plan.late;
    if s.acks == [] {
      FirstOnSchedule(file, s, script, late(0) - silences, plan);
      hide Brings;
    } else {
      var last := LastInReach(file, s.blksize, plan.most);
      Quotient(|file|, s.blksize, n);
      BlocksNow(n + 1, last, plan);
      LaterDelivered(file, s, n, if n == 0 then 0 else late(n + 1) - silences, last, plan);
    }
  }

  lemma BlocksNow(k: nat, last: nat, plan: Plan)
    requires k <= last && Feasible(plan)
    ensures Blocks(k, last, plan.late) == Coming(plan.late(k), k, last, plan.late)
    ensures k == 1 ==> Blocks(k, last, plan.late) == Coming(0, k, last, plan.late)
    ensures k == 1 ==>
              Blocks(k, last, plan.late) + plan.tail ==
                [Advance] + ([DeliverData(k)] + (Blocks(k + 1, last, plan.late) + plan.tail))
  {
    BlocksAreComing(k, last, plan.late);
    ComingNow(k, last, plan.late, plan.tail);
  }

  /** Acknowledged, a packet keeps it on schedule. */
  lemma ScheduleContinues(file: seq<Byte>, before: Option<Session>, session: Option<Session>, script: seq<Choice>,
                          n: nat, silences: nat, plan: Plan)
    requires OnSchedule(file, before, script, n, silences, plan) && More(file, before.value, n, plan)
    requires !Quiet(before.value, n, silences, plan) && session.Some?
    requires var d, k := Upcoming(file, before, script), if AwaitsOack(before.value) then 0 else n + 1;
      d.session.Some? && session.value == d.session.value.(acks := d.session.value.acks + [k])
    ensures var d := Upcoming(file, before, script);
      if AwaitsOack(before.value) then OnSchedule(file, session, d.script, 0, silences, plan)
      else OnSchedule(file, session, d.script, n + 1, 0, plan)
  {
    ScheduleDelivers(file, before, script, n, silences, plan);
    var last := LastInReach(file, before.value.blksize, plan.most);
    if !AwaitsOack(before.value) {
      if n + 1 < last {
        BlocksAreComing(n + 2, last, plan.late);
      } else {
        NoBlocks(n + 2, last, plan.late);
      }
    }
    hide Upcoming, Blocks, Coming, Retries, LastInReach;
  }

  /** So does a silence at which the request is repeated. */
  lemma ScheduleRetries(file: seq<Byte>, session: Option<Session>, script: seq<Choice>, n: nat, silences: nat,
                        plan: Plan)
    requires OnSchedule(file, session, script, n, silences, plan)
    requires session.value.acks == [] && silences < plan.late(0)
    ensures |script| >= 2 && script[1] == Serve(session.value.blksize, session.value.oack)
    ensures Conforming(file, session.value.blksize, session.value.oack)
    ensures OnSchedule(file, session, script[1..][1..], n, silences + 1, plan)
  {
    var s, m := session.value, plan.late(0) - silences;
    var serve := Serve(s.blksize, s.oack);
    FullOackIsGood(file, s.blksize);
    PlainIsGood(file);
    hide Blocks, Retries, Conforming, LastInReach, Feasible;
    var rest := FirstAnswer(s.oack.Some?) + (Blocks(1, LastInReach(file, s.blksize, plan.most), plan.late) + plan.tail);
    RetriesLater(m, serve, rest);
    Dropped(Expire, [serve] + (Retries(m - 1, serve) + rest));
    Dropped(serve, Retries(m - 1, serve) + rest);
    assert script[1] == script[1..][0];
  }

  lemma Dropped(c: Choice, rest: seq<Choice>)
    ensures ([c] + rest)[0] == c && ([c] + rest)[1..] == rest
  {
  }

  /** And one at which the acknowledgement of the last block is repeated. */
  lemma ScheduleWaits(file: seq<Byte>, before: Option<Session>, session: Option<Session>, script: seq<Choice>,
                      n: nat, silences: nat, plan: Plan)
    requires OnSchedule(file, before, script, n, silences, plan) && More(file, before.value, n, plan)
    requires before.value.acks != [] && Quiet(before.value, n, silences, plan)
    requires session.Some? && session.value == before.value.(acks := before.value.acks + [n])
    ensures script != [] && OnSchedule(file, session, script[1..], n, silences + 1, plan)
  {
    var m, last := plan.late(n + 1) - silences, LastInReach(file, before.value.blksize, plan.most);
    hide Blocks, Coming, Retries, LastInReach, Feasible;
    ComingLater(m, n + 1, last, plan.late, plan.tail);
    Dropped(Expire, Coming(m - 1, n + 1, last, plan.late) + plan.tail);
  }

  lemma PlainIsGood(file: seq<Byte>)
    ensures Conforming(file, DEFAULT_PACKET, None)
  {
  }

  /** Where a transfer begins. */
  lemma ScheduleBegins(file: seq<Byte>, blksize: nat, oack: bool, script: seq<Choice>, plan: Plan)
    requires DEFAULT_PACKET <= blksize <= MAX_PACKET && (!oack ==> blksize == DEFAULT_PACKET) && Feasible(plan)
    requires script == Transfer(file, blksize, oack, plan)
    ensures var m := if oack then Some(FullOack(blksize, |file|)) else None;
      && script[0] == Serve(blksize, m) && Conforming(file, blksize, m)
      && OnSchedule(file, Some(Session(blksize, m, if oack then 0 else 1, [])), script[1..], 0, 0, plan)
  {
    FullOackIsGood(file, blksize);
    PlainIsGood(file);
    hide Blocks, Retries, Conforming;
  }

  /** Behind the last block there is only the rest. */
  lemma ScheduleEnds(file: seq<Byte>, session: Option<Session>, script: seq<Choice>, n: nat, silences: nat, plan: Plan)
    requires OnSchedule(file, session, script, n, silences, plan)
    requires n >= 1 && n == LastInReach(file, session.value.blksize, plan.most)
    ensures script == plan.tail && silences == 0 && session.value.acks != []
  {
    hide Blocks, Coming, Retries;
  }

  // ----- unbearable silences

  lemma NextOfSilent(file: seq<Byte>, s: Option<Session>, tail: seq<Choice>, k: nat)
    requires FallsSilent(tail) && k < 10
    ensures Upcoming(file, s, Left(tail, k)) == Delivery(Timeout, s, Left(tail, k + 1))
  {
    if k < |tail| {
      assert Left(tail, k)[0] == tail[k] && Left(tail, k)[1..] == Left(tail, k + 1);
    }
  }

  /** The same silences up to block `m`. */
  function UpTo(late: nat -> nat, m: nat): nat -> nat {
    (k: nat) => if k <= m then late(k) else 0
  }

  lemma {:induction false} BlocksCut(late: nat -> nat, k: nat, m: nat, last: nat)
    requires 1 <= k <= m + 1 <= last
    ensures Blocks(k, last, late) == Blocks(k, m, UpTo(late, m)) + Coming(late(m + 1), m + 1, last, late)
    decreases m + 1 - k
  {
    hide Coming;
    if k <= m {
      BlocksCut(late, k + 1, m, last);
      CutStep(late, k, m, last);
    }
  }

  lemma CutStep(late: nat -> nat, k: nat, m: nat, last: nat)
    requires 1 <= k <= m < last
    requires Blocks(k + 1, last, late) == Blocks(k + 1, m, UpTo(late, m)) + Coming(late(m + 1), m + 1, last, late)
    ensures Blocks(k, last, late) == Blocks(k, m, UpTo(late, m)) + Coming(late(m + 1), m + 1, last, late)
  {
    var cut, next := UpTo(late, m), Coming(late(m + 1), m + 1, last, late);
    assert cut(k) == late(k);
    BlocksAreComing(k, last, late);
    BlocksAreComing(k, m, cut);
    ComingFront(late(k), k, last, late);
    ComingFront(late(k), k, m, cut);
    hide *;
    Regroup(Expires(late(k)) + ([Advance] + [DeliverData(k)]), Blocks(k + 1, m, cut), next);
  }

  lemma Regroup(a: seq<Choice>, b: seq<Choice>, c: seq<Choice>)
    ensures (a + b) + c == a + (b + c)
  {
  }

  lemma ComingFront(m: nat, k: nat, last: nat, late: nat -> nat)
    requires k <= last
    ensures Coming(m, k, last, late) == (Expires(m) + ([Advance] + [DeliverData(k)])) + Blocks(k + 1, last, late)
  {
    hide Blocks, Expires;
  }

  lemma {:induction false} ExpiresFront(m: nat, n: nat, rest: seq<Choice>)
    requires n <= m
    ensures |Expires(m)| == m && forall i :: 0 <= i < n ==> (Expires(m) + rest)[i] == Expire
  {
    if n > 0 {
      ExpiresFront(m - 1, n - 1, rest);
      assert Expires(m) + rest == [Expire] + (Expires(m - 1) + rest);
    } else if m > 0 {
      ExpiresFront(m - 1, 0, rest);
    }
  }

  /** A transfer with more than nine silences before block `m + 1` is one of `m` blocks with silence behind it. */
  lemma TransferCut(file: seq<Byte>, blksize: nat, plan: Plan, m: nat) returns (cut: Plan)
    requires blksize >= 1 && plan.most <= MOST_BLOCKS && BearableTo(plan.late, m)
    requires 1 <= m < LastInReach(file, blksize, plan.most) && plan.late(m + 1) > 9
    ensures Feasible(cut) && cut.most == m && FallsSilent(cut.tail) && cut.late(0) == plan.late(0)
    ensures Transfer(file, blksize, true, cut) == Transfer(file, blksize, true, plan)
  {
    var late, last := plan.late, LastInReach(file, blksize, plan.most);
    var next := Coming(late(m + 1), m + 1, last, late);
    cut := Plan(UpTo(late, m), m, next + plan.tail);
    BlocksCut(late, 1, m, last);
    ComingFront(late(m + 1), m + 1, last, late);
    ExpiresFront(late(m + 1), 10, ([Advance] + [DeliverData(m + 1)]) + Blocks(m + 2, last, late) + plan.tail);
    hide Blocks, Coming, Expires, Retries;
    assert next + plan.tail == Expires(late(m + 1))
        + (([Advance] + [DeliverData(m + 1)]) + Blocks(m + 2, last, late) + plan.tail);
    assert LastInReach(file, blksize, m) == m;
    assert (Blocks(1, m, cut.late) + next) + plan.tail == Blocks(1, m, cut.late) + cut.tail;
  }

  /** A transfer with more than twenty silences before its first answer. */
  lemma TransferUnheard(file: seq<Byte>, blksize: nat, oack: bool, plan: Plan) returns (tail: seq<Choice>)
    requires blksize >= 1 && plan.late(0) > 20
    ensures Transfer(file, blksize, oack, plan) == Unheard(file, blksize, oack, tail) && tail != [] && tail[0] == Expire
  {
    var serve, last := Serving(file, blksize, oack), LastInReach(file, blksize, plan.most);
    var rest := FirstAnswer(oack) + (Blocks(1, last, plan.late) + plan.tail);
    var m := plan.late(0) - 20;
    tail := Retries(m, serve) + rest;
    assert Transfer(file, blksize, oack, plan) == [serve] + (Retries(20 + m, serve) + rest);
    assert Unheard(file, blksize, oack, tail) == [serve] + (Retries(20, serve) + tail);
    hide *;
    RetriesSplit(20, m, serve);
    RetriesLater(m, serve, rest);
    Regroup(Retries(20, serve), Retries(m, serve), rest);
  }

  lemma {:induction false} RetriesSplit(a: nat, b: nat, serve: Choice)
    ensures Retries(a + b, serve) == Retries(a, serve) + Retries(b, serve)
  {
    if a > 0 {
      RetriesSplit(a - 1, b, serve);
    }
  }

  /** A transfer with a silence behind the option acknowledgement. */
  lemma TransferStrands(file: seq<Byte>, blksize: nat, plan: Plan) returns (more: seq<Choice>)
    requires blksize >= 1 && plan.late(1) > 0 && plan.most >= 1 && NoStrays(plan.tail)
    ensures Transfer(file, blksize, true, plan) == Stranding(file, blksize, plan.late(0), more) && NoStrays(more)
  {
    var last, late := LastInReach(file, blksize, plan.most), plan.late;
    more := Coming(late(1) - 1, 1, last, late) + plan.tail;
    BlocksAreComing(1, last, late);
    ComingLater(late(1), 1, last, late, plan.tail);
    ComingHasNoStrays(late(1) - 1, 1, last, late);
    hide Blocks, Coming, Retries, LastInReach;
  }

  lemma {:induction false} ComingHasNoStrays(m: nat, k: nat, last: nat, late: nat -> nat)
    requires k <= last
    ensures NoStrays(Coming(m, k, last, late))
    decreases last - k
  {
    ExpiresOnly(m);
    if k < last {
      ComingHasNoStrays(late(k + 1), k + 1, last, late);
    }
  }

  lemma {:induction false} ExpiresOnly(m: nat)
    ensures NoStrays(Expires(m))
  {
    if m > 0 {
      ExpiresOnly(m - 1);
    }
  }

  // ----- clients that will not get any further

  /** The client has accepted all blocks that are delivered, `n`; `asking`: it still sends its request. Its transfer
      is left behind, or nothing but a silence comes behind the option acknowledgement. */
  ghost predicate Doomed(file: seq<Byte>, session: Option<Session>, script: seq<Choice>, n: nat, silences: nat,
                         asking: bool, plan: Plan)
  {
    && n == plan.most == 0 && NoStrays(script)
    && if session.None? then !asking
       else if !asking then script == [Expire] + plan.tail
       else
         var serve := Serving(file, session.value.blksize, true);
         && DEFAULT_PACKET <= session.value.blksize <= MAX_PACKET && session.value == Answer(serve)
         && silences <= plan.late(0) && plan.late(0) <= 20
         && script == Retries(plan.late(0) - silences, serve) + ([DeliverOack] + ([Expire] + plan.tail))
  }

  /** No answer comes for the 21st time. */
  ghost predicate Overdue(file: seq<Byte>, session: Option<Session>, script: seq<Choice>, n: nat, silences: nat,
                          asking: bool, plan: Plan)
  {
    && n == plan.most == 0 && asking && session.Some? && silences <= 20 && (plan.tail == [] || plan.tail[0] == Expire)
    && var serve := Serving(file, session.value.blksize, session.value.oack.Some?);
    && Conforming(file, serve.blksize, serve.oack) && session.value == Answer(serve)
    && script == Retries(20 - silences, serve) + plan.tail
  }

  /** No block comes for the tenth time. */
  ghost predicate Deserted(file: seq<Byte>, session: Option<Session>, script: seq<Choice>, n: nat, silences: nat,
                           asking: bool, plan: Plan)
  {
    && n == plan.most > 0 && session.Some? && silences <= 9 && FallsSilent(plan.tail)
    && script == Left(plan.tail, silences)
  }

  ghost predicate Hopeless(file: seq<Byte>, session: Option<Session>, script: seq<Choice>, n: nat, silences: nat,
                           asking: bool, plan: Plan)
  {
    || Doomed(file, session, script, n, silences, asking, plan)
    || Overdue(file, session, script, n, silences, asking, plan)
    || Deserted(file, session, script, n, silences, asking, plan)
  }

  /** What such a client sees. */
  lemma DoomedSees(file: seq<Byte>, session: Option<Session>, script: seq<Choice>, n: nat, silences: nat,
                   asking: bool, plan: Plan)
    requires Doomed(file, session, script, n, silences, asking, plan) && session.Some?
    ensures var d := Upcoming(file, session, script);
      if !asking then d.reply.Timeout?
      else if silences < plan.late(0) then
        && d.reply.Timeout? && d.session == session && d.script != []
        && d.script[0] == Serving(file, session.value.blksize, true)
        && Conforming(file, d.script[0].blksize, d.script[0].oack)
        && d.script[1..] == Retries(plan.late(0) - silences - 1, d.script[0]) + ([DeliverOack] + ([Expire] + plan.tail))
      else
        && d.reply == Arrived(Oack(FullOack(session.value.blksize, |file|))) && d.session == session
        && Agreeable(d.reply.packet.message) && d.script == [Expire] + plan.tail
  {
    if !asking {
      NextSilence(file, session, plan.tail);
    } else {
      var serve, m := Serving(file, session.value.blksize, true), plan.late(0) - silences;
      var rest := [DeliverOack] + ([Expire] + plan.tail);
      FullOackIsGood(file, session.value.blksize);
      hide Upcoming, Retries, Conforming, Agreeable, FullOack, NoStrays;
      if m > 0 {
        RetriesLater(m, serve, rest);
        NextSilence(file, session, [serve] + (Retries(m - 1, serve) + rest));
        Dropped(serve, Retries(m - 1, serve) + rest);
      } else {
        RetriesNow(serve, rest);
        NextOack(file, session.value, [Expire] + plan.tail);
      }
    }
  }

  lemma OverdueSees(file: seq<Byte>, session: Option<Session>, script: seq<Choice>, n: nat, silences: nat,
                    asking: bool, plan: Plan)
    requires Overdue(file, session, script, n, silences, asking, plan)
    ensures var d := Upcoming(file, session, script);
      && d.reply.Timeout? && d.session == session
      && (silences < 20 ==>
            && d.script != [] && d.script[0] == Serving(file, session.value.blksize, session.value.oack.Some?)
            && d.script[1..] == Retries(20 - silences - 1, d.script[0]) + plan.tail)
  {
    var serve, m := Serving(file, session.value.blksize, session.value.oack.Some?), 20 - silences;
    assert Upcoming(file, session, plan.tail).reply.Timeout? && Upcoming(file, session, plan.tail).session == session;
    hide Upcoming, Retries, Conforming, FullOack, Serving;
    if m > 0 {
      RetriesLater(m, serve, plan.tail);
      NextSilence(file, session, [serve] + (Retries(m - 1, serve) + plan.tail));
      Dropped(serve, Retries(m - 1, serve) + plan.tail);
    } else {
      RetriesNow(serve, plan.tail);
    }
  }

  /** A network on which the first fill comes to nothing: for a silence behind the option acknowledgement, or for lack
      of an answer. */
  ghost predicate NoHope(file: seq<Byte>, script: seq<Choice>, plan: Plan) {
    && plan.most == 0 && script != [] && script[0].Serve? && Conforming(file, script[0].blksize, script[0].oack)
    && (|| (&& DEFAULT_PACKET <= script[0].blksize <= MAX_PACKET && plan.late(0) <= 20 && NoStrays(plan.tail)
            && script == Stranding(file, script[0].blksize, plan.late(0), plan.tail))
        || (&& (plan.tail == [] || plan.tail[0] == Expire)
            && script == Unheard(file, script[0].blksize, script[0].oack.Some?, plan.tail)))
  }

  /** Where that begins. */
  lemma NoHopeBegins(file: seq<Byte>, script: seq<Choice>, plan: Plan)
    requires NoHope(file, script, plan)
    ensures Hopeless(file, Some(Answer(script[0])), script[1..], 0, 0, true, plan)
  {
    var session, b, rest := Some(Answer(script[0])), script[0].blksize, script[1..];
    if script == Unheard(file, b, script[0].oack.Some?, plan.tail)
       && (plan.tail == [] || plan.tail[0] == Expire) {
      hide Conforming, Retries, FullOack, NoStrays;
      var serve := Serving(file, b, script[0].oack.Some?);
      Dropped(serve, Retries(20, serve) + plan.tail);
      assert Overdue(file, session, rest, 0, 0, true, plan);
    } else {
      var serve := Serving(file, b, true);
      RetriesHaveNoStrays(plan.late(0), serve);
      assert NoStrays(Retries(plan.late(0), serve) + ([DeliverOack] + ([Expire] + plan.tail)));
      hide Conforming, Retries, FullOack, NoStrays;
      Dropped(serve, Retries(plan.late(0), serve) + ([DeliverOack] + ([Expire] + plan.tail)));
      assert Doomed(file, session, rest, 0, 0, true, plan);
    }
  }

  lemma {:induction false} RetriesHaveNoStrays(m: nat, serve: Choice)
    requires serve.Serve?
    ensures NoStrays(Retries(m, serve))
  {
    if m > 0 {
      RetriesHaveNoStrays(m - 1, serve);
    }
  }

  // ----- any schedule whatever

  /** The first block from `k` on, of those up to `last`, with more than nine silences before it. */
  ghost function FirstLate(late: nat -> nat, k: nat, last: nat): (r: nat)
    requires k <= last + 1
    ensures k <= r <= last + 1 && (r <= last ==> late(r) > 9) && forall j :: k <= j < r ==> late(j) <= 9
    decreases last + 1 - k
  {
    if k == last + 1 || late(k) > 9 then k else FirstLate(late, k + 1, last)
  }

  /** A transfer with any number of silences before each packet is one without hope, or it delivers the blocks
      before the first unbearable silence, and nothing behind them. */
  lemma Effective(file: seq<Byte>, blksize: nat, late: nat -> nat, tail: seq<Choice>) returns (plan: Plan)
    requires DEFAULT_PACKET <= blksize <= MAX_PACKET && FallsSilent(tail) && NoStrays(tail)
    ensures var script := Transfer(file, blksize, true, Plan(late, MOST_BLOCKS, tail));
      if late(0) > 20 || late(1) > 0 then NoHope(file, script, plan)
      else Feasible(plan) && FallsSilent(plan.tail) && script == Transfer(file, blksize, true, plan)
    ensures late(0) <= 20 && late(1) == 0 ==>
              forall n :: 1 <= n <= |file| / blksize + 1 ==>
                (n <= plan.most <==> n <= MOST_BLOCKS && BearableTo(late, n))
  {
    var whole, last := Plan(late, MOST_BLOCKS, tail), LastInReach(file, blksize, MOST_BLOCKS);
    if late(0) > 20 || late(1) > 0 {
      plan := WithoutHope(file, blksize, late, tail);
    } else {
      var k := FirstLate(late, 2, last);
      if k <= last {
        plan := TransferCut(file, blksize, whole, k - 1);
      } else {
        plan := Plan(late, last, tail);
        assert LastInReach(file, blksize, last) == last;
      }
      hide Transfer, FallsSilent, NoStrays;
      forall n | 1 <= n <= |file| / blksize + 1 ensures n <= plan.most <==> n <= MOST_BLOCKS && BearableTo(late, n) {
      }
    }
  }

  lemma WithoutHope(file: seq<Byte>, blksize: nat, late: nat -> nat, tail: seq<Choice>) returns (plan: Plan)
    requires DEFAULT_PACKET <= blksize <= MAX_PACKET && NoStrays(tail) && (late(0) > 20 || late(1) > 0)
    ensures NoHope(file, Transfer(file, blksize, true, Plan(late, MOST_BLOCKS, tail)), plan)
  {
    var whole, more := Plan(late, MOST_BLOCKS, tail), [];
    if late(0) > 20 {
      more := TransferUnheard(file, blksize, true, whole);
    } else {
      more := TransferStrands(file, blksize, whole);
    }
    plan := Plan(late, 0, more);
    var script := Transfer(file, blksize, true, whole);
    FullOackIsGood(file, blksize);
    assert script[0] == Serving(file, blksize, true);
    hide Transfer, Stranding, Unheard, Conforming, NoStrays;
  }
}
