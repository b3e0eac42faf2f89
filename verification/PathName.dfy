/**
  `fix_path_name` of efi/efimisc.c: an EFI path name with backslashes is turned
  in place into one with single slashes, by a read pointer that runs ahead of a
  write pointer.
 */
module PathName {
  import opened Wrappers

  const NUL := '\0'

  /** Position of the first backslash, or the length. */
  function Separator(s: string): (i: nat)
    ensures i <= |s| && (i < |s| ==> s[i] == '\\') && forall j :: 0 <= j < i ==> s[j] != '\\'
  {
    if s == "" || s[0] == '\\' then 0 else
    var i := Separator(s[1..]);
    assert forall j :: 1 <= j < i + 1 ==> s[j] == s[1..][j - 1];
    i + 1
  }

  /** The components of `s`, each closed by a backslash except the last, joined with slashes: empty components
      and closed "." components are left out. */
  ghost function Clean(s: string): string
    decreases |s|
  {
    var i := Separator(s);
    if i == |s| then s
    else (if s[..i] == "" || s[..i] == "." then "" else s[..i] + "/") + Clean(s[i + 1..])
  }

  /** The same from the middle of a component on. */
  ghost function Middle(s: string): string {
    var i := Separator(s);
    if i == |s| then s else s[..i] + "/" + Clean(s[i + 1..])
  }

  // ----- what each step of the loop does

  lemma SeparatorShifts(s: string)
    requires s != "" && s[0] != '\\'
    ensures Separator(s) == 1 + Separator(s[1..])
  {
  }

  lemma MiddleStep(s: string)
    requires s != "" && s[0] != '\\'
    ensures Middle(s) == s[..1] + Middle(s[1..])
  {
    hide Separator, Clean;
    SeparatorShifts(s);
    var i := Separator(s);
    if i < |s| {
      FirstOfMany(s, i, Clean(s[i + 1..]));
    } else {
      assert s == s[..1] + s[1..];
    }
  }

  lemma FirstOfMany(s: string, i: nat, t: string)
    requires 1 <= i < |s|
    ensures s[1..][i..] == s[i + 1..] && s[..i] + "/" + t == s[..1] + (s[1..][..i - 1] + "/" + t)
  {
    assert s[..i] == s[..1] + s[1..][..i - 1];
  }

  /** A component that is kept is copied from its first character on. */
  lemma CleanStep(s: string)
    requires s != "" && s[0] != '\\' && !(|s| > 1 && s[0] == '.' && s[1] == '\\')
    ensures Clean(s) == s[..1] + Middle(s[1..])
  {
    SeparatorShifts(s);
    var i := Separator(s);
    if i < |s| {
      assert s[..i] != "." by {
        assert i == 1 ==> s[..i] == [s[0]];
      }
      assert Clean(s) == Middle(s);
      MiddleStep(s);
    } else {
      assert s == s[..1] + s[1..];
    }
  }

  /** A first backslash at `i` closes the first component. */
  lemma CleanSplits(s: string, i: nat)
    requires i < |s| && s[i] == '\\' && forall j :: 0 <= j < i ==> s[j] != '\\'
    ensures Clean(s) == (if s[..i] == "" || s[..i] == "." then "" else s[..i] + "/") + Clean(s[i + 1..])
  {
    hide Separator;
    assert Separator(s) == i;
  }

  lemma CleanSkips(s: string)
    requires s != "" && (s[0] == '\\' || (|s| > 1 && s[0] == '.' && s[1] == '\\'))
    ensures Clean(s) == Clean(s[if s[0] == '\\' then 1 else 2..])
  {
    hide *;
    if s[0] == '\\' {
      CleanSplits(s, 0);
      assert s[..0] == "";
    } else {
      CleanSplits(s, 1);
      assert s[..1] == ".";
    }
  }

  // ----- the result is normal

  /** No backslash, no two slashes in a row, and no "." component between slashes. */
  ghost predicate Normal(s: string) {
    && (forall i :: 0 <= i < |s| ==> s[i] != '\\')
    && (forall i :: 0 <= i < |s| - 1 ==> !(s[i] == '/' && s[i + 1] == '/'))
    && (forall i :: 0 <= i < |s| - 2 ==> !(s[i] == '/' && s[i + 1] == '.' && s[i + 2] == '/'))
  }

  lemma NormalAlone(component: string)
    requires '/' !in component && '\\' !in component
    ensures Normal("/" + component)
  {
    assert forall i :: 0 <= i < |component| ==> ("/" + component)[i + 1] == component[i];
  }

  lemma NormalJoins(component: string, t: string)
    requires Normal(t) && t != "" && t[0] == '/' && '/' !in component && '\\' !in component
    requires component != "" && component != "."
    ensures Normal("/" + component + t)
  {
    var n, s := |component|, "/" + component + t;
    assert forall i :: 0 <= i < n ==> s[i + 1] == component[i];
    assert forall i :: 0 <= i < |t| ==> s[i + 1 + n] == t[i];
    assert n == 1 ==> component == [component[0]];
  }

  lemma CleanWhole(s: string)
    requires '\\' !in s
    ensures Clean(s) == s
  {
    hide Separator;
    assert Separator(s) == |s|;
  }

  lemma {:induction false} CleanIsNormal(s: string)
    requires '/' !in s
    ensures Normal("/" + Clean(s))
    decreases |s|
  {
    hide *;
    var i := Separator(s);
    if i == |s| {
      CleanWhole(s);
      NormalAlone(s);
    } else {
      CleanSplits(s, i);
      CleanIsNormal(s[i + 1..]);
      var t := Clean(s[i + 1..]);
      if s[..i] == "" || s[..i] == "." {
        assert "" + t == t;
      } else {
        NormalJoins(s[..i], "/" + t);
        assert "/" + s[..i] + ("/" + t) == "/" + ((s[..i] + "/") + t);
      }
    }
  }

  // ----- paths that have slashes already

  /** Position of the first slash, or the length. */
  function Slash(s: string): (i: nat)
    ensures i <= |s| && (i < |s| ==> s[i] == '/') && forall j :: 0 <= j < i ==> s[j] != '/'
  {
    if s == "" || s[0] == '/' then 0 else
    var i := Slash(s[1..]);
    assert forall j :: 1 <= j < i + 1 ==> s[j] == s[1..][j - 1];
    i + 1
  }

  /** A slash stays, and begins a component like a backslash. */
  ghost function CleanAll(s: string): string
    decreases |s|
  {
    var k := Slash(s);
    if k == |s| then Clean(s) else Clean(s[..k]) + "/" + CleanAll(s[k + 1..])
  }

  ghost function MiddleAll(s: string): string {
    var k := Slash(s);
    if k == |s| then Middle(s) else Middle(s[..k]) + "/" + CleanAll(s[k + 1..])
  }

  lemma CleanAllIs(s: string)
    ensures var k := Slash(s);
      CleanAll(s) == if k == |s| then Clean(s[..k]) else Clean(s[..k]) + "/" + CleanAll(s[k + 1..])
  {
    hide Slash, Clean;
    assert Slash(s) == |s| ==> s[..|s|] == s;
  }

  lemma MiddleAllIs(s: string)
    ensures var k := Slash(s);
      MiddleAll(s) == if k == |s| then Middle(s[..k]) else Middle(s[..k]) + "/" + CleanAll(s[k + 1..])
  {
    hide Slash, Middle, CleanAll;
    assert Slash(s) == |s| ==> s[..|s|] == s;
  }

  /** Dropping `n` characters in front of the first slash. */
  lemma SegmentOn(s: string, n: nat)
    requires n <= Slash(s)
    ensures var k := Slash(s);
      && Slash(s[n..]) == k - n && s[n..][..k - n] == s[..k][n..]
      && (k < |s| ==> s[n..][k - n + 1..] == s[k + 1..])
  {
    hide Slash;
    var k, t := Slash(s), s[n..];
    assert forall j :: 0 <= j < |t| ==> t[j] == s[n + j];
  }

  lemma Joined(a: string, b: string, c: string)
    ensures (a + b) + "/" + c == a + (b + "/" + c)
  {
  }

  lemma MiddleAllStep(s: string)
    requires s != "" && s[0] != '\\' && s[0] != '/'
    ensures MiddleAll(s) == s[..1] + MiddleAll(s[1..])
  {
    hide *;
    SegmentOn(s, 1);
    MiddleAllIs(s);
    MiddleAllIs(s[1..]);
    var k := Slash(s);
    MiddleStep(s[..k]);
    assert s[..k][..1] == s[..1];
    if k < |s| {
      Joined(s[..1], Middle(s[..k][1..]), CleanAll(s[k + 1..]));
    }
  }

  lemma SegmentStep(s: string, k: nat)
    requires 1 <= k <= |s| && s[0] != '\\' && !(|s| > 1 && s[0] == '.' && s[1] == '\\')
    ensures Clean(s[..k]) == s[..1] + Middle(s[..k][1..])
  {
    hide *;
    CleanStep(s[..k]);
    assert s[..k][..1] == s[..1];
  }

  lemma CleanAllStep(s: string)
    requires s != "" && s[0] != '\\' && s[0] != '/' && !(|s| > 1 && s[0] == '.' && s[1] == '\\')
    ensures CleanAll(s) == s[..1] + MiddleAll(s[1..])
  {
    hide *;
    var k := Slash(s);
    SegmentStep(s, k);
    StepInSegment(s, k, s[..1], Middle(s[..k][1..]));
  }

  lemma StepInSegment(s: string, k: nat, first: string, middle: string)
    requires 1 <= k == Slash(s) && middle == Middle(s[..k][1..]) && Clean(s[..k]) == first + middle
    ensures CleanAll(s) == first + MiddleAll(s[1..])
  {
    hide *;
    SegmentOn(s, 1);
    CleanAllIs(s);
    MiddleAllIs(s[1..]);
    if k < |s| {
      Joined(first, middle, CleanAll(s[k + 1..]));
    }
  }

  lemma CleanAllSkips(s: string, n: nat)
    requires s != "" && (if s[0] == '\\' then n == 1 else n == 2 && |s| > 1 && s[0] == '.' && s[1] == '\\')
    ensures CleanAll(s) == CleanAll(s[n..])
  {
    hide *;
    var k := Slash(s);
    assert n <= k;
    SegmentOn(s, n);
    CleanAllIs(s);
    CleanAllIs(s[n..]);
    CleanSkips(s[..k]);
  }

  lemma MiddleAllCloses(s: string)
    requires s != "" && s[0] == '\\'
    ensures MiddleAll(s) == "/" + CleanAll(s)
  {
    hide *;
    CleanAllIs(s);
    MiddleAllIs(s);
    MiddleCloses(s[..Slash(s)]);
  }

  lemma MiddleCloses(s: string)
    requires s != "" && s[0] == '\\'
    ensures Middle(s) == "/" + Clean(s)
  {
    CleanSkips(s);
    hide Clean;
    assert Separator(s) == 0 && s[..0] == "";
  }

  lemma SlashStays(s: string)
    requires s != "" && s[0] == '/'
    ensures CleanAll(s) == MiddleAll(s) == "/" + CleanAll(s[1..])
  {
    assert Slash(s) == 0 && s[..0] == "" && Separator("") == 0;
    assert Clean("") == Middle("") == "";
  }

  // ----- the in-place algorithm

  /** The text of a buffer up to a terminating NUL. */
  ghost predicate Holds(a: seq<char>, s: string) {
    |s| < |a| && a[..|s|] == s && a[|s|] == NUL && NUL !in s
  }

  /** What is still to be written, given the last character written. */
  ghost function Rest(last: char, rest: string): string {
    if last == '/' then CleanAll(rest) else MiddleAll(rest)
  }

  /** Copying in place, one character behind the other, the reader gets ahead before it meets a backslash that
      closes a component: there is no backslash, or the first one stands behind a slash or a "." component. */
  ghost predicate GetsAhead(last: char, rest: string) {
    var j, t := Separator(rest), [last] + rest;
    j == |rest| || t[j] == '/' || (j >= 1 && t[j] == '.' && t[j - 1] == '/')
  }

  /** The reader is at least two ahead, or gets ahead by itself. */
  ghost predicate Ahead(p1: nat, p2: nat, last: char, rest: string) {
    p1 + 2 <= p2 || (p1 + 1 == p2 && GetsAhead(last, rest))
  }

  lemma AheadOn(last: char, rest: string)
    requires rest != "" && rest[0] != '\\' && !(last == '/' && rest[0] == '.' && |rest| > 1 && rest[1] == '\\')
    ensures GetsAhead(last, rest) <==> GetsAhead(rest[0], rest[1..])
  {
    hide Separator;
    SeparatorShifts(rest);
    var j := Separator(rest);
    assert ([rest[0]] + rest[1..]) == rest;
    assert j < |rest| ==> ([last] + rest)[j] == rest[j - 1];
    assert 2 <= j < |rest| ==> ([last] + rest)[j - 1] == rest[j - 2];
  }

  lemma AheadAtBackslash(last: char, rest: string)
    requires rest != "" && rest[0] == '\\'
    ensures GetsAhead(last, rest) <==> last == '/'
  {
    assert Separator(rest) == 0;
  }

  /** The paths the algorithm is made for: those with no backslash after the first character, and those in which
      the first such backslash stands behind a separator or behind a "." component. */
  ghost predicate Suitable(s: string) {
    NUL !in s && (s != "" ==> GetsAhead(First(s), s[1..]))
  }

  ghost function First(s: string): char
    requires s != ""
  {
    if s[0] == '\\' then '/' else s[0]
  }

  /** The path with slashes. */
  ghost function Fixed(s: string): string {
    if s == "" then "" else [First(s)] + Rest(First(s), s[1..])
  }

  /** For a path without slashes the usual results are suitable: two backslashes in front, or none behind the
      first character. */
  lemma UsualPaths(s: string)
    requires NUL !in s && |s| >= 2
    ensures s[0] == s[1] == '\\' ==> Suitable(s)
    ensures '\\' !in s[1..] ==> Suitable(s)
    ensures '/' !in s && s[0] == '\\' ==> Normal(Fixed(s))
  {
    if s[1] == '\\' {
      AheadAtBackslash(First(s), s[1..]);
    }
    if '/' !in s && s[0] == '\\' {
      CleanIsNormal(s[1..]);
      assert Slash(s[1..]) == |s[1..]|;
    }
  }

  /** The state of the loop: what has been written is the beginning of the target, what has not been read is
      still there. */
  ghost predicate Running(a: seq<char>, s: string, target: string, p1: nat, p2: nat) {
    && |s| < |a| && p1 < p2 <= |s| && a[p2..|s|] == s[p2..] && a[|s|] == NUL
    && a[p1] != NUL && target == a[..p1 + 1] + Rest(a[p1], s[p2..])
    && Ahead(p1, p2, a[p1], s[p2..])
  }

  lemma RestStep(last: char, rest: string)
    requires rest != "" && rest[0] != '\\'
    requires last == '/' ==> !(rest[0] == '.' && |rest| > 1 && rest[1] == '\\')
    ensures Rest(last, rest) == [rest[0]] + Rest(rest[0], rest[1..])
  {
    hide CleanAll, MiddleAll;
    assert rest[..1] == [rest[0]];
    if rest[0] == '/' {
      SlashStays(rest);
    } else if last == '/' {
      CleanAllStep(rest);
    } else {
      MiddleAllStep(rest);
    }
  }

  lemma RestCloses(last: char, rest: string)
    requires rest != "" && rest[0] == '\\' && last != '/'
    ensures Rest(last, rest) == "/" + Rest('/', rest)
  {
    hide CleanAll, MiddleAll;
    MiddleAllCloses(rest);
  }

  /** Copying one character. */
  lemma Copied(a: seq<char>, s: string, target: string, p1: nat, p2: nat)
    requires Running(a, s, target, p1, p2) && p2 < |s| && NUL !in s && s[p2] != '\\'
    requires a[p1] == '/' ==> !(s[p2] == '.' && p2 + 1 < |s| && s[p2 + 1] == '\\')
    ensures Running(a[p1 + 1 := s[p2]], s, target, p1 + 1, p2 + 1)
  {
    hide Rest;
    var rest, b := s[p2..], a[p1 + 1 := s[p2]];
    assert s[p2] in s;
    RestStep(a[p1], rest);
    assert rest[1..] == s[p2 + 1..];
    AheadOn(a[p1], rest);
    hide GetsAhead;
    assert Ahead(p1 + 1, p2 + 1, b[p1 + 1], rest[1..]);
    hide Ahead;
    var tail := Rest(s[p2], rest[1..]);
    assert b[..p1 + 2] == a[..p1 + 1] + [s[p2]];
    assert a[..p1 + 1] + ([s[p2]] + tail) == (a[..p1 + 1] + [s[p2]]) + tail;
    assert b[p2 + 1..|s|] == a[p2..|s|][1..];
  }

  /** Leaving out a separator, or a "." component. */
  lemma Skipped(a: seq<char>, s: string, target: string, p1: nat, p2: nat, n: nat)
    requires Running(a, s, target, p1, p2) && p2 < |s| && a[p1] == '/'
    requires if n == 1 then s[p2] == '\\' else n == 2 && s[p2] == '.' && p2 + 1 < |s| && s[p2 + 1] == '\\'
    ensures Running(a, s, target, p1, p2 + n)
  {
    hide CleanAll, MiddleAll, GetsAhead;
    CleanAllSkips(s[p2..], n);
    assert s[p2..][n..] == s[p2 + n..];
    assert a[p2 + n..|s|] == a[p2..|s|][n..];
  }

  /** Closing a component. */
  lemma Closed(a: seq<char>, s: string, target: string, p1: nat, p2: nat)
    requires Running(a, s, target, p1, p2) && p2 < |s| && a[p1] != '/' && s[p2] == '\\'
    ensures Running(a[p1 + 1 := '/'], s, target, p1 + 1, p2)
  {
    hide Rest;
    var rest, b := s[p2..], a[p1 + 1 := '/'];
    assert rest[0] == '\\' && rest[0] in rest;
    RestCloses(a[p1], rest);
    AheadAtBackslash(a[p1], rest);
    AheadAtBackslash('/', rest);
    hide GetsAhead;
    assert Ahead(p1 + 1, p2, b[p1 + 1], rest);
    assert p1 + 1 < p2;
    hide Ahead;
    var tail := Rest('/', rest);
    assert b[..p1 + 2] == a[..p1 + 1] + "/";
    assert a[..p1 + 1] + ("/" + tail) == (a[..p1 + 1] + "/") + tail;
    assert b[p2..|s|] == a[p2..|s|];
  }

  /** Only the slash is new. */
  lemma {:induction false} CleanAddsNothing(s: string, c: char)
    requires c !in s && c != '/'
    ensures c !in Clean(s) && c !in Middle(s)
    decreases |s|
  {
    hide Separator;
    var i := Separator(s);
    if i < |s| {
      CleanAddsNothing(s[i + 1..], c);
    }
  }

  lemma {:induction false} AllAddNothing(s: string, c: char)
    requires c !in s && c != '/'
    ensures c !in CleanAll(s) && c !in MiddleAll(s)
    decreases |s|
  {
    hide Slash, Clean, Middle, CleanAll, MiddleAll;
    var k := Slash(s);
    CleanAllIs(s);
    MiddleAllIs(s);
    CleanAddsNothing(s[..k], c);
    if k < |s| {
      AllAddNothing(s[k + 1..], c);
    }
  }

  /** The whole target has been written, up to and including the NUL. */
  ghost predicate Finished(a: seq<char>, target: string, p1: nat) {
    p1 < |a| && a[p1] == NUL && p1 == |target| && a[..p1] == target
  }

  /** The loop's variables as a value. */
  datatype Machine = Machine(a: seq<char>, p1: nat, p2: nat) {
    predicate Stopped()
      requires p1 < |a|
    {
      a[p1] == NUL
    }
  }

  function Put(m: Machine, c: char): (r: Option<Machine>)
    ensures r.Some? ==> r.value.p1 < |r.value.a|
  {
    if m.p1 + 1 < |m.a| then Some(Machine(m.a[m.p1 + 1 := c], m.p1 + 1, m.p2)) else None
  }

  /** One turn of the loop; None when it leaves the buffer. */
  ghost function Turn(m: Machine): (r: Option<Machine>)
    requires m.p1 < |m.a|
    ensures r.Some? ==> r.value.p1 < |r.value.a|
  {
    if m.p2 >= |m.a| then None
    else if m.a[m.p2] == NUL then Put(m, NUL)
    else if m.a[m.p2] == '.' && m.a[m.p1] == '/' && m.p2 + 1 >= |m.a| then None
    else if m.a[m.p2] == '.' && m.a[m.p1] == '/' && m.a[m.p2 + 1] == '\\' then Some(m.(p2 := m.p2 + 2))
    else if m.a[m.p2] == '\\' then if m.a[m.p1] == '/' then Some(m.(p2 := m.p2 + 1)) else Put(m, '/')
    else Put(m.(p2 := m.p2 + 1), m.a[m.p2])
  }

  /** At most `n` turns. */
  ghost function Run(m: Machine, n: nat): (r: Option<Machine>)
    requires m.p1 < |m.a|
    ensures r.Some? ==> r.value.p1 < |r.value.a|
    decreases n
  {
    if n == 0 || m.Stopped() then Some(m) else
    match Turn(m)
    case None => None
    case Some(t) => Run(t, n - 1)
  }

  /** The loop ends inside the buffer. */
  ghost predicate Ends(m: Machine)
    requires m.p1 < |m.a|
  {
    exists n: nat :: Run(m, n).Some? && Run(m, n).value.Stopped()
  }

  ghost function Start(a: seq<char>): (m: Machine)
    requires |a| > 0
    ensures m.p1 < |m.a|
  {
    Machine(if a[0] == '\\' then a[0 := '/'] else a, 0, 1)
  }

  ghost function Steps(m: Machine, s: string): nat
    requires m.p1 < |m.a| && m.p2 <= |s| + 1
  {
    if m.Stopped() then 0 else 1 + 2 * (|s| + 1 - m.p2) + (if m.a[m.p1] == '/' then 0 else 1)
  }

  /** At the end of the input the NUL is all that is left. */
  lemma Ended(a: seq<char>, s: string, target: string, p1: nat)
    requires Running(a, s, target, p1, |s|)
    ensures Finished(a[p1 + 1 := NUL], target, p1 + 1)
  {
    assert s[|s|..] == "" && Separator("") == 0;
    assert a[p1 + 1 := NUL][..p1 + 1] == a[..p1 + 1];
  }

  /** The loop is on its way, or has finished the job. */
  ghost predicate OnItsWay(m: Machine, s: string, target: string) {
    && m.p1 < |m.a| && m.p2 <= |s| + 1
    && (Finished(m.a, target, m.p1) || Running(m.a, s, target, m.p1, m.p2))
  }

  /** One turn brings the loop nearer to its end, and leaves what is behind the text alone. */
  lemma TurnKeeps(m: Machine, s: string, target: string)
    requires OnItsWay(m, s, target) && !m.Stopped() && NUL !in s
    ensures Turn(m).Some? && var t := Turn(m).value;
      && OnItsWay(t, s, target) && Steps(t, s) < Steps(m, s)
      && |t.a| == |m.a| && (|s| < |m.a| ==> t.a[|s| + 1..] == m.a[|s| + 1..])
  {
    hide Rest, Ahead;
    var a, p1, p2 := m.a, m.p1, m.p2;
    if p2 < |s| {
      assert a[p2] == a[p2..|s|][0] == s[p2];
      assert s[p2] in s && a[p2] != NUL;
      assert p2 + 1 < |s| ==> a[p2 + 1] == a[p2..|s|][1] == s[p2 + 1];
    }
    if a[p2] == NUL {
      Ended(a, s, target, p1);
    } else if a[p2] == '.' && a[p1] == '/' && a[p2 + 1] == '\\' {
      Skipped(a, s, target, p1, p2, 2);
    } else if a[p2] == '\\' {
      if a[p1] == '/' {
        Skipped(a, s, target, p1, p2, 1);
      } else {
        Closed(a, s, target, p1, p2);
      }
    } else {
      Copied(a, s, target, p1, p2);
    }
  }

  lemma StartsOnItsWay(a: seq<char>, s: string)
    requires Holds(a, s) && Suitable(s)
    ensures OnItsWay(Start(a), s, Fixed(s))
    ensures NUL !in Fixed(s) && Start(a).a[|s| + 1..] == a[|s| + 1..]
  {
    hide CleanAll, MiddleAll, GetsAhead;
    if s != "" {
      AllAddNothing(s[1..], NUL);
      assert Start(a).a[1..|s|] == s[1..];
    }
  }

  // ----- which paths it ends for

  lemma {:induction false} OnItsWayEnds(m: Machine, s: string, target: string)
    requires OnItsWay(m, s, target) && NUL !in s
    ensures Ends(m)
    decreases Steps(m, s)
  {
    if m.Stopped() {
      assert Run(m, 0).Some?;
    } else {
      TurnKeeps(m, s, target);
      var t := Turn(m).value;
      OnItsWayEnds(t, s, target);
      var n: nat :| Run(t, n).Some? && Run(t, n).value.Stopped();
      assert Run(m, n + 1) == Run(t, n);
    }
  }

  /** Both pointers at a slash: it is copied on and on. */
  ghost predicate Stuck(m: Machine) {
    m.p1 == m.p2 < |m.a| && m.a[m.p1] == '/'
  }

  lemma {:induction false} StuckForGood(m: Machine, n: nat)
    requires Stuck(m)
    ensures Run(m, n).Some? ==> !Run(m, n).value.Stopped()
    decreases n
  {
    if n > 0 && Turn(m).Some? {
      StuckForGood(Turn(m).value, n - 1);
    }
  }

  /** Copying in place, with a backslash ahead that will close a component. */
  ghost predicate Crawling(m: Machine, s: string) {
    && m.p2 == m.p1 + 1 <= |s| < |m.a| && m.a[m.p2..|s|] == s[m.p2..] && m.a[m.p1] != NUL
    && !GetsAhead(m.a[m.p1], s[m.p2..])
  }

  lemma CrawlOrStick(m: Machine, s: string)
    requires Crawling(m, s) && NUL !in s
    ensures m.p1 < |m.a| && !m.Stopped()
    ensures Turn(m).Some? && (Stuck(Turn(m).value) || (Crawling(Turn(m).value, s) && Turn(m).value.p1 == m.p1 + 1))
  {
    var a, p2 := m.a, m.p2;
    assert a[p2] == a[p2..|s|][0] == s[p2];
    assert s[p2] in s;
    assert p2 + 1 < |s| ==> a[p2 + 1] == a[p2..|s|][1] == s[p2 + 1];
    if a[p2] != '\\' {
      assert Turn(m) == Some(Machine(a, p2, p2 + 1)) by {
        assert a[p2 := a[p2]] == a;
      }
      assert a[p2 + 1..|s|] == a[p2..|s|][1..] && s[p2..][1..] == s[p2 + 1..];
    }
  }

  lemma {:induction false} CrawlingNeverEnds(m: Machine, s: string, n: nat)
    requires Crawling(m, s) && NUL !in s
    ensures Run(m, n).Some? ==> !Run(m, n).value.Stopped()
    decreases n
  {
    hide Crawling, Stuck, Turn;
    CrawlOrStick(m, s);
    if n > 0 {
      var t := Turn(m).value;
      if Stuck(t) {
        StuckForGood(t, n - 1);
      } else {
        CrawlingNeverEnds(t, s, n - 1);
      }
    }
  }

  /** The loop ends inside its buffer exactly for the suitable paths. */
  lemma EndsIffSuitable(a: seq<char>, s: string)
    requires Holds(a, s)
    ensures Ends(Start(a)) <==> Suitable(s)
  {
    if Suitable(s) {
      StartsOnItsWay(a, s);
      OnItsWayEnds(Start(a), s, Fixed(s));
    } else {
      var m := Start(a);
      assert m.a[1..|s|] == s[1..];
      assert Crawling(m, s);
      forall n: nat ensures Run(m, n).Some? ==> !Run(m, n).value.Stopped() {
        CrawlingNeverEnds(m, s, n);
      }
    }
  }

  /** The loop does not end for "\\a\\b". */
  lemma SingleBackslashes()
    ensures var s := "\\a\\b"; Holds(s + [NUL], s) && !Ends(Start(s + [NUL]))
  {
    var s := "\\a\\b";
    assert (s + [NUL])[..|s|] == s;
    assert s[1..][1] == '\\';
    EndsIffSuitable(s + [NUL], s);
  }

  /** The body of the loop. */
  method FixStep(a: array<char>, p1: nat, p2: nat) returns (q1: nat, q2: nat)
    requires p1 < a.Length && Turn(Machine(a[..], p1, p2)).Some?
    modifies a
    ensures Turn(Machine(old(a[..]), p1, p2)) == Some(Machine(a[..], q1, q2))
  {
    q1, q2 := p1, p2;
    if a[p2] == NUL {
      q1 := q1 + 1;
      a[q1] := a[p2];
    } else if a[p2] == '.' && a[p1] == '/' && a[p2 + 1] == '\\' {
      q2 := q2 + 2;
    } else if a[p2] == '\\' {
      if a[p1] == '/' {
        q2 := q2 + 1;
      } else {
        q1 := q1 + 1;
        a[q1] := '/';
      }
    } else {
      q1 := q1 + 1;
      a[q1] := a[p2];
      q2 := q2 + 1;
    }
  }

  /** `fix_path_name`: for every suitable path the result is the path with slashes, and nothing behind the path
      is touched. */
  method FixPathName(a: array<char>, ghost s: string)
    requires Holds(a[..], s) && Suitable(s)
    modifies a
    ensures Holds(a[..], Fixed(s)) && a[|s| + 1..] == old(a[|s| + 1..])
  {
    ghost var target := Fixed(s);
    StartsOnItsWay(a[..], s);
    var p1: nat, p2: nat := 0, 1;
    if a[p1] == '\\' {
      a[p1] := '/';
    }
    assert Machine(a[..], p1, p2) == Start(old(a[..]));
    hide Rest, Running, Fixed, Turn, Suitable, Ahead;
    while a[p1] != NUL
      invariant OnItsWay(Machine(a[..], p1, p2), s, target)
      invariant a[..][|s| + 1..] == old(a[..])[|s| + 1..]
      decreases Steps(Machine(a[..], p1, p2), s)
    {
      TurnKeeps(Machine(a[..], p1, p2), s, target);
      p1, p2 := FixStep(a, p1, p2);
    }
    assert a[..][|s| + 1..] == a[|s| + 1..];
  }
}
