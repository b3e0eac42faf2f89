/** Facts about slices that the models share. */
module Sequences {

  lemma SliceOfSlice<T>(s: seq<T>, a: nat, b: nat, from: nat, to: nat)
    requires a <= b <= |s| && from <= to <= b - a
    ensures s[a..b][from..to] == s[a + from..a + to]
  {
    forall i | 0 <= i < to - from ensures s[a..b][from..to][i] == s[a + from..a + to][i] {
      assert s[a..b][from..to][i] == s[a..b][from + i];
    }
  }

  ghost predicate Suffix<T>(s: seq<T>, t: seq<T>) {
    |s| <= |t| && s == t[|t| - |s|..]
  }

  lemma SuffixOfItself<T>(s: seq<T>)
    ensures Suffix(s, s)
  {
  }

  lemma SuffixOn<T>(s: seq<T>, t: seq<T>, u: seq<T>)
    requires Suffix(s, t) && Suffix(t, u)
    ensures Suffix(s, u)
  {
  }

  /** `s` with `x` put in at position `i`. */
  function Inserted<T>(s: seq<T>, i: nat, x: T): (r: seq<T>)
    requires i <= |s|
    ensures |r| == |s| + 1
    ensures forall j :: 0 <= j < |r| ==> r[j] == if j < i then s[j] else if j == i then x else s[j - 1]
  {
    s[..i] + [x] + s[i..]
  }
}
