/** Sequences: their parts, and concatenating a sequence of them. */
module Sequences {

  lemma {:induction false} TakeSnoc<T>(s: seq<T>, i: nat)
    requires i < |s|
    ensures s[..i + 1] == s[..i] + [s[i]]
  {
  }

  lemma {:induction false} TakeAll<T>(s: seq<T>)
    ensures s[..|s|] == s
  {
  }

  lemma {:induction false} SplitAt<T>(s: seq<T>, i: nat)
    requires i <= |s|
    ensures s == s[..i] + s[i..]
  {
  }

  lemma {:induction false} Associate<T>(a: seq<T>, b: seq<T>, c: seq<T>)
    ensures a + b + c == a + (b + c)
  {
  }

  /** `s[from..from + size]`. */
  function Slice<T>(s: seq<T>, from: nat, size: nat): (r: seq<T>)
    requires from + size <= |s|
    ensures |r| == size
  {
    seq(size, k requires 0 <= k < size => s[from + k])
  }

  /** `s[from..]`. */
  function Suffix<T>(s: seq<T>, from: nat): seq<T>
    requires from <= |s|
  {
    Slice(s, from, |s| - from)
  }

  lemma {:induction false} SliceIs<T>(s: seq<T>, from: nat, size: nat)
    requires from + size <= |s|
    ensures Slice(s, from, size) == s[from..from + size]
  {
  }

  lemma {:induction false} TakeOfAppend<T>(a: seq<T>, b: seq<T>, i: nat)
    requires i <= |a|
    ensures (a + b)[..i] == a[..i] && (a + b)[..|a|] == a
  {
  }

  lemma {:induction false} TakeOfTake<T>(s: seq<T>, n: nat, i: nat)
    requires i <= n <= |s|
    ensures s[..n][..i] == s[..i]
  {
  }

  lemma {:induction false} TailOfTake<T>(s: seq<T>, n: nat)
    requires 0 < n <= |s|
    ensures s[..n][0] == s[0] && s[..n][1..] == s[1..][..n - 1]
  {
  }

  lemma {:induction false} SliceOfDrop<T>(s: seq<T>, at: nat, lo: nat, hi: nat)
    requires at <= |s| && lo <= hi <= |s| - at
    ensures s[at..][lo..hi] == s[at + lo..at + hi]
  {
    forall k | 0 <= k < hi - lo ensures s[at..][lo..hi][k] == s[at + lo..at + hi][k] {}
  }

  lemma {:induction false} TakeOfUpdate<T>(s: seq<T>, i: nat, x: T, n: nat)
    requires i < n <= |s|
    ensures s[i := x][..n] == s[..n][i := x]
  {
  }

  lemma {:induction false} DropOfUpdate<T>(s: seq<T>, i: nat, x: T)
    requires 0 < i < |s|
    ensures s[i := x][1..] == s[1..][i - 1 := x]
  {
  }

  function Flatten<T>(ss: seq<seq<T>>): seq<T> {
    if ss == [] then [] else Flatten(ss[..|ss| - 1]) + ss[|ss| - 1]
  }

  lemma {:induction false} FlattenSnoc<T>(ss: seq<seq<T>>, s: seq<T>)
    ensures Flatten(ss + [s]) == Flatten(ss) + s
  {
    TakeOfAppend(ss, [s], |ss|);
  }

  lemma {:induction false} FlattenAppend<T>(a: seq<seq<T>>, b: seq<seq<T>>)
    ensures Flatten(a + b) == Flatten(a) + Flatten(b)
    decreases b
  {
    if b == [] {
      assert a + b == a;
    } else {
      var b1, s := b[..|b| - 1], b[|b| - 1];
      FlattenAppend(a, b1);
      TakeSnoc(b, |b1|);
      TakeAll(b);
      Associate(a, b1, [s]);
      FlattenSnoc(a + b1, s);
      Associate(Flatten(a), Flatten(b1), s);
    }
  }

  /** Where the i-th piece lies. */
  lemma {:induction false} FlattenPiece<T>(ss: seq<seq<T>>, i: nat)
    requires i < |ss|
    ensures |Flatten(ss[..i])| + |ss[i]| <= |Flatten(ss)|
    ensures Flatten(ss)[|Flatten(ss[..i])|..|Flatten(ss[..i])| + |ss[i]|] == ss[i]
    ensures Flatten(ss) == Flatten(ss[..i]) + ss[i] + Flatten(ss[i + 1..])
  {
    TakeSnoc(ss, i);
    SplitAt(ss, i + 1);
    FlattenAppend(ss[..i] + [ss[i]], ss[i + 1..]);
    FlattenSnoc(ss[..i], ss[i]);
  }
}
