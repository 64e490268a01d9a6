/**
  Generic sequence operations the line index is built from: counting an
  element, finding it from a position on (the model of `mmap.find` and of the
  search inside `bytes.split` / `str.split`), splitting on a delimiter and
  joining with one, and the two round trips that tie splitting and joining
  together.
 */
module Seqs {

  /** Number of occurrences of `x` in `s`. */
  function Count<T(==)>(s: seq<T>, x: T): (n: nat)
    ensures n <= |s|
    ensures n == 0 <==> x !in s
  {
    if |s| == 0 then 0
    else (if s[0] == x then 1 else 0) + Count(s[1..], x)
  }

  lemma {:induction false} CountConcat<T>(a: seq<T>, b: seq<T>, x: T)
    ensures Count(a + b, x) == Count(a, x) + Count(b, x)
  {
    if |a| == 0 {
      assert a + b == b;
    } else {
      assert (a + b)[1..] == a[1..] + b;
      CountConcat(a[1..], b, x);
    }
  }

  /**
    Index of the first `x` in `s` at or after position `from`, or -1 when
    there is none, as `find` on a byte buffer or a string reports it. A
    start position past the end finds nothing.
   */
  function IndexOf<T(==)>(s: seq<T>, x: T, from: nat): (p: int)
    ensures p == -1 <==> forall i :: from <= i < |s| ==> s[i] != x
    ensures p != -1 ==> from <= p < |s| && s[p] == x
    ensures p != -1 ==> forall i :: from <= i < p ==> s[i] != x
    decreases |s| - from
  {
    if from >= |s| then -1
    else if s[from] == x then from
    else IndexOf(s, x, from + 1)
  }

  /** The pieces of `s` between occurrences of `d`, as Python's `split(d)`. */
  function Split<T(==)>(s: seq<T>, d: T): (parts: seq<seq<T>>)
    ensures |parts| == Count(s, d) + 1
    ensures forall i :: 0 <= i < |parts| ==> d !in parts[i]
    decreases |s|
  {
    var p := IndexOf(s, d, 0);
    if p == -1 then
      [s]
    else
      CountAround(s, d, p);
      [s[..p]] + Split(s[p + 1..], d)
  }

  /** The occurrences of `x` before, at and after position `p`, which holds `x`. */
  lemma CountAround<T>(s: seq<T>, x: T, p: nat)
    requires p < |s| && s[p] == x
    ensures Count(s, x) == Count(s[..p], x) + 1 + Count(s[p + 1..], x)
  {
    Around(s, p);
    CountConcat(s[..p] + [x], s[p + 1..], x);
    CountConcat(s[..p], [x], x);
  }

  /** The pieces glued back together with one `d` between neighbours. */
  function Join<T>(parts: seq<seq<T>>, d: T): (s: seq<T>)
    requires |parts| > 0
  {
    if |parts| == 1 then parts[0]
    else parts[0] + [d] + Join(parts[1..], d)
  }

  /** When no piece holds the delimiter, the joined sequence holds exactly one per gap. */
  lemma {:induction false} JoinCount<T>(parts: seq<seq<T>>, d: T)
    requires |parts| > 0
    requires forall i :: 0 <= i < |parts| ==> d !in parts[i]
    ensures Count(Join(parts, d), d) == |parts| - 1
  {
    if |parts| > 1 {
      JoinCount(parts[1..], d);
      CountConcat(parts[0] + [d], Join(parts[1..], d), d);
      CountConcat(parts[0], [d], d);
    }
  }

  /** Splitting undoes joining, provided no piece holds the delimiter. */
  lemma {:induction false} SplitJoin<T>(parts: seq<seq<T>>, d: T)
    requires |parts| > 0
    requires forall i :: 0 <= i < |parts| ==> d !in parts[i]
    ensures Split(Join(parts, d), d) == parts
  {
    if |parts| == 1 {
      assert IndexOf(Join(parts, d), d, 0) == -1;
    } else {
      SplitJoinStep(parts, d);
      SplitJoin(parts[1..], d);
      assert parts == [parts[0]] + parts[1..];
    }
  }

  /** A sequence known to be joined pieces splits back into them. */
  lemma SplitOfJoin<T>(s: seq<T>, parts: seq<seq<T>>, d: T)
    requires |parts| > 0 && (forall i :: 0 <= i < |parts| ==> d !in parts[i])
    requires Join(parts, d) == s
    ensures Split(s, d) == parts
  {
    SplitJoin(parts, d);
  }

  /** Splitting joined pieces cuts off the first piece at the first delimiter. */
  lemma SplitJoinStep<T>(parts: seq<seq<T>>, d: T)
    requires |parts| > 1 && d !in parts[0]
    ensures Split(Join(parts, d), d) == [parts[0]] + Split(Join(parts[1..], d), d)
  {
    var s := Join(parts, d);
    var rest := Join(parts[1..], d);
    var p := |parts[0]|;
    assert s == parts[0] + [d] + rest;
    assert s[..p] == parts[0] && s[p + 1..] == rest;
    IndexOfFirst(s, d, 0, p);
  }

  /** A position holding `x` with none before it, from `from` on, is what `IndexOf` finds. */
  lemma IndexOfFirst<T>(s: seq<T>, x: T, from: nat, p: nat)
    requires from <= p < |s| && s[p] == x
    requires x !in s[from..p]
    ensures IndexOf(s, x, from) == p
  {
    assert forall i :: from <= i < p ==> s[i] == s[from..p][i - from];
  }

  /** Joining undoes splitting. */
  lemma {:induction false} JoinSplit<T>(s: seq<T>, d: T)
    ensures Join(Split(s, d), d) == s
    decreases |s|
  {
    var p := IndexOf(s, d, 0);
    if p == -1 {
      assert Split(s, d) == [s];
    } else {
      var tail := Split(s[p + 1..], d);
      SplitAt(s, d, p);
      JoinSplit(s[p + 1..], d);
      JoinCons(s[..p], tail, d);
      Around(s, p);
    }
  }

  /** Splitting at the first delimiter: the piece before it, then the split of the rest. */
  lemma SplitAt<T>(s: seq<T>, d: T, p: int)
    requires p == IndexOf(s, d, 0) && p != -1
    ensures Split(s, d) == [s[..p]] + Split(s[p + 1..], d)
  {
  }

  /** A sequence is what comes before position `p`, the element there, and what follows. */
  lemma Around<T>(s: seq<T>, p: nat)
    requires p < |s|
    ensures s == s[..p] + [s[p]] + s[p + 1..]
  {
    assert s[..p + 1] == s[..p] + [s[p]];
    assert s == s[..p + 1] + s[p + 1..];
  }

  /** Joining a first piece in front of at least one more. */
  lemma JoinCons<T>(head: seq<T>, tail: seq<seq<T>>, d: T)
    requires |tail| > 0
    ensures Join([head] + tail, d) == head + [d] + Join(tail, d)
  {
    var parts := [head] + tail;
    assert parts[0] == head && parts[1..] == tail;
  }

  /** The first `n` elements, or all of them when there are fewer: Python's `s[0:n]` for `n >= 0`. */
  function Prefix<T>(s: seq<T>, n: nat): (r: seq<T>)
    ensures |r| == if n <= |s| then n else |s|
    ensures forall i :: 0 <= i < |r| ==> r[i] == s[i]
  {
    if n <= |s| then s[..n] else s
  }
}
