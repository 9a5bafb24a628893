/**
 The slot-by-slot copy loops of src/zset/bplustree_internal.hpp, on slot buffers.
 A buffer's meaningful content is a prefix of it, passed along as a ghost sequence.
 */
module Slots {

  /** into[b + i] = from[a + i] for i = 0, 1, ..., n-1. */
  method Copy<T>(from: seq<T>, a: nat, into: seq<T>, b: nat, n: nat) returns (out: seq<T>)
    requires a + n <= |from| && b + n <= |into|
    ensures |out| == |into|
    ensures forall j :: 0 <= j < b || b + n <= j < |into| ==> out[j] == into[j]
    ensures forall j :: b <= j < b + n ==> out[j] == from[a + j - b]
  {
    out := into;
    for i := 0 to n
      invariant |out| == |into|
      invariant forall j :: 0 <= j < b || b + i <= j < |into| ==> out[j] == into[j]
      invariant forall j :: b <= j < b + i ==> out[j] == from[a + j - b]
    {
      out := out[b + i := from[a + i]];
    }
  }

  /** buf[i - d] = buf[i] for i = d, d+1, ..., n-1: ascending, because the ranges overlap. */
  method MoveDown<T>(buf: seq<T>, d: nat, n: nat, ghost X: seq<T>) returns (out: seq<T>)
    requires 1 <= d <= n == |X| && X <= buf
    ensures |out| == |buf| && X[d..] <= out
  {
    out := buf;
    for i := d to n
      invariant |out| == |buf|
      invariant forall j :: 0 <= j < i - d ==> out[j] == X[d..][j]
      invariant forall j :: i - d <= j < n ==> out[j] == X[j]
    {
      out := out[i - d := out[i]];
    }
  }

  /** MoveDown that also blanks each slot it has read. */
  method MoveDownClear<T>(buf: seq<T>, d: nat, n: nat, blank: T, ghost X: seq<T>) returns (out: seq<T>)
    requires 1 <= d <= n == |X| && X <= buf
    ensures |out| == |buf| && X[d..] <= out
  {
    out := buf;
    for i := d to n
      invariant |out| == |buf|
      invariant forall j :: 0 <= j < i - d ==> out[j] == X[d..][j]
      invariant forall j :: i <= j < n ==> out[j] == X[j]
    {
      out := out[i - d := out[i]];
      out := out[i := blank];
    }
  }

  /** buf[i + d] = buf[i] for i = n-1, ..., 1, 0: descending, because the ranges overlap. */
  method MoveUp<T>(buf: seq<T>, d: nat, n: nat, ghost X: seq<T>) returns (out: seq<T>)
    requires n == |X| && X <= buf && n + d <= |buf|
    ensures |out| == |buf| && forall j :: d <= j < n + d ==> out[j] == X[j - d]
  {
    out := buf;
    for i := n downto 0
      invariant |out| == |buf|
      invariant forall j :: 0 <= j < i ==> out[j] == X[j]
      invariant forall j :: i + d <= j < n + d ==> out[j] == X[j - d]
    {
      out := out[i + d := out[i]];
    }
  }

  /** buf[a + i] = blank for i = 0, 1, ..., n-1. */
  method Clear<T>(buf: seq<T>, a: nat, n: nat, blank: T, ghost X: seq<T>) returns (out: seq<T>)
    requires a + n == |X| && X <= buf
    ensures |out| == |buf| && X[..a] <= out
  {
    out := buf;
    for i := 0 to n
      invariant |out| == |buf|
      invariant forall j :: 0 <= j < a ==> out[j] == X[j]
    {
      out := out[a + i := blank];
    }
  }

  /** Append the first n slots of from to the contents X of into. */
  method Append<T>(into: seq<T>, items: nat, from: seq<T>, n: nat, ghost X: seq<T>,
                   ghost Y: seq<T>) returns (out: seq<T>)
    requires X <= into && items == |X| && Y <= from && n <= |Y| && items + n <= |into|
    ensures |out| == |into| && X + Y[..n] <= out
  {
    out := Copy(from, 0, into, items, n);
  }

  /** Append a separator, then the first n slots of from. */
  method AppendWith<T>(into: seq<T>, items: nat, sep: T, from: seq<T>, n: nat, ghost X: seq<T>, ghost Y: seq<T>)
    returns (out: seq<T>)
    requires X <= into && items == |X| && Y <= from && n <= |Y| && items + 1 + n <= |into|
    ensures |out| == |into| && X + [sep] + Y[..n] <= out
  {
    out := into[items := sep];
    out := Copy(from, 0, out, items + 1, n);
  }

  /** Prepend the last n of the m slots of from to the contents X of into. */
  method Prepend<T>(into: seq<T>, items: nat, from: seq<T>, m: nat, n: nat, ghost X: seq<T>, ghost Y: seq<T>)
    returns (out: seq<T>)
    requires X <= into && items == |X| && Y <= from && n <= m == |Y| && items + n <= |into|
    ensures |out| == |into| && Y[m-n..] + X <= out
  {
    out := MoveUp(into, n, items, X);
    out := Copy(from, m - n, out, 0, n);
  }

  /** Prepend the last n of the m slots of from, then a separator. */
  method PrependWith<T>(into: seq<T>, items: nat, sep: T, from: seq<T>, m: nat, n: nat, ghost X: seq<T>,
                        ghost Y: seq<T>)
    returns (out: seq<T>)
    requires X <= into && items == |X| && Y <= from && n <= m == |Y| && items + n + 1 <= |into|
    ensures |out| == |into| && Y[m-n..] + ([sep] + X) <= out
  {
    out := MoveUp(into, n + 1, items, X);
    out := Copy(from, m - n, out, 0, n);
    out := out[n := sep];
  }

  /** Copy the slots from a on to the front of another buffer. */
  method Extract<T>(from: seq<T>, a: nat, into: seq<T>, n: nat, ghost X: seq<T>) returns (out: seq<T>)
    requires X <= from && a + n == |X| && n <= |into|
    ensures |out| == |into| && X[a..] <= out
  {
    out := Copy(from, a, into, 0, n);
  }

  /** memmove of n slots within a buffer. */
  function Memmove<T>(buf: seq<T>, dst: nat, src: nat, n: nat): seq<T>
    requires dst + n <= |buf| && src + n <= |buf|
  {
    buf[..dst] + buf[src..src+n] + buf[dst+n..]
  }

  /** Moving the rest down by one takes element i out. */
  lemma {:induction false} Closes<T>(buf: seq<T>, xs: seq<T>, i: nat)
    requires xs <= buf && i < |xs|
    ensures var b := Memmove(buf, i, i + 1, |xs| - i - 1); |b| == |buf| && xs[..i] + xs[i+1..] <= b
  {
  }
}
