/**
 The loops that shift the entries of fixed-size arrays about.

 A page is a value; each loop of the source runs in place on an array, and the methods around
 the loops load the array from a page and hand it back.
 */
module Loops {
  import opened Seqs

  method Load<T>(s: seq<T>) returns (a: array<T>)
    ensures fresh(a) && a[..] == s
  {
    a := new T[|s|](i requires 0 <= i < |s| => s[i]);
  }

  /** for (i = lo; i < hi; i++) dst[i] = src[i + delta]; */
  method Copy<T>(dst: array<T>, src: array<T>, lo: nat, hi: nat, delta: int)
    requires lo <= hi <= dst.Length && 0 <= lo + delta && hi + delta <= src.Length
    requires dst == src ==> delta >= 0
    modifies dst
    ensures dst[..] == old(dst[..lo] + src[lo + delta..hi + delta] + dst[hi..])
  {
    var i := lo;
    while i < hi
      invariant lo <= i <= hi
      invariant forall x :: 0 <= x < dst.Length && !(lo <= x < i) ==> dst[x] == old(dst[x])
      invariant forall x :: lo <= x < i ==> dst[x] == old(src[x + delta])
    {
      assert src[i + delta] == old(src[i + delta]);
      dst[i] := src[i + delta];
      i := i + 1;
    }
  }

  /** for (i = hi - 1; i >= lo; i--) a[i + 1] = a[i]; */
  method ShiftUp<T>(a: array<T>, lo: nat, hi: nat)
    requires lo <= hi < a.Length
    modifies a
    ensures a[..] == old(a[..lo + 1] + a[lo..hi] + a[hi + 1..])
  {
    var i := hi - 1;
    while i >= lo
      invariant lo - 1 <= i < hi
      invariant forall x :: 0 <= x < a.Length && !(i + 1 < x <= hi) ==> a[x] == old(a[x])
      invariant forall x :: i + 1 < x <= hi ==> a[x] == old(a[x - 1])
    {
      a[i + 1] := a[i];
      i := i - 1;
    }
  }

  /** for (i = lo; i < hi; i++) a[i] = x; */
  method Fill<T>(a: array<T>, lo: nat, hi: nat, x: T)
    requires lo <= hi <= a.Length
    modifies a
    ensures a[..] == old(a[..lo]) + seq(hi - lo, _ => x) + old(a[hi..])
  {
    for i := lo to hi
      invariant forall y :: 0 <= y < a.Length && !(lo <= y < i) ==> a[y] == old(a[y])
      invariant forall y :: lo <= y < i ==> a[y] == x
    {
      a[i] := x;
    }
  }

  /** Entries lo to hi of one array are overwritten from another one. */
  method Copied<T>(dst: seq<T>, src: seq<T>, lo: nat, hi: nat, delta: int) returns (r: seq<T>)
    requires lo <= hi <= |dst| && 0 <= lo + delta && hi + delta <= |src|
    ensures r == dst[..lo] + src[lo + delta..hi + delta] + dst[hi..]
  {
    var a := Load(dst);
    var b := Load(src);
    Copy(a, b, lo, hi, delta);
    r := a[..];
  }

  /** Of the first n entries, the one at index is overwritten by its successors; nil fills the gap. */
  method ShiftedOut<T>(s: seq<T>, n: nat, index: nat, nil: T) returns (r: seq<T>)
    requires index < n <= |s|
    ensures |r| == |s| && r[..n - 1] == RemoveAt(s[..n], index)
    ensures r[n - 1] == nil && r[n..] == s[n..]
  {
    var a := Load(s);
    Copy(a, a, index, n - 1, 1);
    a[n - 1] := nil;
    r := a[..];
  }

  /** The first n entries make room for x at index. */
  method ShiftedIn<T>(s: seq<T>, n: nat, index: nat, x: T) returns (r: seq<T>)
    requires index <= n < |s|
    ensures |r| == |s| && r[..n + 1] == InsertAt(s[..n], index, x)
    ensures r[n + 1..] == s[n + 1..]
  {
    var a := Load(s);
    ShiftUp(a, index, n);
    a[index] := x;
    r := a[..];
  }

  /** The entries of src from position from on are copied with x inserted among them, as entry at of the copy. */
  method CopiedAround<T>(dst: seq<T>, src: seq<T>, from: nat, at: nat, x: T) returns (r: seq<T>)
    requires from + at <= |src| && |src| - from < |dst|
    ensures |r| == |dst| && r[..|src| - from + 1] == InsertAt(src[from..], at, x)
  {
    var a := Load(dst);
    var b := Load(src);
    Copy(a, b, 0, at, from);
    a[at] := x;
    Copy(a, b, at + 1, |src| - from + 1, from - 1);
    r := a[..];
    AroundIs(dst, src, from, at, x, r);
  }

  lemma {:induction false} AroundIs<T>(dst: seq<T>, src: seq<T>, from: nat, at: nat, x: T, r: seq<T>)
    requires from + at <= |src| && |src| - from < |dst| == |r|
    requires r[..at] == src[from..from + at] && r[at] == x && r[at + 1..|src| - from + 1] == src[from + at..]
    ensures r[..|src| - from + 1] == InsertAt(src[from..], at, x)
  {
    var n := |src| - from;
    var there, here := r[..n + 1], InsertAt(src[from..], at, x);
    forall y | 0 <= y <= n
      ensures there[y] == here[y]
    {
      if y < at {
        assert there[y] == r[..at][y];
      } else if y > at {
        assert there[y] == r[at + 1..n + 1][y - at - 1];
      }
    }
  }

  method Filled<T>(s: seq<T>, lo: nat, hi: nat, x: T) returns (r: seq<T>)
    requires lo <= hi <= |s|
    ensures r == s[..lo] + seq(hi - lo, _ => x) + s[hi..]
  {
    var a := Load(s);
    Fill(a, lo, hi, x);
    r := a[..];
  }
}
