/** Insertion into and removal from a sequence. */
module Seqs {

  function InsertAt<T>(s: seq<T>, i: nat, x: T): seq<T>
    requires i <= |s|
  {
    s[..i] + [x] + s[i..]
  }

  function RemoveAt<T>(s: seq<T>, i: nat): seq<T>
    requires i < |s|
  {
    s[..i] + s[i + 1..]
  }

  lemma {:induction false} InsertedAt<T>(s: seq<T>, i: nat, x: T, y: nat)
    requires i <= |s| && y <= |s|
    ensures |InsertAt(s, i, x)| == |s| + 1
    ensures InsertAt(s, i, x)[y] == if y < i then s[y] else if y == i then x else s[y - 1]
  {
  }

  lemma {:induction false} RemovedAt<T>(s: seq<T>, i: nat, y: nat)
    requires i < |s| && y < |s| - 1
    ensures |RemoveAt(s, i)| == |s| - 1
    ensures RemoveAt(s, i)[y] == if y < i then s[y] else s[y + 1]
  {
  }

  lemma {:induction false} InsertedBag<T>(s: seq<T>, i: nat, x: T)
    requires i <= |s|
    ensures multiset(InsertAt(s, i, x)) == multiset(s) + multiset{x}
  {
    assert s == s[..i] + s[i..];
  }

  lemma {:induction false} RemovedBag<T>(s: seq<T>, i: nat)
    requires i < |s|
    ensures multiset(RemoveAt(s, i)) + multiset{s[i]} == multiset(s)
  {
    assert s == s[..i] + [s[i]] + s[i + 1..];
  }
}
