/**
 B+ trees as values: what a well-formed tree is and what the steps of insertion and deletion
 (splitting, borrowing, merging) keep. The imperative code works on pages; its contracts say
 which of these trees the pages represent.

 An entry couples a record identifier with the key behind it, in a leaf as well as for a
 separator, whose key is a string of its own.
 */
module Trees {
  import opened Texts
  import opened Rids
  import opened Seqs

  datatype Entry = Entry(rid: Rid, key: Text)

  datatype Tree =
    | Leaf(addr: int, next: int, rows: seq<Entry>)
    | Node(addr: int, seps: seq<Entry>, kids: seq<Tree>)

  // ----- Order and occupancy -----

  ghost predicate Increasing(s: seq<Entry>) {
    forall i, j :: 0 <= i < j < |s| ==> Less(s[i].key, s[j].key)
  }

  /** Rows of a leaf that covers the keys in [lo, hi). */
  ghost predicate Sorted(rows: seq<Entry>, lo: Bound, hi: Bound) {
    && Increasing(rows)
    && (forall i :: 0 <= i < |rows| ==> AtLeast(lo, rows[i].key) && Below(rows[i].key, hi))
  }

  /** Separators of a node that covers the keys in [lo, hi): they split it into non-empty parts. */
  ghost predicate Separating(seps: seq<Entry>, lo: Bound, hi: Bound) {
    && Increasing(seps)
    && (forall i :: 0 <= i < |seps| ==> Above(lo, seps[i].key) && Below(seps[i].key, hi))
  }

  ghost function From(seps: seq<Entry>, i: nat, lo: Bound): Bound
    requires i <= |seps|
  {
    if i == 0 then lo else At(seps[i - 1].key)
  }

  ghost function To(seps: seq<Entry>, i: nat, hi: Bound): Bound
    requires i <= |seps|
  {
    if i == |seps| then hi else At(seps[i].key)
  }

  /** A tree of height h over [lo, hi) whose top node holds at least m entries. */
  ghost predicate Wf(t: Tree, d: nat, h: nat, lo: Bound, hi: Bound, m: nat)
    decreases t
  {
    match t
    case Leaf(_, _, rows) => h == 1 && m <= |rows| <= 2 * d && Sorted(rows, lo, hi)
    case Node(_, seps, kids) => h > 1 && m <= |seps| <= 2 * d && Ranged(seps, kids, d, h - 1, lo, hi, d)
  }

  /** Kid i covers the keys from separator i - 1 on and below separator i. */
  ghost predicate Ranged(seps: seq<Entry>, kids: seq<Tree>, d: nat, h: nat, lo: Bound, hi: Bound, m: nat)
    decreases kids
  {
    && |kids| == |seps| + 1
    && Separating(seps, lo, hi)
    && (forall i :: 0 <= i < |kids| ==> Wf(kids[i], d, h, From(seps, i, lo), To(seps, i, hi), m))
  }

  // ----- The three moves on which all cases of insertion and deletion rest -----

  /** Kids i to j, with the separators between them, give way to others over the same interval. */
  lemma {:induction false} Splice(seps: seq<Entry>, kids: seq<Tree>, i: nat, j: nat, mid: seq<Entry>, out: seq<Tree>,
               d: nat, h: nat, lo: Bound, hi: Bound, m: nat)
    requires Ranged(seps, kids, d, h, lo, hi, m)
    requires i <= j < |kids|
    requires Ranged(mid, out, d, h, From(seps, i, lo), To(seps, j, hi), m)
    ensures Ranged(seps[..i] + mid + seps[j..], kids[..i] + out + kids[j + 1..], d, h, lo, hi, m)
  {
    hide Less, Wf;
    TotalOrder();
    var seps', kids' := seps[..i] + mid + seps[j..], kids[..i] + out + kids[j + 1..];
    SpliceSeparators(seps, i, j, mid, lo, hi);
    forall x | 0 <= x < |kids'|
      ensures Wf(kids'[x], d, h, From(seps', x, lo), To(seps', x, hi), m)
    {
      if x < i {
        assert kids'[x] == kids[x];
      } else if x < i + |out| {
        assert kids'[x] == out[x - i];
      } else {
        assert kids'[x] == kids[x - i - |out| + j + 1];
      }
    }
  }

  lemma {:induction false} SpliceSeparators(seps: seq<Entry>, i: nat, j: nat, mid: seq<Entry>, lo: Bound, hi: Bound)
    requires i <= j <= |seps| && Separating(seps, lo, hi)
    requires Separating(mid, From(seps, i, lo), To(seps, j, hi))
    ensures Separating(seps[..i] + mid + seps[j..], lo, hi)
  {
    hide Less;
    TotalOrder();
    var s := seps[..i] + mid + seps[j..];
    if i > 0 {
      assert forall x :: 0 <= x < |mid| ==> Less(seps[i - 1].key, mid[x].key);
    }
    if j < |seps| {
      assert forall x :: 0 <= x < |mid| ==> Less(mid[x].key, seps[j].key);
    }
  }

  /** Two neighbours and the separator between them, written as one node. */
  lemma {:induction false} Join(sl: seq<Entry>, kl: seq<Tree>, s: Entry, sr: seq<Entry>, kr: seq<Tree>,
             d: nat, h: nat, lo: Bound, hi: Bound, m: nat)
    requires Above(lo, s.key) && Below(s.key, hi)
    requires Ranged(sl, kl, d, h, lo, At(s.key), m)
    requires Ranged(sr, kr, d, h, At(s.key), hi, m)
    ensures Ranged(sl + [s] + sr, kl + kr, d, h, lo, hi, m)
  {
    hide Less, Wf;
    TotalOrder();
    var seps, kids := sl + [s] + sr, kl + kr;
    forall x | 0 <= x < |kids|
      ensures Wf(kids[x], d, h, From(seps, x, lo), To(seps, x, hi), m)
    {
      if x < |kl| {
        assert kids[x] == kl[x];
      } else {
        assert kids[x] == kr[x - |kl|];
      }
    }
  }

  /** One node cut in two at separator p. */
  lemma {:induction false} Cut(seps: seq<Entry>, kids: seq<Tree>, p: nat, d: nat, h: nat, lo: Bound, hi: Bound, m: nat)
    requires Ranged(seps, kids, d, h, lo, hi, m)
    requires p < |seps|
    ensures Ranged(seps[..p], kids[..p + 1], d, h, lo, At(seps[p].key), m)
    ensures Ranged(seps[p + 1..], kids[p + 1..], d, h, At(seps[p].key), hi, m)
    ensures Above(lo, seps[p].key) && Below(seps[p].key, hi)
  {
    hide Less, Wf;
    TotalOrder();
  }

  // ----- What a tree holds -----

  /** The rows of the leaves, from left to right. */
  ghost function Rows(t: Tree): seq<Entry>
    decreases t
  {
    if t.Leaf? then t.rows else ForestRows(t.kids)
  }

  ghost function ForestRows(ks: seq<Tree>): seq<Entry>
    decreases ks
  {
    if ks == [] then [] else Rows(ks[0]) + ForestRows(ks[1..])
  }

  /** The leaves, from left to right. */
  ghost function Leaves(t: Tree): seq<Tree>
    decreases t
  {
    if t.Leaf? then [t] else ForestLeaves(t.kids)
  }

  ghost function ForestLeaves(ks: seq<Tree>): seq<Tree>
    decreases ks
  {
    if ks == [] then [] else Leaves(ks[0]) + ForestLeaves(ks[1..])
  }

  /** The separators of all inner nodes. */
  ghost function Seps(t: Tree): seq<Entry>
    decreases t
  {
    if t.Leaf? then [] else t.seps + ForestSeps(t.kids)
  }

  ghost function ForestSeps(ks: seq<Tree>): seq<Entry>
    decreases ks
  {
    if ks == [] then [] else Seps(ks[0]) + ForestSeps(ks[1..])
  }

  /** The pages that the nodes occupy. */
  ghost function Pages(t: Tree): seq<int>
    decreases t
  {
    if t.Leaf? then [t.addr] else [t.addr] + ForestPages(t.kids)
  }

  ghost function ForestPages(ks: seq<Tree>): seq<int>
    decreases ks
  {
    if ks == [] then [] else Pages(ks[0]) + ForestPages(ks[1..])
  }

  lemma {:induction false} Associates<T>(x: seq<T>, y: seq<T>, z: seq<T>)
    ensures (x + y) + z == x + (y + z)
  {
  }

  lemma {:induction false} RowsAppend(a: seq<Tree>, b: seq<Tree>)
    ensures ForestRows(a + b) == ForestRows(a) + ForestRows(b)
  {
    if a == [] {
      assert a + b == b;
    } else {
      RowsAppend(a[1..], b);
      assert (a + b)[1..] == a[1..] + b && (a + b)[0] == a[0];
      Associates(Rows(a[0]), ForestRows(a[1..]), ForestRows(b));
    }
  }

  lemma {:induction false} LeavesAppend(a: seq<Tree>, b: seq<Tree>)
    ensures ForestLeaves(a + b) == ForestLeaves(a) + ForestLeaves(b)
  {
    if a == [] {
      assert a + b == b;
    } else {
      LeavesAppend(a[1..], b);
      assert (a + b)[1..] == a[1..] + b && (a + b)[0] == a[0];
      Associates(Leaves(a[0]), ForestLeaves(a[1..]), ForestLeaves(b));
    }
  }

  lemma {:induction false} SepsAppend(a: seq<Tree>, b: seq<Tree>)
    ensures ForestSeps(a + b) == ForestSeps(a) + ForestSeps(b)
  {
    if a == [] {
      assert a + b == b;
    } else {
      SepsAppend(a[1..], b);
      assert (a + b)[1..] == a[1..] + b && (a + b)[0] == a[0];
      Associates(Seps(a[0]), ForestSeps(a[1..]), ForestSeps(b));
    }
  }

  lemma {:induction false} PagesAppend(a: seq<Tree>, b: seq<Tree>)
    ensures ForestPages(a + b) == ForestPages(a) + ForestPages(b)
  {
    if a == [] {
      assert a + b == b;
    } else {
      PagesAppend(a[1..], b);
      assert (a + b)[1..] == a[1..] + b && (a + b)[0] == a[0];
      Associates(Pages(a[0]), ForestPages(a[1..]), ForestPages(b));
    }
  }

  lemma {:induction false} ForestAppend(a: seq<Tree>, b: seq<Tree>)
    ensures ForestRows(a + b) == ForestRows(a) + ForestRows(b)
    ensures ForestLeaves(a + b) == ForestLeaves(a) + ForestLeaves(b)
    ensures ForestSeps(a + b) == ForestSeps(a) + ForestSeps(b)
    ensures ForestPages(a + b) == ForestPages(a) + ForestPages(b)
  {
    hide *;
    RowsAppend(a, b);
    LeavesAppend(a, b);
    SepsAppend(a, b);
    PagesAppend(a, b);
  }

  lemma {:induction false} ForestOne(t: Tree)
    ensures ForestRows([t]) == Rows(t) && ForestLeaves([t]) == Leaves(t)
    ensures ForestSeps([t]) == Seps(t) && ForestPages([t]) == Pages(t)
  {
    assert [t][1..] == [];
  }

  /** Kids i up to j seen between those before and those after them. */
  lemma {:induction false} ForestSplit(ks: seq<Tree>, i: nat, j: nat)
    requires i <= j <= |ks|
    ensures ForestRows(ks) == ForestRows(ks[..i]) + ForestRows(ks[i..j]) + ForestRows(ks[j..])
    ensures ForestLeaves(ks) == ForestLeaves(ks[..i]) + ForestLeaves(ks[i..j]) + ForestLeaves(ks[j..])
    ensures ForestSeps(ks) == ForestSeps(ks[..i]) + ForestSeps(ks[i..j]) + ForestSeps(ks[j..])
    ensures ForestPages(ks) == ForestPages(ks[..i]) + ForestPages(ks[i..j]) + ForestPages(ks[j..])
  {
    hide *;
    assert ks == ks[..i] + ks[i..j] + ks[j..];
    ForestAppend(ks[..i] + ks[i..j], ks[j..]);
    ForestAppend(ks[..i], ks[i..j]);
  }

  lemma {:induction false} ForestOfThree(a: seq<Tree>, b: seq<Tree>, c: seq<Tree>)
    ensures ForestRows(a + b + c) == ForestRows(a) + ForestRows(b) + ForestRows(c)
    ensures ForestLeaves(a + b + c) == ForestLeaves(a) + ForestLeaves(b) + ForestLeaves(c)
    ensures ForestSeps(a + b + c) == ForestSeps(a) + ForestSeps(b) + ForestSeps(c)
    ensures ForestPages(a + b + c) == ForestPages(a) + ForestPages(b) + ForestPages(c)
  {
    hide *;
    ForestAppend(a + b, c);
    ForestAppend(a, b);
  }

  /** What a kid holds is part of what the node holds. */
  lemma {:induction false} KidPart(kids: seq<Tree>, i: nat)
    requires i < |kids|
    ensures multiset(Rows(kids[i])) <= multiset(ForestRows(kids))
    ensures multiset(Seps(kids[i])) <= multiset(ForestSeps(kids))
    ensures multiset(Pages(kids[i])) <= multiset(ForestPages(kids))
  {
    hide *;
    ForestSplit(kids, i, i + 1);
    assert kids[i..i + 1] == [kids[i]];
    ForestOne(kids[i]);
  }

  // ----- The chain of leaves -----

  ghost function First(leaves: seq<Tree>, end: int): int {
    if leaves == [] then end else leaves[0].addr
  }

  /** Every leaf points to the one after it, the last one to end. */
  ghost predicate Linked(leaves: seq<Tree>, end: int) {
    && (forall i :: 0 <= i < |leaves| ==> leaves[i].Leaf?)
    && (forall i :: 0 <= i < |leaves| ==> leaves[i].next == First(leaves[i + 1..], end))
  }

  lemma {:induction false} LinkedAppend(a: seq<Tree>, b: seq<Tree>, end: int)
    ensures Linked(a + b, end) <==> Linked(a, First(b, end)) && Linked(b, end)
    ensures First(a + b, end) == First(a, First(b, end))
  {
    var ab := a + b;
    forall i | 0 <= i < |a|
      ensures ab[i] == a[i] && First(ab[i + 1..], end) == First(a[i + 1..], First(b, end))
    {
      assert ab[i + 1..] == a[i + 1..] + b;
    }
    forall i | 0 <= i < |b|
      ensures ab[|a| + i] == b[i] && First(ab[|a| + i + 1..], end) == First(b[i + 1..], end)
    {
      assert ab[|a| + i + 1..] == b[i + 1..];
    }
    if Linked(ab, end) {
      forall i | 0 <= i < |b|
        ensures b[i].Leaf? && b[i].next == First(b[i + 1..], end)
      {
        assert ab[|a| + i].Leaf?;
      }
      forall i | 0 <= i < |a|
        ensures a[i].Leaf? && a[i].next == First(a[i + 1..], First(b, end))
      {
        assert ab[i].Leaf?;
      }
    }
    if Linked(a, First(b, end)) && Linked(b, end) {
      forall i | 0 <= i < |ab|
        ensures ab[i].Leaf? && ab[i].next == First(ab[i + 1..], end)
      {
        if i >= |a| {
          assert ab[i] == b[i - |a|];
        }
      }
    }
  }

  // ----- Keeping the books -----

  /** Rows, separators and pages that are accounted for outside of a tree. */
  datatype Ledger = Ledger(rows: multiset<Entry>, seps: multiset<Entry>, pages: multiset<int>)

  /**
   Separators s0 and kids k0 have turned into s1 and k1 while the books went from l0 to l1:
   what the forest gained is what the books gained, and the leaf chain is intact.
   */
  ghost predicate Turns(s0: seq<Entry>, k0: seq<Tree>, l0: Ledger,
                        s1: seq<Entry>, k1: seq<Tree>, l1: Ledger, end: int)
  {
    && multiset(ForestRows(k1)) + l0.rows == multiset(ForestRows(k0)) + l1.rows
    && multiset(s1) + multiset(ForestSeps(k1)) + l0.seps == multiset(s0) + multiset(ForestSeps(k0)) + l1.seps
    && multiset(ForestPages(k1)) + l0.pages == multiset(ForestPages(k0)) + l1.pages
    && (Linked(ForestLeaves(k0), end) ==> Linked(ForestLeaves(k1), end))
    && First(ForestLeaves(k1), end) == First(ForestLeaves(k0), end)
  }

  lemma {:induction false} Chained<T>(x0: multiset<T>, l0: multiset<T>, x1: multiset<T>, l1: multiset<T>,
                                      x2: multiset<T>, l2: multiset<T>)
    requires x1 + l0 == x0 + l1 && x2 + l1 == x1 + l2
    ensures x2 + l0 == x0 + l2
  {
    forall e
      ensures (x2 + l0)[e] == (x0 + l2)[e]
    {
      assert (x1 + l0)[e] == (x0 + l1)[e] && (x2 + l1)[e] == (x1 + l2)[e];
    }
  }

  lemma {:induction false} TurnsThenTurns(s0: seq<Entry>, k0: seq<Tree>, l0: Ledger, s1: seq<Entry>, k1: seq<Tree>,
                                          l1: Ledger, s2: seq<Entry>, k2: seq<Tree>, l2: Ledger, end: int)
    requires Turns(s0, k0, l0, s1, k1, l1, end) && Turns(s1, k1, l1, s2, k2, l2, end)
    ensures Turns(s0, k0, l0, s2, k2, l2, end)
  {
    hide Linked, ForestRows, ForestSeps, ForestPages, ForestLeaves;
    Chained(multiset(ForestRows(k0)), l0.rows, multiset(ForestRows(k1)), l1.rows, multiset(ForestRows(k2)), l2.rows);
    Chained(multiset(ForestPages(k0)), l0.pages, multiset(ForestPages(k1)), l1.pages,
            multiset(ForestPages(k2)), l2.pages);
    Chained(multiset(s0) + multiset(ForestSeps(k0)), l0.seps, multiset(s1) + multiset(ForestSeps(k1)), l1.seps,
            multiset(s2) + multiset(ForestSeps(k2)), l2.seps);
  }

  lemma {:induction false} Framed<T>(a: seq<T>, x0: seq<T>, x1: seq<T>, c: seq<T>, l0: multiset<T>, l1: multiset<T>)
    requires multiset(x1) + l0 == multiset(x0) + l1
    ensures multiset(a + x1 + c) + l0 == multiset(a + x0 + c) + l1
  {
    assert multiset(a + x1 + c) + l0 == multiset(a) + multiset(c) + (multiset(x1) + l0);
    assert multiset(a + x0 + c) + l1 == multiset(a) + multiset(c) + (multiset(x0) + l1);
  }

  /** A change of kids i to j is a change of the whole forest. */
  lemma {:induction false} TurnsInside(seps: seq<Entry>, kids: seq<Tree>, i: nat, j: nat, l0: Ledger,
                    mid: seq<Entry>, out: seq<Tree>, l1: Ledger, end: int)
    requires i <= j < |kids| == |seps| + 1
    requires Turns(seps[i..j], kids[i..j + 1], l0, mid, out, l1, First(ForestLeaves(kids[j + 1..]), end))
    ensures Turns(seps, kids, l0, seps[..i] + mid + seps[j..], kids[..i] + out + kids[j + 1..], l1, end)
  {
    hide ForestRows, ForestSeps, ForestPages, ForestLeaves, Linked;
    ForestSplit(kids, i, j + 1);
    ForestOfThree(kids[..i], out, kids[j + 1..]);
    Framed(ForestRows(kids[..i]), ForestRows(kids[i..j + 1]), ForestRows(out), ForestRows(kids[j + 1..]),
           l0.rows, l1.rows);
    Framed(ForestPages(kids[..i]), ForestPages(kids[i..j + 1]), ForestPages(out), ForestPages(kids[j + 1..]),
           l0.pages, l1.pages);
    FramedSeps(seps, kids, i, j, mid, out, l0.seps, l1.seps);
    RelinkInside(ForestLeaves(kids[..i]), ForestLeaves(kids[i..j + 1]), ForestLeaves(out),
                 ForestLeaves(kids[j + 1..]), end);
  }

  lemma {:induction false} FramedSeps(seps: seq<Entry>, kids: seq<Tree>, i: nat, j: nat, mid: seq<Entry>,
                                      out: seq<Tree>, l0: multiset<Entry>, l1: multiset<Entry>)
    requires i <= j < |kids| == |seps| + 1
    requires multiset(mid) + multiset(ForestSeps(out)) + l0
          == multiset(seps[i..j]) + multiset(ForestSeps(kids[i..j + 1])) + l1
    ensures multiset(seps[..i] + mid + seps[j..]) + multiset(ForestSeps(kids[..i] + out + kids[j + 1..])) + l0
         == multiset(seps) + multiset(ForestSeps(kids)) + l1
  {
    hide *;
    var a, x, c := seps[..i], seps[i..j], seps[j..];
    var b, y, d := ForestSeps(kids[..i]), ForestSeps(kids[i..j + 1]), ForestSeps(kids[j + 1..]);
    assert ForestSeps(kids) == b + y + d by {
      ForestSplit(kids, i, j + 1);
    }
    assert ForestSeps(kids[..i] + out + kids[j + 1..]) == b + ForestSeps(out) + d by {
      ForestOfThree(kids[..i], out, kids[j + 1..]);
    }
    assert seps == a + x + c;
    FramedPair(a, x, mid, c, b, y, ForestSeps(out), d, l0, l1);
  }

  lemma {:induction false} FramedPair<T>(a: seq<T>, x0: seq<T>, x1: seq<T>, c: seq<T>, b: seq<T>, y0: seq<T>,
                                         y1: seq<T>, d: seq<T>, l0: multiset<T>, l1: multiset<T>)
    requires multiset(x1) + multiset(y1) + l0 == multiset(x0) + multiset(y0) + l1
    ensures multiset(a + x1 + c) + multiset(b + y1 + d) + l0 == multiset(a + x0 + c) + multiset(b + y0 + d) + l1
  {
    OfThree(a, x0, c);
    OfThree(a, x1, c);
    OfThree(b, y0, d);
    OfThree(b, y1, d);
    Regrouped(multiset(x1), multiset(y1), multiset(x0), multiset(y0), l0, l1,
              multiset(a), multiset(c), multiset(b), multiset(d));
  }

  lemma {:induction false} OfThree<T>(a: seq<T>, b: seq<T>, c: seq<T>)
    ensures multiset(a + b + c) == multiset(a) + multiset(b) + multiset(c)
  {
  }

  lemma {:induction false} Regrouped<T>(m1: multiset<T>, f1: multiset<T>, m0: multiset<T>, f0: multiset<T>,
                                        l0: multiset<T>, l1: multiset<T>, a: multiset<T>, b: multiset<T>,
                                        c: multiset<T>, d: multiset<T>)
    requires m1 + f1 + l0 == m0 + f0 + l1
    ensures (a + m1 + b) + (c + f1 + d) + l0 == (a + m0 + b) + (c + f0 + d) + l1
  {
    forall e
      ensures ((a + m1 + b) + (c + f1 + d) + l0)[e] == ((a + m0 + b) + (c + f0 + d) + l1)[e]
    {
      assert (m1 + f1 + l0)[e] == (m0 + f0 + l1)[e];
    }
  }

  lemma {:induction false} RelinkInside(a: seq<Tree>, x0: seq<Tree>, x1: seq<Tree>, c: seq<Tree>, end: int)
    requires Linked(x0, First(c, end)) ==> Linked(x1, First(c, end))
    requires First(x1, First(c, end)) == First(x0, First(c, end))
    ensures Linked(a + x0 + c, end) ==> Linked(a + x1 + c, end)
    ensures First(a + x1 + c, end) == First(a + x0 + c, end)
  {
    hide Linked;
    LinkedAppend(a + x0, c, end);
    LinkedAppend(a, x0, First(c, end));
    LinkedAppend(a + x1, c, end);
    LinkedAppend(a, x1, First(c, end));
  }

  /** A change below a node is a change of the node. */
  lemma {:induction false} TurnsBelow(a: int, s0: seq<Entry>, k0: seq<Tree>, l0: Ledger, s1: seq<Entry>,
                                      k1: seq<Tree>, l1: Ledger, end: int)
    requires Turns(s0, k0, l0, s1, k1, l1, end)
    ensures Turns([], [Node(a, s0, k0)], l0, [], [Node(a, s1, k1)], l1, end)
  {
    hide ForestRows, ForestSeps, ForestPages, ForestLeaves, Linked;
    ForestNode(a, s0, k0);
    ForestNode(a, s1, k1);
    Framed([a], ForestPages(k0), ForestPages(k1), [], l0.pages, l1.pages);
    assert [a] + ForestPages(k0) + [] == [a] + ForestPages(k0);
    assert [a] + ForestPages(k1) + [] == [a] + ForestPages(k1);
    assert multiset(s0 + ForestSeps(k0)) == multiset(s0) + multiset(ForestSeps(k0));
    assert multiset(s1 + ForestSeps(k1)) == multiset(s1) + multiset(ForestSeps(k1));
    var none: seq<Entry> := [];
    assert multiset(none) + multiset(ForestSeps([Node(a, s1, k1)])) == multiset(s1) + multiset(ForestSeps(k1));
    assert multiset(none) + multiset(ForestSeps([Node(a, s0, k0)])) == multiset(s0) + multiset(ForestSeps(k0));
  }

  lemma {:induction false} ForestNode(a: int, s: seq<Entry>, k: seq<Tree>)
    ensures ForestRows([Node(a, s, k)]) == ForestRows(k) && ForestLeaves([Node(a, s, k)]) == ForestLeaves(k)
    ensures ForestSeps([Node(a, s, k)]) == s + ForestSeps(k) && ForestPages([Node(a, s, k)]) == [a] + ForestPages(k)
  {
    ForestOne(Node(a, s, k));
  }

  // ----- The local changes -----

  lemma {:induction false} ForestLeaf(a: int, n: int, r: seq<Entry>)
    ensures ForestRows([Leaf(a, n, r)]) == r && ForestLeaves([Leaf(a, n, r)]) == [Leaf(a, n, r)]
    ensures ForestSeps([Leaf(a, n, r)]) == [] && ForestPages([Leaf(a, n, r)]) == [a]
  {
    ForestOne(Leaf(a, n, r));
  }

  lemma {:induction false} LinkedOne(t: Tree, end: int)
    requires t.Leaf?
    ensures Linked([t], end) <==> t.next == end
    ensures First([t], end) == t.addr
  {
    assert [t][1..] == [];
    assert Linked([t], end) ==> [t][0].next == First([t][1..], end);
  }

  lemma {:induction false} LinkedTwo(a: Tree, b: Tree, end: int)
    requires a.Leaf? && b.Leaf?
    ensures Linked([a, b], end) <==> a.next == b.addr && b.next == end
    ensures First([a, b], end) == a.addr
  {
    LinkedOne(a, b.addr);
    LinkedOne(b, end);
    LinkedAppend([a], [b], end);
    assert [a] + [b] == [a, b];
  }

  /** The rows of one leaf change. */
  lemma {:induction false} LeafTurns(a: int, n: int, r0: seq<Entry>, r1: seq<Entry>, l0: Ledger, l1: Ledger, end: int)
    requires multiset(r1) + l0.rows == multiset(r0) + l1.rows
    requires l0.seps == l1.seps && l0.pages == l1.pages
    ensures Turns([], [Leaf(a, n, r0)], l0, [], [Leaf(a, n, r1)], l1, end)
  {
    ForestLeaf(a, n, r0);
    ForestLeaf(a, n, r1);
    LinkedOne(Leaf(a, n, r0), end);
    LinkedOne(Leaf(a, n, r1), end);
  }

  /** Two neighbouring leaves redistribute their rows; the separator between them may be exchanged. */
  lemma {:induction false} LeavesTurn(a: int, b: int, n: int, s0: Entry, r0: seq<Entry>, q0: seq<Entry>,
                   s1: Entry, r1: seq<Entry>, q1: seq<Entry>, l0: Ledger, l1: Ledger, end: int)
    requires multiset(r1 + q1) == multiset(r0 + q0)
    requires l1.rows == l0.rows && l1.pages == l0.pages
    requires multiset{s1} + l0.seps == multiset{s0} + l1.seps
    ensures Turns([s0], [Leaf(a, b, r0), Leaf(b, n, q0)], l0, [s1], [Leaf(a, b, r1), Leaf(b, n, q1)], l1, end)
  {
    ForestLeaves2(a, b, b, n, r0, q0);
    ForestLeaves2(a, b, b, n, r1, q1);
    LinkedTwo(Leaf(a, b, r0), Leaf(b, n, q0), end);
    LinkedTwo(Leaf(a, b, r1), Leaf(b, n, q1), end);
    var none: seq<Entry> := [];
    assert multiset([s0]) + multiset(none) + l1.seps == multiset{s0} + l1.seps;
    assert multiset([s1]) + multiset(none) + l0.seps == multiset{s1} + l0.seps;
  }

  lemma {:induction false} ForestLeaves2(a: int, m: int, b: int, n: int, r: seq<Entry>, q: seq<Entry>)
    ensures var k := [Leaf(a, m, r), Leaf(b, n, q)];
            ForestRows(k) == r + q && ForestLeaves(k) == k && ForestSeps(k) == [] && ForestPages(k) == [a, b]
  {
    hide ForestRows, ForestLeaves, ForestSeps, ForestPages;
    ForestAppend([Leaf(a, m, r)], [Leaf(b, n, q)]);
    ForestLeaf(a, m, r);
    ForestLeaf(b, n, q);
    assert [Leaf(a, m, r)] + [Leaf(b, n, q)] == [Leaf(a, m, r), Leaf(b, n, q)];
    assert [a] + [b] == [a, b];
  }

  /** A leaf gives its upper rows to a new leaf b. */
  lemma {:induction false} LeafCut(a: int, b: int, n: int, rows: seq<Entry>, p: nat, s: Entry, l0: Ledger, l1: Ledger,
                                   end: int)
    requires p <= |rows|
    requires l1.rows == l0.rows && l1.seps == l0.seps + multiset{s} && l1.pages == l0.pages + multiset{b}
    ensures Turns([], [Leaf(a, n, rows)], l0, [s], [Leaf(a, b, rows[..p]), Leaf(b, n, rows[p..])], l1, end)
  {
    assert rows == rows[..p] + rows[p..];
    ForestLeaf(a, n, rows);
    ForestLeaves2(a, b, b, n, rows[..p], rows[p..]);
    LinkedOne(Leaf(a, n, rows), end);
    LinkedTwo(Leaf(a, b, rows[..p]), Leaf(b, n, rows[p..]), end);
  }

  /** A leaf takes over the rows and the successor of its right neighbour. */
  lemma {:induction false} LeafJoin(a: int, b: int, n: int, s: Entry, r: seq<Entry>, q: seq<Entry>, l0: Ledger,
                                    l1: Ledger, end: int)
    requires l1.rows == l0.rows && l1.seps + multiset{s} == l0.seps && l1.pages + multiset{b} == l0.pages
    ensures Turns([s], [Leaf(a, b, r), Leaf(b, n, q)], l0, [], [Leaf(a, n, r + q)], l1, end)
  {
    ForestLeaf(a, n, r + q);
    ForestLeaves2(a, b, b, n, r, q);
    LinkedOne(Leaf(a, n, r + q), end);
    LinkedTwo(Leaf(a, b, r), Leaf(b, n, q), end);
  }

  lemma {:induction false} ForestNodes2(a: int, b: int, sl: seq<Entry>, kl: seq<Tree>, sr: seq<Entry>, kr: seq<Tree>)
    ensures var k := [Node(a, sl, kl), Node(b, sr, kr)];
            && ForestRows(k) == ForestRows(kl + kr)
            && ForestLeaves(k) == ForestLeaves(kl + kr)
            && ForestSeps(k) == sl + ForestSeps(kl) + (sr + ForestSeps(kr))
            && ForestSeps(kl + kr) == ForestSeps(kl) + ForestSeps(kr)
            && ForestPages(k) == [a] + ForestPages(kl) + ([b] + ForestPages(kr))
            && ForestPages(kl + kr) == ForestPages(kl) + ForestPages(kr)
  {
    hide ForestRows, ForestLeaves, ForestSeps, ForestPages;
    ForestAppend([Node(a, sl, kl)], [Node(b, sr, kr)]);
    ForestAppend(kl, kr);
    ForestNode(a, sl, kl);
    ForestNode(b, sr, kr);
    assert [Node(a, sl, kl)] + [Node(b, sr, kr)] == [Node(a, sl, kl), Node(b, sr, kr)];
  }

  /** Two neighbouring nodes and the separator s between them become one node, with t in the place of s. */
  lemma {:induction false} NodeJoin(a: int, b: int, sl: seq<Entry>, kl: seq<Tree>, s: Entry, sr: seq<Entry>,
                                    kr: seq<Tree>, t: Entry, l0: Ledger, l1: Ledger, end: int)
    requires l1.rows == l0.rows && l1.pages + multiset{b} == l0.pages
    requires l1.seps + multiset{s} == l0.seps + multiset{t}
    ensures Turns([s], [Node(a, sl, kl), Node(b, sr, kr)], l0, [], [Node(a, sl + [t] + sr, kl + kr)], l1, end)
  {
    hide ForestRows, ForestLeaves, ForestSeps, ForestPages, Linked;
    ForestNodes2(a, b, sl, kl, sr, kr);
    ForestNode(a, sl + [t] + sr, kl + kr);
    NodeSeps(sl, ForestSeps(kl), sr, ForestSeps(kr), s, t, l0.seps, l1.seps);
    NodePages(a, b, ForestPages(kl), ForestPages(kr), l0.pages, l1.pages);
  }

  lemma {:induction false} NodeSeps(sl: seq<Entry>, fl: seq<Entry>, sr: seq<Entry>, fr: seq<Entry>, s: Entry, t: Entry,
                 l0: multiset<Entry>, l1: multiset<Entry>)
    requires l1 + multiset{s} == l0 + multiset{t}
    ensures multiset(sl + [t] + sr + (fl + fr)) + l0 == multiset{s} + multiset(sl + fl + (sr + fr)) + l1
  {
    assert multiset(sl + [t] + sr + (fl + fr)) == multiset(sl + fl + (sr + fr)) + multiset{t};
    var x := multiset(sl + fl + (sr + fr));
    assert x + multiset{t} + l0 == x + (l0 + multiset{t});
    assert multiset{s} + x + l1 == x + (l1 + multiset{s});
  }

  lemma {:induction false} NodePages(a: int, b: int, pl: seq<int>, pr: seq<int>, l0: multiset<int>, l1: multiset<int>)
    requires l1 + multiset{b} == l0
    ensures multiset([a] + (pl + pr)) + l0 == multiset([a] + pl + ([b] + pr)) + l1
  {
    assert multiset([a] + pl + ([b] + pr)) == multiset([a] + (pl + pr)) + multiset{b};
  }

  /** The converse: a node is cut at its separator p. */
  lemma {:induction false} NodeCut(a: int, b: int, seps: seq<Entry>, kids: seq<Tree>, p: nat, l0: Ledger, l1: Ledger,
                                   end: int)
    requires p < |seps| && |kids| == |seps| + 1
    requires l1.rows == l0.rows && l1.seps == l0.seps && l1.pages == l0.pages + multiset{b}
    ensures Turns([], [Node(a, seps, kids)], l0,
                  [seps[p]], [Node(a, seps[..p], kids[..p + 1]), Node(b, seps[p + 1..], kids[p + 1..])], l1, end)
  {
    hide ForestRows, ForestLeaves, ForestSeps, ForestPages, Linked;
    var sl, kl, sr, kr := seps[..p], kids[..p + 1], seps[p + 1..], kids[p + 1..];
    assert seps == sl + [seps[p]] + sr && kids == kl + kr;
    NodeJoin(a, b, sl, kl, seps[p], sr, kr, seps[p], l1, l0, end);
    ForestNodes2(a, b, sl, kl, sr, kr);
    ForestNode(a, seps, kids);
  }

  /** Two neighbouring nodes redistribute their separators and kids through the one between them. */
  lemma {:induction false} NodesTurn(a: int, b: int, sl: seq<Entry>, kl: seq<Tree>, s: Entry, sr: seq<Entry>,
                                     kr: seq<Tree>, p: nat, l: Ledger, end: int)
    requires p < |sl| + 1 + |sr| && |kl| == |sl| + 1 && |kr| == |sr| + 1
    requires b in l.pages
    ensures var seps, kids := sl + [s] + sr, kl + kr;
            Turns([s], [Node(a, sl, kl), Node(b, sr, kr)], l,
                  [seps[p]], [Node(a, seps[..p], kids[..p + 1]), Node(b, seps[p + 1..], kids[p + 1..])], l, end)
  {
    hide Turns;
    var seps, kids := sl + [s] + sr, kl + kr;
    var l1 := l.(pages := l.pages - multiset{b});
    NodeJoin(a, b, sl, kl, s, sr, kr, s, l, l1, end);
    NodeCut(a, b, seps, kids, p, l1, l, end);
    TurnsThenTurns([s], [Node(a, sl, kl), Node(b, sr, kr)], l, [], [Node(a, seps, kids)], l1,
                   [seps[p]], [Node(a, seps[..p], kids[..p + 1]), Node(b, seps[p + 1..], kids[p + 1..])], l, end);
  }

  // ----- Order of the local changes -----

  /** Index i is where key k belongs: everything before it is at most k, everything from it on is larger. */
  ghost predicate UpperBound(s: seq<Entry>, k: Text, i: nat) {
    && i <= |s|
    && (forall x :: 0 <= x < i ==> !Less(k, s[x].key))
    && (forall x :: i <= x < |s| ==> Less(k, s[x].key))
  }

  lemma {:induction false} IsUpperBound(s: seq<Entry>, k: Text, i: nat)
    requires i <= |s| && Increasing(s)
    requires i > 0 ==> !Less(k, s[i - 1].key)
    requires i < |s| ==> Less(k, s[i].key)
    ensures UpperBound(s, k, i)
  {
    hide Less;
    TotalOrder();
  }

  lemma {:induction false} InsertSorted(rows: seq<Entry>, i: nat, e: Entry, lo: Bound, hi: Bound)
    requires Sorted(rows, lo, hi) && UpperBound(rows, e.key, i)
    requires AtLeast(lo, e.key) && Below(e.key, hi)
    requires forall x :: 0 <= x < |rows| ==> rows[x].key != e.key
    ensures Sorted(InsertAt(rows, i, e), lo, hi)
  {
    hide Less;
    TotalOrder();
  }

  lemma {:induction false} RemoveSorted(rows: seq<Entry>, i: nat, lo: Bound, hi: Bound)
    requires Sorted(rows, lo, hi) && i < |rows|
    ensures Sorted(RemoveAt(rows, i), lo, hi)
  {
  }

  /** A present key stands just before its upper bound. */
  lemma {:induction false} PresentBefore(rows: seq<Entry>, lo: Bound, hi: Bound, e: Entry, i: nat)
    requires Increasing(rows) && UpperBound(rows, e.key, i) && e in rows
    ensures 0 < i <= |rows| && rows[i - 1] == e
  {
    hide Less;
    TotalOrder();
    var x :| 0 <= x < |rows| && rows[x] == e;
    assert x < i;
  }

  lemma {:induction false} SortedConcat(r: seq<Entry>, q: seq<Entry>, k: Text, lo: Bound, hi: Bound)
    requires Sorted(r, lo, At(k)) && Sorted(q, At(k), hi) && Above(lo, k) && Below(k, hi)
    ensures Sorted(r + q, lo, hi)
  {
    hide Less;
    TotalOrder();
  }

  /** Sorted rows cut in two make a pair of leaves, with a separator that equals the first row on the right. */
  lemma {:induction false} LeafPair(a: int, b: int, n: int, rows: seq<Entry>, p: nat, s: Entry, d: nat, lo: Bound,
                                    hi: Bound, m: nat)
    requires Sorted(rows, lo, hi) && 0 < p < |rows| && s.key == rows[p].key
    requires m <= p <= 2 * d && m <= |rows| - p <= 2 * d
    ensures Ranged([s], [Leaf(a, b, rows[..p]), Leaf(b, n, rows[p..])], d, 1, lo, hi, m)
  {
    hide Less;
    TotalOrder();
    assert Less(rows[0].key, s.key);
    assert Wf(Leaf(a, b, rows[..p]), d, 1, lo, At(s.key), m);
    assert Wf(Leaf(b, n, rows[p..]), d, 1, At(s.key), hi, m);
  }

  /** A tree alone, as a forest without separators. */
  lemma {:induction false} RangedOne(t: Tree, d: nat, h: nat, lo: Bound, hi: Bound, m: nat)
    ensures Ranged([], [t], d, h, lo, hi, m) <==> Wf(t, d, h, lo, hi, m)
  {
    assert Ranged([], [t], d, h, lo, hi, m) ==> Wf([t][0], d, h, lo, hi, m);
  }

  // ----- The rows of a well-formed tree -----

  lemma {:induction false} RowsSorted(t: Tree, d: nat, h: nat, lo: Bound, hi: Bound, m: nat)
    requires Wf(t, d, h, lo, hi, m)
    ensures Sorted(Rows(t), lo, hi)
    decreases t
  {
    if t.Node? {
      ForestSorted(t.seps, t.kids, d, h - 1, lo, hi, d);
    }
  }

  lemma {:induction false} ForestSorted(seps: seq<Entry>, kids: seq<Tree>, d: nat, h: nat, lo: Bound, hi: Bound, m: nat)
    requires Ranged(seps, kids, d, h, lo, hi, m)
    ensures Sorted(ForestRows(kids), lo, hi)
    decreases kids
  {
    var n := |seps|;
    assert Wf(kids[n], d, h, From(seps, n, lo), hi, m);
    RowsSorted(kids[n], d, h, From(seps, n, lo), hi, m);
    if n == 0 {
      assert kids == [kids[0]];
      ForestOne(kids[0]);
    } else {
      Cut(seps, kids, n - 1, d, h, lo, hi, m);
      ForestSorted(seps[..n - 1], kids[..n], d, h, lo, At(seps[n - 1].key), m);
      SortedConcat(ForestRows(kids[..n]), Rows(kids[n]), seps[n - 1].key, lo, hi);
      ForestAppend(kids[..n], [kids[n]]);
      ForestOne(kids[n]);
      assert kids == kids[..n] + [kids[n]];
    }
  }

  /** In a node, the rows with key k are all below the kid at the upper bound of k. */
  lemma {:induction false} OnlyBelow(seps: seq<Entry>, kids: seq<Tree>, i: nat, e: Entry, d: nat, h: nat, lo: Bound,
                                     hi: Bound, m: nat)
    requires Ranged(seps, kids, d, h, lo, hi, m) && UpperBound(seps, e.key, i)
    ensures e in ForestRows(kids) <==> e in Rows(kids[i])
  {
    hide Less, Wf, ForestRows, ForestLeaves, ForestSeps, ForestPages, Rows;
    TotalOrder();
    ForestSplit(kids, i, i + 1);
    assert kids[i..i + 1] == [kids[i]];
    ForestOne(kids[i]);
    if i > 0 && e in ForestRows(kids[..i]) {
      Cut(seps, kids, i - 1, d, h, lo, hi, m);
      ForestSorted(seps[..i - 1], kids[..i], d, h, lo, At(seps[i - 1].key), m);
      assert false;
    }
    if i == 0 {
      assert kids[..0] == [];
      EmptyForest();
    }
    if i < |seps| && e in ForestRows(kids[i + 1..]) {
      Cut(seps, kids, i, d, h, lo, hi, m);
      ForestSorted(seps[i + 1..], kids[i + 1..], d, h, At(seps[i].key), hi, m);
      assert false;
    }
    if i == |seps| {
      assert kids[i + 1..] == [];
      EmptyForest();
    }
  }

  lemma {:induction false} EmptyForest()
    ensures ForestRows([]) == []
  {
  }

  // ----- Insertion -----

  ghost function Spliced<T>(s: seq<T>, i: nat, j: nat, mid: seq<T>): seq<T>
    requires i <= j <= |s|
  {
    s[..i] + mid + s[j..]
  }

  /** The leaves of kid i are linked up to the first leaf after them. */
  lemma {:induction false} KidLinked(kids: seq<Tree>, i: nat, end: int)
    requires i < |kids| && Linked(ForestLeaves(kids), end)
    ensures Linked(Leaves(kids[i]), First(ForestLeaves(kids[i + 1..]), end))
  {
    hide ForestLeaves, Leaves, Linked;
    ForestSplit(kids, i, i + 1);
    assert kids[i..i + 1] == [kids[i]];
    ForestOne(kids[i]);
    LinkedAppend(ForestLeaves(kids[..i]) + Leaves(kids[i]), ForestLeaves(kids[i + 1..]), end);
    LinkedAppend(ForestLeaves(kids[..i]), Leaves(kids[i]), First(ForestLeaves(kids[i + 1..]), end));
  }

  /** A leaf with room has taken row e at index i. */
  lemma {:induction false} LeafGrows(a: int, n: int, rows: seq<Entry>, i: nat, e: Entry, d: nat, lo: Bound, hi: Bound,
                                     m: nat, l0: Ledger, l1: Ledger, end: int)
    requires Wf(Leaf(a, n, rows), d, 1, lo, hi, m) && |rows| < 2 * d
    requires UpperBound(rows, e.key, i) && AtLeast(lo, e.key) && Below(e.key, hi)
    requires forall r :: r in rows ==> r.key != e.key
    requires l1 == l0.(rows := l0.rows + multiset{e})
    ensures Ranged([], [Leaf(a, n, InsertAt(rows, i, e))], d, 1, lo, hi, m)
    ensures Turns([], [Leaf(a, n, rows)], l0, [], [Leaf(a, n, InsertAt(rows, i, e))], l1, end)
  {
    hide Less, Turns, Sorted;
    InsertSorted(rows, i, e, lo, hi);
    InsertedBag(rows, i, e);
    RangedOne(Leaf(a, n, InsertAt(rows, i, e)), d, 1, lo, hi, m);
    assert multiset(InsertAt(rows, i, e)) + l0.rows == multiset(rows) + l1.rows;
    LeafTurns(a, n, rows, InsertAt(rows, i, e), l0, l1, end);
  }

  /** A full leaf has taken row e and given its upper rows to a new leaf b. */
  lemma {:induction false} LeafSplits(a: int, b: int, n: int, rows: seq<Entry>, i: nat, e: Entry, s: Entry, d: nat,
                                      lo: Bound, hi: Bound, m: nat, l0: Ledger, l1: Ledger, end: int)
    requires d >= 2 && Wf(Leaf(a, n, rows), d, 1, lo, hi, m) && |rows| == 2 * d
    requires UpperBound(rows, e.key, i) && AtLeast(lo, e.key) && Below(e.key, hi)
    requires forall r :: r in rows ==> r.key != e.key
    requires s.key == InsertAt(rows, i, e)[d].key
    requires l1 == Ledger(l0.rows + multiset{e}, l0.seps + multiset{s}, l0.pages + multiset{b})
    ensures var all := InsertAt(rows, i, e);
            && Ranged([s], [Leaf(a, b, all[..d]), Leaf(b, n, all[d..])], d, 1, lo, hi, d)
            && Turns([], [Leaf(a, n, rows)], l0, [s], [Leaf(a, b, all[..d]), Leaf(b, n, all[d..])], l1, end)
  {
    hide Less, Turns, Sorted, Ranged;
    var all := InsertAt(rows, i, e);
    InsertSorted(rows, i, e, lo, hi);
    InsertedBag(rows, i, e);
    var l := l0.(rows := l1.rows);
    assert multiset(all) + l0.rows == multiset(rows) + l.rows;
    LeafTurns(a, n, rows, all, l0, l, end);
    LeafCut(a, b, n, all, d, s, l, l1, end);
    TurnsThenTurns([], [Leaf(a, n, rows)], l0, [], [Leaf(a, n, all)], l,
                   [s], [Leaf(a, b, all[..d]), Leaf(b, n, all[d..])], l1, end);
    LeafPair(a, b, n, all, d, s, d, lo, hi, d);
  }

  /** Kid i of a node has turned into out, with mid between its parts. */
  lemma {:induction false} NodeGrows(a: int, seps: seq<Entry>, kids: seq<Tree>, i: nat, mid: seq<Entry>, out: seq<Tree>,
                  d: nat, h: nat, lo: Bound, hi: Bound, l0: Ledger, l1: Ledger, end: int)
    requires Ranged(seps, kids, d, h, lo, hi, d) && i < |kids|
    requires Ranged(mid, out, d, h, From(seps, i, lo), To(seps, i, hi), d)
    requires Turns([], [kids[i]], l0, mid, out, l1, First(ForestLeaves(kids[i + 1..]), end))
    ensures var s, k := Spliced(seps, i, i, mid), Spliced(kids, i, i + 1, out);
            && Ranged(s, k, d, h, lo, hi, d)
            && Turns([], [Node(a, seps, kids)], l0, [], [Node(a, s, k)], l1, end)
  {
    hide Turns, Wf, Separating, ForestLeaves;
    Splice(seps, kids, i, i, mid, out, d, h, lo, hi, d);
    assert kids[i..i + 1] == [kids[i]] && seps[i..i] == [];
    TurnsInside(seps, kids, i, i, l0, mid, out, l1, end);
    TurnsBelow(a, seps, kids, l0, Spliced(seps, i, i, mid), Spliced(kids, i, i + 1, out), l1, end);
  }

  /** A node that has become too large is split around separator d; the upper part goes to a new page b. */
  lemma {:induction false} NodeSplits(a: int, b: int, seps: seq<Entry>, kids: seq<Tree>, d: nat, h: nat, lo: Bound,
                                      hi: Bound, l0: Ledger, l1: Ledger, end: int)
    requires Ranged(seps, kids, d, h, lo, hi, d) && |seps| == 2 * d + 1 && h >= 1
    requires l1 == l0.(pages := l0.pages + multiset{b})
    ensures var out := [Node(a, seps[..d], kids[..d + 1]), Node(b, seps[d + 1..], kids[d + 1..])];
            && Ranged([seps[d]], out, d, h + 1, lo, hi, d)
            && Turns([], [Node(a, seps, kids)], l0, [seps[d]], out, l1, end)
  {
    hide Turns, Less;
    NodePair(a, b, seps, kids, d, d, h, lo, hi, d);
    NodeCut(a, b, seps, kids, d, l0, l1, end);
  }

  /** The two parts of a node cut at separator p, as neighbours. */
  lemma {:induction false} NodePair(a: int, b: int, seps: seq<Entry>, kids: seq<Tree>, p: nat, d: nat, h: nat,
                                    lo: Bound, hi: Bound, m: nat)
    requires Ranged(seps, kids, d, h, lo, hi, d) && h >= 1
    requires m <= p <= 2 * d && p < |seps| && m <= |seps| - 1 - p <= 2 * d
    ensures Ranged([seps[p]], [Node(a, seps[..p], kids[..p + 1]), Node(b, seps[p + 1..], kids[p + 1..])], d, h + 1,
                   lo, hi, m)
  {
    hide Less, Separating;
    Cut(seps, kids, p, d, h, lo, hi, d);
    var s, l, r := seps[p], Node(a, seps[..p], kids[..p + 1]), Node(b, seps[p + 1..], kids[p + 1..]);
    SeparatingOne(s, lo, hi);
    assert Wf(l, d, h + 1, lo, At(s.key), m);
    assert Wf(r, d, h + 1, At(s.key), hi, m);
    assert [l, r][0] == l && [l, r][1] == r;
  }

  lemma {:induction false} SeparatingOne(s: Entry, lo: Bound, hi: Bound)
    requires Above(lo, s.key) && Below(s.key, hi)
    ensures Separating([s], lo, hi)
  {
  }

  // ----- Deletion -----

  /** t with kid i replaced. */
  ghost function With(t: Tree, i: nat, c: Tree): Tree
    requires t.Node? && i < |t.kids|
  {
    Node(t.addr, t.seps, t.kids[i := c])
  }

  /** A key of kid i leads find_index in the parent to i. */
  lemma {:induction false} LeadsToKid(seps: seq<Entry>, i: nat, lo: Bound, hi: Bound, k: Text, x: nat)
    requires i <= |seps| && Increasing(seps) && UpperBound(seps, k, x)
    requires AtLeast(From(seps, i, lo), k) && Below(k, To(seps, i, hi))
    ensures x == i
  {
    hide Less;
    TotalOrder();
  }

  /** A separator stands just before its upper bound. */
  lemma {:induction false} SepBefore(seps: seq<Entry>, j: nat, x: nat)
    requires j < |seps| && Increasing(seps) && UpperBound(seps, seps[j].key, x)
    ensures x == j + 1
  {
    hide Less;
    TotalOrder();
    assert !Less(seps[j].key, seps[j].key);
    assert j + 1 < |seps| ==> Less(seps[j].key, seps[j + 1].key);
  }

  /** Neighbouring leaves are linked. */
  lemma {:induction false} NextLeaf(kids: seq<Tree>, j: nat, end: int)
    requires j + 1 < |kids| && kids[j].Leaf? && kids[j + 1].Leaf? && Linked(ForestLeaves(kids), end)
    ensures kids[j].next == kids[j + 1].addr
  {
    hide ForestLeaves, Linked;
    KidLinked(kids, j, end);
    assert kids[j + 1..] == [kids[j + 1]] + kids[j + 2..];
    ForestAppend([kids[j + 1]], kids[j + 2..]);
    ForestOne(kids[j + 1]);
    LeavesOfLeaf(kids[j]);
    LeavesOfLeaf(kids[j + 1]);
    LinkedOne(kids[j], First(ForestLeaves(kids[j + 1..]), end));
  }

  lemma {:induction false} LeavesOfLeaf(t: Tree)
    requires t.Leaf?
    ensures Leaves(t) == [t]
  {
  }

  /** Kid i has lost rows; nothing else has changed. */
  lemma {:induction false} KidThins(t: Tree, i: nat, c: Tree, d: nat, h: nat, lo: Bound, hi: Bound, l0: Ledger,
                                    l1: Ledger, end: int)
    requires t.Node? && Ranged(t.seps, t.kids, d, h, lo, hi, d) && i < |t.kids|
    requires Turns([], [t.kids[i]], l0, [], [c], l1, First(ForestLeaves(t.kids[i + 1..]), end))
    ensures Turns(t.seps, t.kids, l0, t.seps, t.kids[i := c], l1, end)
  {
    hide Turns, Ranged, ForestLeaves;
    assert |t.kids| == |t.seps| + 1 by {
      RangedSizes(t.seps, t.kids, d, h, lo, hi, d);
    }
    assert t.kids[i..i + 1] == [t.kids[i]] && t.seps[i..i] == [];
    TurnsInside(t.seps, t.kids, i, i, l0, [], [c], l1, end);
    assert t.seps[..i] + [] + t.seps[i..] == t.seps;
    assert t.kids[..i] + [c] + t.kids[i + 1..] == t.kids[i := c];
  }

  lemma {:induction false} RangedSizes(seps: seq<Entry>, kids: seq<Tree>, d: nat, h: nat, lo: Bound, hi: Bound, m: nat)
    requires Ranged(seps, kids, d, h, lo, hi, m)
    ensures |kids| == |seps| + 1 && Increasing(seps) && Separating(seps, lo, hi)
    ensures forall i :: 0 <= i < |kids| ==> Wf(kids[i], d, h, From(seps, i, lo), To(seps, i, hi), m)
  {
  }

  /** Neighbours j and j + 1, one of which is kid i after it has lost rows, give way to out. */
  lemma {:induction false} PairTurns(t: Tree, i: nat, c: Tree, j: nat, mid: seq<Entry>, out: seq<Tree>,
                  d: nat, h: nat, lo: Bound, hi: Bound, l0: Ledger, l1: Ledger, l2: Ledger, end: int)
    requires t.Node? && Ranged(t.seps, t.kids, d, h, lo, hi, d) && j < |t.seps| && (i == j || i == j + 1)
    requires Turns(t.seps, t.kids, l0, t.seps, t.kids[i := c], l1, end)
    requires Turns([t.seps[j]], t.kids[i := c][j..j + 2], l1, mid, out, l2, First(ForestLeaves(t.kids[j + 2..]), end))
    requires Ranged(mid, out, d, h, From(t.seps, j, lo), To(t.seps, j + 1, hi), d)
    ensures var s, k := Spliced(t.seps, j, j + 1, mid), Spliced(t.kids, j, j + 2, out);
            Ranged(s, k, d, h, lo, hi, d) && Turns(t.seps, t.kids, l0, s, k, l2, end)
  {
    hide Turns, ForestLeaves, Wf, Separating;
    var kids := t.kids[i := c];
    assert kids[j + 2..] == t.kids[j + 2..] && kids[..j] == t.kids[..j];
    assert t.seps[j..j + 1] == [t.seps[j]];
    TurnsInside(t.seps, kids, j, j + 1, l1, mid, out, l2, end);
    TurnsThenTurns(t.seps, t.kids, l0, t.seps, kids, l1, Spliced(t.seps, j, j + 1, mid),
                   Spliced(t.kids, j, j + 2, out), l2, end);
    Splice(t.seps, t.kids, j, j + 1, mid, out, d, h, lo, hi, d);
  }

  // ----- Borrowing and merging -----

  /** Leaf a and its right neighbour b share their rows anew: the first p stay left. */
  lemma {:induction false} LeavesShare(a: int, b: int, n: int, s0: Entry, r: seq<Entry>, q: seq<Entry>, s1: Entry,
                                       p: nat, d: nat, lo: Bound, hi: Bound, l0: Ledger, l1: Ledger, end: int)
    requires d >= 1 && Sorted(r, lo, At(s0.key)) && Sorted(q, At(s0.key), hi) && Above(lo, s0.key) && Below(s0.key, hi)
    requires d <= p <= 2 * d && d <= |r| + |q| - p <= 2 * d && s1.key == (r + q)[p].key
    requires l1.rows == l0.rows && l1.pages == l0.pages && multiset{s1} + l0.seps == multiset{s0} + l1.seps
    ensures var all := r + q; var out := [Leaf(a, b, all[..p]), Leaf(b, n, all[p..])];
            && Ranged([s1], out, d, 1, lo, hi, d)
            && Turns([s0], [Leaf(a, b, r), Leaf(b, n, q)], l0, [s1], out, l1, end)
  {
    hide Turns, Sorted;
    var all := r + q;
    SortedConcat(r, q, s0.key, lo, hi);
    LeafPair(a, b, n, all, p, s1, d, lo, hi, d);
    assert all == all[..p] + all[p..];
    LeavesTurn(a, b, n, s0, r, q, s1, all[..p], all[p..], l0, l1, end);
  }

  /** Leaf a takes over its right neighbour b. */
  lemma {:induction false} LeavesMerge(a: int, b: int, n: int, s: Entry, r: seq<Entry>, q: seq<Entry>,
                    d: nat, lo: Bound, hi: Bound, l0: Ledger, l1: Ledger, end: int)
    requires Sorted(r, lo, At(s.key)) && Sorted(q, At(s.key), hi) && Above(lo, s.key) && Below(s.key, hi)
    requires d <= |r| + |q| <= 2 * d
    requires l1.rows == l0.rows && l1.seps + multiset{s} == l0.seps && l1.pages + multiset{b} == l0.pages
    ensures Ranged([], [Leaf(a, n, r + q)], d, 1, lo, hi, d)
    ensures Turns([s], [Leaf(a, b, r), Leaf(b, n, q)], l0, [], [Leaf(a, n, r + q)], l1, end)
  {
    hide Turns, Sorted;
    SortedConcat(r, q, s.key, lo, hi);
    LeafJoin(a, b, n, s, r, q, l0, l1, end);
    RangedOne(Leaf(a, n, r + q), d, 1, lo, hi, d);
  }

  /** Node a and its right neighbour b share their separators anew: the first p stay left, the next one goes up. */
  lemma {:induction false} NodesShare(a: int, b: int, sl: seq<Entry>, kl: seq<Tree>, s: Entry, sr: seq<Entry>,
                                      kr: seq<Tree>, p: nat, d: nat, h: nat, lo: Bound, hi: Bound, l: Ledger, end: int)
    requires Ranged(sl, kl, d, h, lo, At(s.key), d) && Ranged(sr, kr, d, h, At(s.key), hi, d) && h >= 1
    requires Above(lo, s.key) && Below(s.key, hi)
    requires d <= p <= 2 * d && d <= |sl| + |sr| - p <= 2 * d && b in l.pages
    ensures var seps, kids := sl + [s] + sr, kl + kr;
            var out := [Node(a, seps[..p], kids[..p + 1]), Node(b, seps[p + 1..], kids[p + 1..])];
            && |kids| == |seps| + 1
            && Ranged([seps[p]], out, d, h + 1, lo, hi, d)
            && Turns([s], [Node(a, sl, kl), Node(b, sr, kr)], l, [seps[p]], out, l, end)
  {
    hide Turns, Wf, Separating;
    Join(sl, kl, s, sr, kr, d, h, lo, hi, d);
    NodePair(a, b, sl + [s] + sr, kl + kr, p, d, h, lo, hi, d);
    NodesTurn(a, b, sl, kl, s, sr, kr, p, l, end);
  }

  /** Node a takes over its right neighbour b, with t, a copy of the separator s, between the two parts. */
  lemma {:induction false} NodesMerge(a: int, b: int, sl: seq<Entry>, kl: seq<Tree>, s: Entry, t: Entry,
                                      sr: seq<Entry>, kr: seq<Tree>, d: nat, h: nat, lo: Bound, hi: Bound, l0: Ledger,
                                      l1: Ledger, end: int)
    requires Ranged(sl, kl, d, h, lo, At(s.key), d) && Ranged(sr, kr, d, h, At(s.key), hi, d) && h >= 1
    requires Above(lo, s.key) && Below(s.key, hi) && t.key == s.key
    requires d <= |sl| + 1 + |sr| <= 2 * d
    requires l1.rows == l0.rows && l1.pages + multiset{b} == l0.pages && l1.seps + multiset{s} == l0.seps + multiset{t}
    ensures var j := Node(a, sl + [t] + sr, kl + kr);
            && Ranged([], [j], d, h + 1, lo, hi, d)
            && Turns([s], [Node(a, sl, kl), Node(b, sr, kr)], l0, [], [j], l1, end)
  {
    hide Turns, Separating;
    Join(sl, kl, t, sr, kr, d, h, lo, hi, d);
    NodeJoin(a, b, sl, kl, s, sr, kr, t, l0, l1, end);
    RangedOne(Node(a, sl + [t] + sr, kl + kr), d, h + 1, lo, hi, d);
  }

  // ----- The whole tree -----

  /** The books show exactly what the tree holds. */
  ghost predicate Booked(t: Tree, l: Ledger) {
    && multiset(Rows(t)) == l.rows
    && multiset(Seps(t)) == l.seps
    && multiset(Pages(t)) == l.pages
  }

  lemma {:induction false} Cancel<T>(x1: multiset<T>, l0: multiset<T>, x0: multiset<T>, l1: multiset<T>)
    requires x1 + l0 == x0 + l1 && x0 == l0
    ensures x1 == l1
  {
    forall e
      ensures x1[e] == l1[e]
    {
      assert (x1 + l0)[e] == (x0 + l1)[e];
    }
  }

  lemma {:induction false} StillBooked(t: Tree, l0: Ledger, t1: Tree, l1: Ledger, end: int)
    requires Booked(t, l0) && Turns([], [t], l0, [], [t1], l1, end) && Linked(Leaves(t), end)
    ensures Booked(t1, l1) && Linked(Leaves(t1), end)
  {
    hide Rows, Seps, Pages, Leaves, ForestRows, ForestSeps, ForestPages, ForestLeaves, Linked;
    ForestOne(t);
    ForestOne(t1);
    Cancel(multiset(Rows(t1)), l0.rows, multiset(Rows(t)), l1.rows);
    Cancel(multiset(Pages(t1)), l0.pages, multiset(Pages(t)), l1.pages);
    var none: seq<Entry> := [];
    assert multiset(none) + multiset(Seps(t1)) == multiset(Seps(t1));
    assert multiset(none) + multiset(Seps(t)) == multiset(Seps(t));
    Cancel(multiset(Seps(t1)), l0.seps, multiset(Seps(t)), l1.seps);
  }

  /** A new root over two trees. */
  lemma {:induction false} Raised(b: int, mid: seq<Entry>, out: seq<Tree>, l0: Ledger, l1: Ledger, end: int)
    requires l1 == l0.(pages := l0.pages + multiset{b})
    ensures Turns(mid, out, l0, [], [Node(b, mid, out)], l1, end)
  {
    hide ForestRows, ForestSeps, ForestPages, ForestLeaves, Linked;
    ForestNode(b, mid, out);
    var none: seq<Entry> := [];
    assert multiset(none) + multiset(mid + ForestSeps(out)) == multiset(mid) + multiset(ForestSeps(out));
    assert multiset([b] + ForestPages(out)) == multiset(ForestPages(out)) + multiset{b};
    assert multiset(ForestPages(out)) + multiset{b} + l0.pages == multiset(ForestPages(out)) + l1.pages;
  }

  // ----- How many rows a tree of a given height holds at least -----

  function Pow(b: nat, n: nat): nat {
    if n == 0 then 1 else b * Pow(b, n - 1)
  }

  lemma {:induction false} MinRows(t: Tree, d: nat, h: nat, lo: Bound, hi: Bound)
    requires Wf(t, d, h, lo, hi, d)
    ensures h >= 1 && |Rows(t)| >= d * Pow(d + 1, h - 1)
    decreases t
  {
    if t.Node? {
      forall i | 0 <= i < |t.kids|
        ensures |Rows(t.kids[i])| >= d * Pow(d + 1, h - 2)
      {
        MinRows(t.kids[i], d, h - 1, From(t.seps, i, lo), To(t.seps, i, hi));
      }
      ManyRows(t.kids, d * Pow(d + 1, h - 2));
      Multiply(|t.kids|, d, Pow(d + 1, h - 2), d + 1);
    }
  }

  lemma {:induction false} Multiply(n: nat, d: nat, x: nat, b: nat)
    requires n >= b
    ensures n * (d * x) >= d * (b * x)
  {
    assert d * (b * x) == b * (d * x);
    assert n * (d * x) == b * (d * x) + (n - b) * (d * x);
  }

  lemma {:induction false} ManyRows(ks: seq<Tree>, x: nat)
    requires forall i :: 0 <= i < |ks| ==> |Rows(ks[i])| >= x
    ensures |ForestRows(ks)| >= |ks| * x
  {
    if ks != [] {
      assert |Rows(ks[0])| >= x;
      ManyRows(ks[1..], x);
      assert |ks| * x == x + |ks[1..]| * x;
    }
  }

  lemma {:induction false} PowMonotone(b: nat, n: nat, k: nat)
    requires b >= 1 && n <= k
    ensures 1 <= Pow(b, n) <= Pow(b, k)
  {
    if n > 0 {
      PowMonotone(b, n - 1, k - 1);
      Larger(b, Pow(b, n - 1), Pow(b, k - 1));
    } else if k > 0 {
      PowMonotone(b, 0, k - 1);
      Larger(b, 1, Pow(b, k - 1));
    }
  }

  lemma {:induction false} Larger(b: nat, x: nat, y: nat)
    requires b >= 1 && 1 <= x <= y
    ensures x <= b * x <= b * y
  {
  }

  /** The rows that a tree of height 15, the first one too high for the page cache, holds at least. */
  function Capacity(d: nat): nat {
    2 * (d * Pow(d + 1, 13))
  }

  lemma {:induction false} HighTrees(t: Tree, d: nat, h: nat, lo: Bound, hi: Bound)
    requires d >= 2 && Wf(t, d, h, lo, hi, if t.Leaf? then 0 else 1) && h >= 15
    ensures |Rows(t)| >= Capacity(d)
  {
    hide Less, Separating, Pow;
    var x := d * Pow(d + 1, h - 2);
    forall i | 0 <= i < |t.kids|
      ensures |Rows(t.kids[i])| >= x
    {
      MinRows(t.kids[i], d, h - 1, From(t.seps, i, lo), To(t.seps, i, hi));
    }
    ManyRows(t.kids, x);
    PowMonotone(d + 1, 13, h - 2);
    Larger(d, Pow(d + 1, 13), Pow(d + 1, h - 2));
    Larger(x, 2, |t.kids|);
  }

  /** A tree with fewer rows than that leaves two of the 16 frames free on any path from the root to a leaf. */
  lemma {:induction false} HeightBound(t: Tree, d: nat, h: nat, lo: Bound, hi: Bound)
    requires d >= 2 && Wf(t, d, h, lo, hi, if t.Leaf? then 0 else 1)
    requires |Rows(t)| < Capacity(d)
    ensures h <= 14
  {
    if h >= 15 {
      HighTrees(t, d, h, lo, hi);
    }
  }

  lemma {:induction false} CapacityOfTwo()
    ensures Capacity(2) == 4 * 1594323
  {
    assert Pow(3, 4) == 81;
    assert Pow(3, 8) == 81 * 81;
    assert Pow(3, 13) == 1594323;
  }

  // ----- The map that a tree represents -----

  ghost predicate Lists(contents: map<Text, Rid>, rows: seq<Entry>) {
    forall e :: e in rows <==> e.key in contents && contents[e.key] == e.rid
  }

  /** Sorted rows have pairwise different keys. */
  lemma {:induction false} KeysDiffer(rows: seq<Entry>)
    requires Increasing(rows)
    ensures forall x, y :: 0 <= x < y < |rows| ==> rows[x].key != rows[y].key
    ensures forall e :: multiset(rows)[e] <= 1
  {
    hide Less;
    TotalOrder();
    forall x, y | 0 <= x < y < |rows|
      ensures rows[x].key != rows[y].key
    {
      assert Less(rows[x].key, rows[y].key);
    }
    forall e
      ensures multiset(rows)[e] <= 1
    {
      OneCopy(rows, e);
    }
  }

  lemma {:induction false} OneCopy<T>(s: seq<T>, e: T)
    requires forall x, y :: 0 <= x < y < |s| ==> s[x] != s[y]
    ensures multiset(s)[e] <= 1
  {
    if s != [] {
      var n := |s| - 1;
      OneCopy(s[..n], e);
      assert s == s[..n] + [s[n]];
      if e == s[n] && e in s[..n] {
        assert false;
      }
      assert e in multiset(s[..n]) <==> e in s[..n];
    }
  }

  lemma {:induction false} KeyListed(contents: map<Text, Rid>, rows: seq<Entry>, k: Text)
    requires Lists(contents, rows)
    ensures k in contents ==> Entry(contents[k], k) in rows
  {
  }

  lemma {:induction false} ListedSize(contents: map<Text, Rid>, rows: seq<Entry>)
    requires Lists(contents, rows) && Increasing(rows)
    ensures |contents| == |rows|
  {
    KeysDiffer(rows);
    if rows == [] {
      forall k
        ensures k !in contents
      {
        KeyListed(contents, rows, k);
      }
      assert contents.Keys == {};
    } else {
      var n := |rows| - 1;
      var smaller := contents - {rows[n].key};
      assert rows[n] in rows;
      forall e
        ensures e in rows[..n] <==> e.key in smaller && smaller[e.key] == e.rid
      {
        if e in rows[..n] {
          var x :| 0 <= x < n && rows[x] == e;
          assert e in rows && e.key != rows[n].key;
        }
        if e.key in smaller && smaller[e.key] == e.rid {
          assert e in rows && e != rows[n];
        }
      }
      ListedSize(smaller, rows[..n]);
      assert contents == smaller[rows[n].key := contents[rows[n].key]];
    }
  }

  lemma {:induction false} ListedAfterInsert(contents: map<Text, Rid>, rows0: seq<Entry>, rows1: seq<Entry>, e: Entry)
    requires Lists(contents, rows0) && e.key !in contents
    requires multiset(rows1) == multiset(rows0) + multiset{e}
    ensures Lists(contents[e.key := e.rid], rows1)
  {
    forall x
      ensures x in rows1 <==> x in rows0 || x == e
    {
      assert x in rows1 <==> x in multiset(rows1);
      assert x in rows0 <==> x in multiset(rows0);
    }
  }

  lemma {:induction false} ListedAfterDelete(contents: map<Text, Rid>, rows0: seq<Entry>, rows1: seq<Entry>, e: Entry)
    requires Lists(contents, rows0) && Increasing(rows0)
    requires multiset(rows1) + multiset{e} == multiset(rows0)
    ensures Lists(contents - {e.key}, rows1)
  {
    KeysDiffer(rows0);
    assert e in multiset(rows0);
    forall x
      ensures x in rows1 <==> x in rows0 && x != e
    {
      assert x in rows1 <==> x in multiset(rows1);
      assert x in rows0 <==> x in multiset(rows0);
      assert (multiset(rows1) + multiset{e})[x] == multiset(rows0)[x] <= 1;
    }
  }
}
