/** When pages of the index file represent a tree, and when they form the free list. */
module TreePages {
  import opened Rids
  import opened Seqs
  import opened Texts
  import opened Trees
  import opened IndexPages

  type Disk = map<int, IndexPage>

  /** p is the page of the top node of t. */
  ghost predicate Shows(p: IndexPage, t: Tree, d: nat) {
    && Shaped(p, d)
    && match t
       case Leaf(_, next, rows) =>
         && p.leaf && p.next == next && p.n == |rows|
         && (forall i :: 0 <= i < |rows| ==> p.row[i] == rows[i].rid)
       case Node(_, seps, kids) =>
         && !p.leaf && p.n == |seps| && |kids| == |seps| + 1
         && (forall i :: 0 <= i < |seps| ==> p.row[i] == seps[i].rid)
         && (forall i :: 0 <= i < |kids| ==> p.child[i] == kids[i].addr)
  }

  ghost predicate Rep(disk: Disk, t: Tree, d: nat)
    decreases t
  {
    && t.addr in disk
    && Shows(disk[t.addr], t, d)
    && (t.Node? ==> RepAll(disk, t.kids, d))
  }

  ghost predicate RepAll(disk: Disk, ks: seq<Tree>, d: nat)
    decreases ks
  {
    forall i :: 0 <= i < |ks| ==> Rep(disk, ks[i], d)
  }

  /** Two disks agree on the given pages. */
  ghost predicate Same(disk0: Disk, disk1: Disk, pages: seq<int>) {
    forall a :: a in pages && a in disk0 ==> a in disk1 && disk1[a] == disk0[a]
  }

  lemma {:induction false} RepFrame(disk0: Disk, disk1: Disk, t: Tree, d: nat)
    requires Rep(disk0, t, d) && Same(disk0, disk1, Pages(t))
    ensures Rep(disk1, t, d)
    decreases t
  {
    assert t.addr in Pages(t);
    if t.Node? {
      RepAllFrame(disk0, disk1, t.kids, d);
    }
  }

  lemma {:induction false} RepAllFrame(disk0: Disk, disk1: Disk, ks: seq<Tree>, d: nat)
    requires RepAll(disk0, ks, d) && Same(disk0, disk1, ForestPages(ks))
    ensures RepAll(disk1, ks, d)
    decreases ks
  {
    if ks != [] {
      RepFrame(disk0, disk1, ks[0], d);
      assert forall i :: 0 <= i < |ks[1..]| ==> ks[1..][i] == ks[i + 1];
      RepAllFrame(disk0, disk1, ks[1..], d);
      forall i | 0 <= i < |ks|
        ensures Rep(disk1, ks[i], d)
      {
        if i > 0 {
          assert Rep(disk1, ks[1..][i - 1], d);
        }
      }
    }
  }

  lemma {:induction false} RepPages(disk: Disk, t: Tree, d: nat)
    requires Rep(disk, t, d)
    ensures forall a :: a in Pages(t) ==> a in disk
    decreases t
  {
    if t.Node? {
      RepAllPages(disk, t.kids, d);
    }
  }

  lemma {:induction false} RepAllPages(disk: Disk, ks: seq<Tree>, d: nat)
    requires RepAll(disk, ks, d)
    ensures forall a :: a in ForestPages(ks) ==> a in disk
    decreases ks
  {
    if ks != [] {
      RepPages(disk, ks[0], d);
      assert forall i :: 0 <= i < |ks[1..]| ==> ks[1..][i] == ks[i + 1];
      RepAllPages(disk, ks[1..], d);
    }
  }

  /** Same for the parts of a forest. */
  lemma {:induction false} RepParts(disk: Disk, a: seq<Tree>, b: seq<Tree>, c: seq<Tree>, d: nat)
    ensures RepAll(disk, a + b + c, d) <==> RepAll(disk, a, d) && RepAll(disk, b, d) && RepAll(disk, c, d)
  {
    var abc := a + b + c;
    if RepAll(disk, abc, d) {
      forall i | 0 <= i < |a| ensures Rep(disk, a[i], d) { assert abc[i] == a[i]; }
      forall i | 0 <= i < |b| ensures Rep(disk, b[i], d) { assert abc[|a| + i] == b[i]; }
      forall i | 0 <= i < |c| ensures Rep(disk, c[i], d) { assert abc[|a| + |b| + i] == c[i]; }
    }
  }

  // ----- The free list -----

  ghost function Head(free: seq<int>): int {
    if free == [] then -1 else free[0]
  }

  ghost predicate FreeList(disk: Disk, free: seq<int>, d: nat) {
    forall i :: 0 <= i < |free| ==>
      free[i] in disk && Shaped(disk[free[i]], d) && disk[free[i]].next == Head(free[i + 1..])
  }

  lemma {:induction false} FreePop(disk: Disk, free: seq<int>, d: nat)
    requires FreeList(disk, free, d) && free != []
    ensures FreeList(disk, free[1..], d)
    ensures free[0] in disk && Shaped(disk[free[0]], d) && disk[free[0]].next == Head(free[1..])
  {
    forall i | 0 <= i < |free[1..]|
      ensures free[1..][i] in disk && Shaped(disk[free[1..][i]], d)
              && disk[free[1..][i]].next == Head(free[1..][i + 1..])
    {
      assert free[1..][i] == free[i + 1] && free[1..][i + 1..] == free[i + 2..];
    }
  }

  lemma {:induction false} FreePush(disk: Disk, free: seq<int>, a: int, d: nat)
    requires FreeList(disk, free, d)
    requires a in disk && Shaped(disk[a], d) && disk[a].next == Head(free)
    ensures FreeList(disk, [a] + free, d)
  {
    var f := [a] + free;
    forall i | 0 <= i < |f|
      ensures f[i] in disk && Shaped(disk[f[i]], d) && disk[f[i]].next == Head(f[i + 1..])
    {
      assert f[1..] == free;
      if i > 0 {
        assert f[i] == free[i - 1] && f[i + 1..] == free[i..];
      }
    }
  }

  lemma {:induction false} FreeFrame(disk0: Disk, disk1: Disk, free: seq<int>, d: nat)
    requires FreeList(disk0, free, d) && Same(disk0, disk1, free)
    ensures FreeList(disk1, free, d)
  {
    forall i | 0 <= i < |free|
      ensures free[i] in disk1 && Shaped(disk1[free[i]], d) && disk1[free[i]].next == Head(free[i + 1..])
    {
      var a := free[i];
      assert a in free && a in disk0;
    }
  }

  // ----- No page is lost and none is used twice -----

  /** Every page but the control page is either in use or free, and listed once. */
  ghost predicate Conserved(used: multiset<int>, free: seq<int>, pages: set<int>) {
    used + multiset(free) == multiset(pages - {0})
  }

  lemma {:induction false} ConserveAppend(used: multiset<int>, free: seq<int>, pages: set<int>, a: int)
    requires Conserved(used, free, pages) && a !in pages && a != 0
    ensures Conserved(used + multiset{a}, free, pages + {a})
  {
    assert pages + {a} - {0} == (pages - {0}) + {a};
    assert multiset((pages - {0}) + {a}) == multiset(pages - {0}) + multiset{a};
  }

  lemma {:induction false} ConservePop(used: multiset<int>, free: seq<int>, pages: set<int>)
    requires Conserved(used, free, pages) && free != []
    ensures Conserved(used + multiset{free[0]}, free[1..], pages)
  {
    assert free == [free[0]] + free[1..];
    assert multiset(free) == multiset{free[0]} + multiset(free[1..]);
  }

  lemma {:induction false} ConservePush(used: multiset<int>, free: seq<int>, pages: set<int>, a: int)
    requires Conserved(used, free, pages) && a in used
    ensures Conserved(used - multiset{a}, [a] + free, pages)
  {
    assert multiset([a] + free) == multiset{a} + multiset(free);
  }

  lemma {:induction false} ListedTwice(s: seq<int>, i: nat, j: nat)
    requires i < j < |s| && s[i] == s[j]
    ensures multiset(s)[s[i]] >= 2
  {
    assert s == s[..i] + [s[i]] + s[i + 1..j] + [s[j]] + s[j + 1..];
  }

  lemma {:induction false} FreeDistinct(used: multiset<int>, free: seq<int>, pages: set<int>)
    requires Conserved(used, free, pages)
    ensures forall a :: a in free ==> a in pages && a != 0 && used[a] == 0
    ensures forall a :: a in used ==> a in pages && a != 0 && used[a] == 1 && a !in free
    ensures forall i, j :: 0 <= i < j < |free| ==> free[i] != free[j]
  {
    forall a
      ensures used[a] + multiset(free)[a] <= 1
      ensures used[a] + multiset(free)[a] == 1 ==> a in pages && a != 0
    {
      assert (used + multiset(free))[a] == multiset(pages - {0})[a];
    }
    forall a | a in free
      ensures a in pages && a != 0 && used[a] == 0
    {
      assert a in multiset(free);
      assert multiset(free)[a] > 0;
    }
    forall i, j | 0 <= i < j < |free|
      ensures free[i] != free[j]
    {
      if free[i] == free[j] {
        ListedTwice(free, i, j);
      }
    }
  }

  /** Taking the first page off the free list and writing q to it. */
  lemma {:induction false} FreeTaken(disk0: Disk, disk1: Disk, used: multiset<int>, free: seq<int>, d: nat)
    requires FreeList(disk0, free, d) && Conserved(used, free, disk0.Keys) && free != [] && 0 in disk0
    requires disk1.Keys == disk0.Keys
    requires forall a :: a in disk0 && a != 0 && a != free[0] ==> disk1[a] == disk0[a]
    ensures FreeList(disk1, free[1..], d)
    ensures Conserved(used + multiset{free[0]}, free[1..], disk1.Keys)
  {
    FreeDistinct(used, free, disk0.Keys);
    FreePop(disk0, free, d);
    ConservePop(used, free, disk0.Keys);
    forall a | a in free[1..]
      ensures a in disk1 && disk1[a] == disk0[a]
    {
      var i :| 0 <= i < |free[1..]| && free[1..][i] == a;
      assert free[i + 1] == a && a in free;
    }
    FreeFrame(disk0, disk1, free[1..], d);
  }

  // ----- Steps of insertion and deletion, on the disk and in the books -----

  /** Pages in use that are none of these are as before. */
  ghost predicate OthersStay(disk0: Disk, disk1: Disk, used0: multiset<int>, pages: seq<int>) {
    forall a :: a in used0 && a !in pages && a in disk0 ==> a in disk1 && disk1[a] == disk0[a]
  }

  /** t has turned into the one or two trees of out, with mid between them, and e is among their rows. */
  ghost predicate Grew(d: nat, disk0: Disk, l0: Ledger, disk1: Disk, l1: Ledger,
                       t: Tree, e: Entry, mid: seq<Entry>, out: seq<Tree>,
                       h: nat, lo: Bound, hi: Bound, m: nat, end: int)
  {
    && (|out| == 1 || |out| == 2) && |mid| == |out| - 1
    && out[0].addr == t.addr
    && Ranged(mid, out, d, h, lo, hi, if |out| == 1 then m else d)
    && RepAll(disk1, out, d)
    && l1.rows == l0.rows + multiset{e}
    && Turns([], [t], l0, mid, out, l1, end)
    && OthersStay(disk0, disk1, l0.pages, Pages(t))
  }

  /** A leaf with room has taken row e at index i. */
  lemma {:induction false} LeafGrew(d: nat, disk0: Disk, l0: Ledger, disk1: Disk, l1: Ledger, a: int, n: int,
                                    rows: seq<Entry>, e: Entry, i: nat, lo: Bound, hi: Bound, m: nat, end: int)
    requires Wf(Leaf(a, n, rows), d, 1, lo, hi, m) && |rows| < 2 * d
    requires UpperBound(rows, e.key, i) && AtLeast(lo, e.key) && Below(e.key, hi)
    requires forall r :: r in rows ==> r.key != e.key
    requires l1 == l0.(rows := l0.rows + multiset{e})
    requires a in disk0 && Shows(disk0[a], Leaf(a, n, rows), d)
    requires a in disk1 && disk1 == disk0[a := disk1[a]]
    requires Shaped(disk1[a], d) && disk1[a].leaf && disk1[a].next == n
    requires RowsOf(disk1[a]) == InsertAt(RowsOf(disk0[a]), i, e.rid)
    ensures Grew(d, disk0, l0, disk1, l1, Leaf(a, n, rows), e, [], [Leaf(a, n, InsertAt(rows, i, e))], 1, lo, hi, m,
                 end)
  {
    hide Less, Turns, Wf, Ranged;
    var t, t' := Leaf(a, n, rows), Leaf(a, n, InsertAt(rows, i, e));
    LeafGrows(a, n, rows, i, e, d, lo, hi, m, l0, l1, end);
    assert |rows| == disk0[a].n;
    forall x | 0 <= x < |t'.rows|
      ensures disk1[a].row[x] == t'.rows[x].rid
    {
      assert disk1[a].row[x] == RowsOf(disk1[a])[x];
    }
    assert Rep(disk1, t', d);
  }

  /** A page that keeps the kind and takes other rows shows a leaf with other rows. */
  lemma {:induction false} ShowsLeaf(p: IndexPage, a: int, n: int, rows: seq<Entry>, d: nat)
    requires Shaped(p, d) && p.leaf && p.next == n && p.n == |rows|
    requires forall x :: 0 <= x < |rows| ==> RowsOf(p)[x] == rows[x].rid
    ensures Shows(p, Leaf(a, n, rows), d)
  {
    forall x | 0 <= x < |rows|
      ensures p.row[x] == rows[x].rid
    {
      assert p.row[x] == RowsOf(p)[x];
    }
  }

  /** A full leaf has taken row e at index i and given its upper rows to a new leaf b. */
  lemma {:induction false} LeafSplitGrew(d: nat, disk0: Disk, l0: Ledger, disk1: Disk, l1: Ledger, a: int, b: int,
                                         n: int, rows: seq<Entry>, e: Entry, s: Entry, i: nat, lo: Bound, hi: Bound,
                                         m: nat, end: int)
    requires d >= 2 && Wf(Leaf(a, n, rows), d, 1, lo, hi, m) && |rows| == 2 * d
    requires UpperBound(rows, e.key, i) && AtLeast(lo, e.key) && Below(e.key, hi)
    requires forall r :: r in rows ==> r.key != e.key
    requires s.key == InsertAt(rows, i, e)[d].key
    requires l1 == Ledger(l0.rows + multiset{e}, l0.seps + multiset{s}, l0.pages + multiset{b})
    requires a in disk0 && Shows(disk0[a], Leaf(a, n, rows), d)
    requires a in disk1 && b in disk1 && a != b && b !in l0.pages
    requires OthersStay(disk0, disk1, l0.pages, [a])
    requires Shaped(disk1[a], d) && disk1[a].leaf && disk1[a].next == b
    requires Shaped(disk1[b], d) && disk1[b].leaf && disk1[b].next == n
    requires RowsOf(disk1[a]) == InsertAt(RowsOf(disk0[a]), i, e.rid)[..d]
    requires RowsOf(disk1[b]) == InsertAt(RowsOf(disk0[a]), i, e.rid)[d..]
    ensures var all := InsertAt(rows, i, e);
            Grew(d, disk0, l0, disk1, l1, Leaf(a, n, rows), e, [s], [Leaf(a, b, all[..d]), Leaf(b, n, all[d..])],
                 1, lo, hi, m, end)
  {
    hide Less, Turns, Wf, Ranged;
    var all := InsertAt(rows, i, e);
    LeafSplits(a, b, n, rows, i, e, s, d, lo, hi, m, l0, l1, end);
    var rids := InsertAt(RowsOf(disk0[a]), i, e.rid);
    assert forall x :: 0 <= x < |all| ==> rids[x] == all[x].rid;
    ShowsLeaf(disk1[a], a, b, all[..d], d);
    ShowsLeaf(disk1[b], b, n, all[d..], d);
    assert Rep(disk1, Leaf(a, b, all[..d]), d) && Rep(disk1, Leaf(b, n, all[d..]), d);
  }

  lemma {:induction false} LeafHalvedGrew(d: nat, disk0: Disk, l0: Ledger, disk1: Disk, l1: Ledger, a: int, b: int,
                                          n: int, rows: seq<Entry>, e: Entry, s: Entry, i: nat, lo: Bound, hi: Bound,
                                          m: nat, end: int)
    requires d >= 2 && Wf(Leaf(a, n, rows), d, 1, lo, hi, m) && |rows| == 2 * d
    requires UpperBound(rows, e.key, i) && AtLeast(lo, e.key) && Below(e.key, hi)
    requires forall r :: r in rows ==> r.key != e.key
    requires s.key == InsertAt(rows, i, e)[d].key
    requires l1 == Ledger(l0.rows + multiset{e}, l0.seps + multiset{s}, l0.pages + multiset{b})
    requires a in disk0 && Shows(disk0[a], Leaf(a, n, rows), d)
    requires a in disk1 && b in disk1 && a != b && b !in l0.pages
    requires OthersStay(disk0, disk1, l0.pages, [a])
    requires Halved(disk0[a], d, i, e.rid, disk1[a], disk1[b])
    requires disk1[a].leaf && disk1[a].next == b && disk1[b].leaf && disk1[b].next == n
    ensures var all := InsertAt(rows, i, e);
            Grew(d, disk0, l0, disk1, l1, Leaf(a, n, rows), e, [s], [Leaf(a, b, all[..d]), Leaf(b, n, all[d..])],
                 1, lo, hi, m, end)
  {
    hide Turns, Linked, Grew, InsertAt, Wf;
    LeafSplitGrew(d, disk0, l0, disk1, l1, a, b, n, rows, e, s, i, lo, hi, m, end);
  }

  /** A page shows a node when its rows and children are those of the node. */
  lemma {:induction false} ShowsNode(p: IndexPage, a: int, seps: seq<Entry>, kids: seq<Tree>, d: nat)
    requires Shaped(p, d) && !p.leaf && p.n == |seps| < 2 * d + 1 == |p.child| && |kids| == |seps| + 1
    requires forall x :: 0 <= x < |seps| ==> RowsOf(p)[x] == seps[x].rid
    requires forall x :: 0 <= x < |kids| ==> KidsOf(p)[x] == kids[x].addr
    ensures Shows(p, Node(a, seps, kids), d)
  {
    forall x | 0 <= x < |seps|
      ensures p.row[x] == seps[x].rid
    {
      assert p.row[x] == RowsOf(p)[x];
    }
    forall x | 0 <= x < |kids|
      ensures p.child[x] == kids[x].addr
    {
      assert p.child[x] == KidsOf(p)[x];
    }
  }

  /** No page is counted twice. */
  ghost predicate Once(pages: multiset<int>) {
    forall a :: pages[a] <= 1
  }

  /** The page of a node is not among the pages below it, and those of different kids are disjoint. */
  lemma {:induction false} KidsApart(t: Tree, i: nat, used: multiset<int>)
    requires t.Node? && i < |t.kids| && multiset(Pages(t)) <= used && Once(used)
    ensures t.addr !in ForestPages(t.kids) && t.addr !in Pages(t.kids[i]) && t.addr in used
    ensures forall a :: a in ForestPages(t.kids) ==> a in used
    ensures forall a :: a in Pages(t.kids[i]) ==> a in ForestPages(t.kids)
    ensures forall a :: a in ForestPages(t.kids[..i]) || a in ForestPages(t.kids[i + 1..]) ==>
              a in used && a in ForestPages(t.kids) && a !in Pages(t.kids[i])
  {
    ForestSplit(t.kids, i, i + 1);
    assert t.kids[i..i + 1] == [t.kids[i]];
    ForestOne(t.kids[i]);
    var x, y, z := ForestPages(t.kids[..i]), Pages(t.kids[i]), ForestPages(t.kids[i + 1..]);
    assert multiset(Pages(t)) == multiset{t.addr} + multiset(ForestPages(t.kids));
    assert multiset(ForestPages(t.kids)) == multiset(x) + multiset(y) + multiset(z);
    forall a
      ensures multiset{t.addr}[a] + multiset(x)[a] + multiset(y)[a] + multiset(z)[a] <= used[a] <= 1
    {
      assert multiset(Pages(t))[a] <= used[a];
    }
    SeqCount(x);
    SeqCount(y);
    SeqCount(z);
    SeqCount(ForestPages(t.kids));
    assert multiset{t.addr}[t.addr] == 1;
  }

  lemma {:induction false} SeqCount(s: seq<int>)
    ensures forall a :: a in s <==> multiset(s)[a] > 0
  {
    forall a
      ensures a in s <==> multiset(s)[a] > 0
    {
      assert a in s <==> a in multiset(s);
    }
  }

  /** A change of kid i leaves the other kids and the node's own page alone. */
  lemma {:induction false} SiblingsStay(d: nat, disk0: Disk, disk1: Disk, used: multiset<int>, t: Tree, i: nat)
    requires t.Node? && i < |t.kids| && Rep(disk0, t, d)
    requires multiset(Pages(t)) <= used && Once(used)
    requires OthersStay(disk0, disk1, used, Pages(t.kids[i]))
    ensures RepAll(disk1, t.kids[..i], d) && RepAll(disk1, t.kids[i + 1..], d)
    ensures t.addr in disk1 && disk1[t.addr] == disk0[t.addr]
    ensures OthersStay(disk0, disk1, used, Pages(t))
  {
    KidsApart(t, i, used);
    var l, r := t.kids[..i], t.kids[i + 1..];
    assert RepAll(disk0, l, d) && RepAll(disk0, r, d);
    RepAllFrame(disk0, disk1, l, d);
    RepAllFrame(disk0, disk1, r, d);
    forall a | a !in Pages(t)
      ensures a !in Pages(t.kids[i])
    {
    }
  }

  // ----- Insertion below a node -----

  /** Kid i of t has grown: mid and out stand for it, and the pages and books have gone from 0 to 1. */
  ghost predicate KidGrew(d: nat, disk0: Disk, l0: Ledger, disk1: Disk, l1: Ledger, t: Tree, i: nat, e: Entry,
                          mid: seq<Entry>, out: seq<Tree>, h: nat, lo: Bound, hi: Bound, m: nat, end: int)
  {
    && t.Node? && i < |t.kids| && i <= |t.seps|
    && h > 1 && Wf(t, d, h, lo, hi, m) && Rep(disk0, t, d)
    && multiset(Pages(t)) <= l0.pages && Once(l0.pages) && Once(l1.pages)
    && Grew(d, disk0, l0, disk1, l1, t.kids[i], e, mid, out, h - 1, From(t.seps, i, lo), To(t.seps, i, hi), d,
            First(ForestLeaves(t.kids[i + 1..]), end))
  }

  /** The node with the grown kid, before anything is done about its size. */
  ghost function Widened(t: Tree, i: nat, mid: seq<Entry>, out: seq<Tree>): Tree
    requires t.Node? && i < |t.kids| && i <= |t.seps|
  {
    Node(t.addr, Spliced(t.seps, i, i, mid), Spliced(t.kids, i, i + 1, out))
  }

  /** What is known of the widened node whichever way it goes on. */
  lemma {:induction false} Widening(d: nat, disk0: Disk, l0: Ledger, disk1: Disk, l1: Ledger, t: Tree, i: nat, e: Entry,
                 mid: seq<Entry>, out: seq<Tree>, h: nat, lo: Bound, hi: Bound, m: nat, end: int)
    requires KidGrew(d, disk0, l0, disk1, l1, t, i, e, mid, out, h, lo, hi, m, end)
    ensures var w := Widened(t, i, mid, out);
            && Ranged(w.seps, w.kids, d, h - 1, lo, hi, d)
            && Turns([], [t], l0, [], [w], l1, end)
            && RepAll(disk1, w.kids, d)
            && t.addr !in ForestPages(w.kids)
            && (forall a :: a in ForestPages(w.kids) ==> a in l1.pages)
    ensures t.addr in l0.pages && t.addr in l1.pages && t.addr in disk1 && disk1[t.addr] == disk0[t.addr]
    ensures OthersStay(disk0, disk1, l0.pages, Pages(t))
    ensures forall a :: a in l0.pages && a !in Pages(t) ==> a in l1.pages
  {
    hide Wf, Turns, Separating, Linked, ForestLeaves, Leaves, Rows, ForestRows, Seps, ForestSeps, Less;
    var w := Widened(t, i, mid, out);
    RangedOfNode(t, d, h, lo, hi, m);
    NodeGrows(t.addr, t.seps, t.kids, i, mid, out, d, h - 1, lo, hi, l0, l1, end);
    SiblingsStay(d, disk0, disk1, l0.pages, t, i);
    RepParts(disk1, t.kids[..i], out, t.kids[i + 1..], d);
    WidenedPages(t, i, l0, mid, out, l1, First(ForestLeaves(t.kids[i + 1..]), end));
  }

  lemma {:induction false} RangedOfNode(t: Tree, d: nat, h: nat, lo: Bound, hi: Bound, m: nat)
    requires Wf(t, d, h, lo, hi, m) && t.Node?
    ensures h > 1 && m <= |t.seps| <= 2 * d && Ranged(t.seps, t.kids, d, h - 1, lo, hi, d)
  {
  }

  lemma {:induction false} WidenedPages(t: Tree, i: nat, l0: Ledger, mid: seq<Entry>, out: seq<Tree>, l1: Ledger,
                                        end: int)
    requires t.Node? && i < |t.kids| && i <= |t.seps|
    requires multiset(Pages(t)) <= l0.pages && Once(l0.pages) && Once(l1.pages)
    requires Turns([], [t.kids[i]], l0, mid, out, l1, end)
    ensures var w := Widened(t, i, mid, out);
            && t.addr !in ForestPages(w.kids)
            && (forall a :: a in ForestPages(w.kids) ==> a in l1.pages)
    ensures t.addr in l0.pages && t.addr in l1.pages
    ensures forall a :: a in l0.pages && a !in Pages(t) ==> a in l1.pages
  {
    hide Linked, ForestLeaves, Leaves, Rows, ForestRows, Seps, ForestSeps, ForestPages, Pages;
    var l, r := t.kids[..i], t.kids[i + 1..];
    KidsApart(t, i, l0.pages);
    ForestOfThree(l, out, r);
    ForestOne(t.kids[i]);
    SeqCount(ForestPages(out));
    SeqCount(Pages(t.kids[i]));
    forall a
      ensures multiset(ForestPages(out))[a] + l0.pages[a] == multiset(Pages(t.kids[i]))[a] + l1.pages[a]
    {
      assert (multiset(ForestPages(out)) + l0.pages)[a] == (multiset(Pages(t.kids[i])) + l1.pages)[a];
    }
    KidWithin(t, i, l0.pages);
    NotBelow(t, i);
    assert Spliced(t.kids, i, i + 1, out) == l + out + r;
  }

  lemma {:induction false} NotBelow(t: Tree, i: nat)
    requires t.Node? && i < |t.kids|
    ensures forall a :: a in Pages(t.kids[i]) ==> a in Pages(t)
  {
    KidPart(t.kids, i);
    forall a | a in Pages(t.kids[i])
      ensures a in Pages(t)
    {
      assert a in multiset(Pages(t.kids[i]));
      assert a in ForestPages(t.kids);
    }
  }

  lemma {:induction false} KidWithin(t: Tree, i: nat, used: multiset<int>)
    requires t.Node? && i < |t.kids| && multiset(Pages(t)) <= used
    ensures forall a :: multiset(Pages(t.kids[i]))[a] <= used[a]
  {
    KidPart(t.kids, i);
    assert multiset(Pages(t)) == multiset{t.addr} + multiset(ForestPages(t.kids));
    forall a
      ensures multiset(Pages(t.kids[i]))[a] <= used[a]
    {
      assert multiset(Pages(t.kids[i]))[a] <= multiset(ForestPages(t.kids))[a] <= multiset(Pages(t))[a];
    }
  }

  /** The widened node in terms of what its page has to hold. */
  lemma {:induction false} WidenedRids(p: IndexPage, t: Tree, i: nat, mid: seq<Entry>, out: seq<Tree>, d: nat)
    requires t.Node? && i < |t.kids| && Shows(p, t, d)
    requires (|out| == 1 || |out| == 2) && |mid| == |out| - 1 && out[0].addr == t.kids[i].addr
    ensures var w := Widened(t, i, mid, out);
            if |out| == 1 then
              && |w.seps| == |t.seps| && |w.kids| == |t.kids|
              && (forall x :: 0 <= x < |w.seps| ==> RowsOf(p)[x] == w.seps[x].rid)
              && (forall x :: 0 <= x < |w.kids| ==> KidsOf(p)[x] == w.kids[x].addr)
            else
              && |w.seps| == |t.seps| + 1 && |w.kids| == |t.kids| + 1
              && (forall x :: 0 <= x < |w.seps| ==> InsertAt(RowsOf(p), i, mid[0].rid)[x] == w.seps[x].rid)
              && (forall x :: 0 <= x < |w.kids| ==> InsertAt(KidsOf(p), i + 1, out[1].addr)[x] == w.kids[x].addr)
  {
    var w := Widened(t, i, mid, out);
    assert forall x :: 0 <= x < |t.seps| ==> RowsOf(p)[x] == t.seps[x].rid;
    assert forall x :: 0 <= x < |t.kids| ==> KidsOf(p)[x] == t.kids[x].addr;
    if |out| == 1 {
      SplicedOne(t.seps, i, t.kids, mid, out);
    } else {
      SplicedTwo(t.seps, i, t.kids, mid, out);
      hide Widened, InsertAt, RowsOf, KidsOf, Shows;
      forall x | 0 <= x < |w.seps|
        ensures InsertAt(RowsOf(p), i, mid[0].rid)[x] == w.seps[x].rid
      {
        InsertedAt(RowsOf(p), i, mid[0].rid, x);
        InsertedAt(t.seps, i, mid[0], x);
      }
      forall x | 0 <= x < |w.kids|
        ensures InsertAt(KidsOf(p), i + 1, out[1].addr)[x] == w.kids[x].addr
      {
        InsertedAt(KidsOf(p), i + 1, out[1].addr, x);
        InsertedAt(t.kids[i := out[0]], i + 1, out[1], x);
      }
    }
  }

  lemma {:induction false} SplicedOne(seps: seq<Entry>, i: nat, kids: seq<Tree>, mid: seq<Entry>, out: seq<Tree>)
    requires i < |kids| && i <= |seps| && |out| == 1 && mid == []
    ensures Spliced(seps, i, i, mid) == seps && Spliced(kids, i, i + 1, out) == kids[i := out[0]]
  {
  }

  lemma {:induction false} SplicedTwo(seps: seq<Entry>, i: nat, kids: seq<Tree>, mid: seq<Entry>, out: seq<Tree>)
    requires i < |kids| && i <= |seps| && |out| == 2 && |mid| == 1
    ensures Spliced(seps, i, i, mid) == InsertAt(seps, i, mid[0])
    ensures Spliced(kids, i, i + 1, out) == InsertAt(kids[i := out[0]], i + 1, out[1])
  {
  }

  /** One node alone as the outcome. */
  lemma {:induction false} GrewToOne(d: nat, disk0: Disk, l0: Ledger, disk1: Disk, l1: Ledger, t: Tree, e: Entry,
                                     w: Tree, h: nat, lo: Bound, hi: Bound, m: nat, end: int)
    requires w.Node? && w.addr == t.addr && h > 1 && m <= |w.seps| <= 2 * d
    requires Ranged(w.seps, w.kids, d, h - 1, lo, hi, d) && RepAll(disk1, w.kids, d)
    requires w.addr in disk1 && Shows(disk1[w.addr], w, d)
    requires l1.rows == l0.rows + multiset{e} && Turns([], [t], l0, [], [w], l1, end)
    requires OthersStay(disk0, disk1, l0.pages, Pages(t))
    ensures Grew(d, disk0, l0, disk1, l1, t, e, [], [w], h, lo, hi, m, end)
  {
    hide Turns, Ranged;
    assert Rep(disk1, w, d);
    assert Wf(w, d, h, lo, hi, m);
    RangedOne(w, d, h, lo, hi, m);
  }

  /** Kid i of t has grown without being split: nothing to do. */
  lemma {:induction false} NodeKept(d: nat, disk0: Disk, l0: Ledger, disk1: Disk, l1: Ledger, t: Tree, i: nat, e: Entry,
                 mid: seq<Entry>, out: seq<Tree>, h: nat, lo: Bound, hi: Bound, m: nat, end: int)
    requires KidGrew(d, disk0, l0, disk1, l1, t, i, e, mid, out, h, lo, hi, m, end) && |out| == 1
    ensures Grew(d, disk0, l0, disk1, l1, t, e, [], [Widened(t, i, mid, out)], h, lo, hi, m, end)
  {
    hide Wf, Turns, Ranged, Widened, OthersStay, RepAll, Once;
    Widening(d, disk0, l0, disk1, l1, t, i, e, mid, out, h, lo, hi, m, end);
    WidenedRids(disk0[t.addr], t, i, mid, out, d);
    RangedOfNode(t, d, h, lo, hi, m);
    var w := Widened(t, i, mid, out);
    WidenedTop(t, i, mid, out);
    ShowsNode(disk1[t.addr], t.addr, w.seps, w.kids, d);
    GrewToOne(d, disk0, l0, disk1, l1, t, e, w, h, lo, hi, m, end);
  }

  lemma {:induction false} WidenedTop(t: Tree, i: nat, mid: seq<Entry>, out: seq<Tree>)
    requires t.Node? && i < |t.kids| && i <= |t.seps|
    ensures var w := Widened(t, i, mid, out); w.Node? && w == Node(t.addr, w.seps, w.kids)
  {
  }

  /** Kid i of t has been split and t has room for the new separator and kid. */
  lemma {:induction false} NodeTakes(d: nat, disk0: Disk, l0: Ledger, disk1: Disk, disk2: Disk, l1: Ledger, t: Tree,
                                     i: nat, e: Entry, mid: seq<Entry>, out: seq<Tree>, h: nat, lo: Bound, hi: Bound,
                                     m: nat, end: int)
    requires KidGrew(d, disk0, l0, disk1, l1, t, i, e, mid, out, h, lo, hi, m, end) && |out| == 2
    requires |t.seps| < 2 * d && t.addr in disk2 && disk2 == disk1[t.addr := disk2[t.addr]]
    requires Shaped(disk2[t.addr], d) && !disk2[t.addr].leaf
    requires RowsOf(disk2[t.addr]) == InsertAt(RowsOf(disk0[t.addr]), i, mid[0].rid)
    requires KidsOf(disk2[t.addr]) == InsertAt(KidsOf(disk0[t.addr]), i + 1, out[1].addr)
    ensures Grew(d, disk0, l0, disk2, l1, t, e, [], [Widened(t, i, mid, out)], h, lo, hi, m, end)
  {
    hide Wf, Turns, Ranged, Widened, RepAll, Once;
    Widening(d, disk0, l0, disk1, l1, t, i, e, mid, out, h, lo, hi, m, end);
    WidenedRids(disk0[t.addr], t, i, mid, out, d);
    RangedOfNode(t, d, h, lo, hi, m);
    var w := Widened(t, i, mid, out);
    WidenedTop(t, i, mid, out);
    assert |RowsOf(disk2[t.addr])| == |w.seps|;
    ShowsNode(disk2[t.addr], t.addr, w.seps, w.kids, d);
    RepAllFrame(disk1, disk2, w.kids, d);
    assert t.addr in Pages(t);
    GrewToOne(d, disk0, l0, disk2, l1, t, e, w, h, lo, hi, m, end);
  }

  /** The two halves of a widened node of 2d + 1 separators. */
  ghost function LowerHalf(w: Tree, d: nat): Tree
    requires w.Node? && |w.seps| == 2 * d + 1 && |w.kids| == 2 * d + 2
  {
    Node(w.addr, w.seps[..d], w.kids[..d + 1])
  }

  ghost function UpperHalf(w: Tree, d: nat, b: int): Tree
    requires w.Node? && |w.seps| == 2 * d + 1 && |w.kids| == 2 * d + 2
  {
    Node(b, w.seps[d + 1..], w.kids[d + 1..])
  }

  /** Pages that show the two halves of a widened node. */
  lemma {:induction false} HalvesShown(p: IndexPage, q: IndexPage, w: Tree, d: nat, b: int, rids: seq<Rid>,
                                       addrs: seq<int>)
    requires w.Node? && |w.seps| == 2 * d + 1 == |rids| && |w.kids| == 2 * d + 2 == |addrs|
    requires forall x :: 0 <= x < |w.seps| ==> rids[x] == w.seps[x].rid
    requires forall x :: 0 <= x < |w.kids| ==> addrs[x] == w.kids[x].addr
    requires Shaped(p, d) && !p.leaf && Shaped(q, d) && !q.leaf
    requires RowsOf(p) == rids[..d] && RowsOf(q) == rids[d + 1..]
    requires p.n < |p.child| && q.n < |q.child|
    requires KidsOf(p) == addrs[..d + 1] && KidsOf(q) == addrs[d + 1..]
    ensures Shows(p, LowerHalf(w, d), d) && Shows(q, UpperHalf(w, d, b), d)
  {
    assert |RowsOf(p)| == d && |RowsOf(q)| == d;
    ShowsNode(p, w.addr, w.seps[..d], w.kids[..d + 1], d);
    ShowsNode(q, b, w.seps[d + 1..], w.kids[d + 1..], d);
  }

  /** Two halves of a node as the outcome. */
  lemma {:induction false} GrewToTwo(d: nat, disk0: Disk, l0: Ledger, disk2: Disk, l1: Ledger, l2: Ledger, t: Tree,
                                     e: Entry, w: Tree, b: int, h: nat, lo: Bound, hi: Bound, m: nat, end: int)
    requires w.Node? && w.addr == t.addr && h > 1 && |w.seps| == 2 * d + 1 && |w.kids| == 2 * d + 2
    requires Ranged(w.seps, w.kids, d, h - 1, lo, hi, d) && RepAll(disk2, w.kids, d)
    requires w.addr in disk2 && Shows(disk2[w.addr], LowerHalf(w, d), d)
    requires b in disk2 && Shows(disk2[b], UpperHalf(w, d, b), d)
    requires l1.rows == l0.rows + multiset{e} && Turns([], [t], l0, [], [w], l1, end)
    requires l2 == l1.(pages := l1.pages + multiset{b})
    requires OthersStay(disk0, disk2, l0.pages, Pages(t))
    ensures Grew(d, disk0, l0, disk2, l2, t, e, [w.seps[d]], [LowerHalf(w, d), UpperHalf(w, d, b)], h, lo, hi, m, end)
  {
    hide Turns, Ranged;
    NodeSplits(w.addr, b, w.seps, w.kids, d, h - 1, lo, hi, l1, l2, end);
    assert w == Node(w.addr, w.seps, w.kids);
    TurnsThenTurns([], [t], l0, [], [w], l1, [w.seps[d]], [LowerHalf(w, d), UpperHalf(w, d, b)], l2, end);
    assert Rep(disk2, LowerHalf(w, d), d) && Rep(disk2, UpperHalf(w, d, b), d);
  }

  /** Kid i of t has been split, t is full and is split around its middle separator. */
  lemma {:induction false} NodeHalved(d: nat, disk0: Disk, l0: Ledger, disk1: Disk, l1: Ledger, disk2: Disk,
                                      l2: Ledger, t: Tree, i: nat, e: Entry, mid: seq<Entry>, out: seq<Tree>, b: int,
                                      up: Rid, h: nat, lo: Bound, hi: Bound, m: nat, end: int)
    requires KidGrew(d, disk0, l0, disk1, l1, t, i, e, mid, out, h, lo, hi, m, end) && |out| == 2
    requires d >= 2 && |t.seps| == 2 * d && t.addr in disk2 && b in disk2 && b != t.addr && b !in l1.pages
    requires l2 == l1.(pages := l1.pages + multiset{b})
    requires OthersStay(disk1, disk2, l1.pages, [t.addr])
    requires NodeHalves(disk0[t.addr], d, i, mid[0].rid, out[1].addr, disk2[t.addr], up, disk2[b])
    ensures var w := Widened(t, i, mid, out);
            && w.Node? && |w.seps| == 2 * d + 1 && |w.kids| == 2 * d + 2
            && Grew(d, disk0, l0, disk2, l2, t, e, [w.seps[d]], [LowerHalf(w, d), UpperHalf(w, d, b)], h, lo, hi, m,
                    end)
            && up == w.seps[d].rid
  {
    hide Wf, Turns, Ranged, Widened, RepAll, Once, InsertAt, LowerHalf, UpperHalf;
    Widening(d, disk0, l0, disk1, l1, t, i, e, mid, out, h, lo, hi, m, end);
    ShownTop(disk0, t, d);
    WidenedRids(disk0[t.addr], t, i, mid, out, d);
    var w := Widened(t, i, mid, out);
    WidenedTop(t, i, mid, out);
    var rids, addrs := InsertAt(RowsOf(disk0[t.addr]), i, mid[0].rid),
        InsertAt(KidsOf(disk0[t.addr]), i + 1, out[1].addr);
    InsertedAt(RowsOf(disk0[t.addr]), i, mid[0].rid, d);
    InsertedAt(KidsOf(disk0[t.addr]), i + 1, out[1].addr, d);
    HalvesShown(disk2[t.addr], disk2[b], w, d, b, rids, addrs);
    RepAllPages(disk1, w.kids, d);
    RepAllFrame(disk1, disk2, w.kids, d);
    assert OthersStay(disk0, disk2, l0.pages, Pages(t)) by {
      assert t.addr in Pages(t);
    }
    GrewToTwo(d, disk0, l0, disk2, l1, l2, t, e, w, b, h, lo, hi, m, end);
  }

  lemma {:induction false} ShownTop(disk: Disk, t: Tree, d: nat)
    requires Rep(disk, t, d)
    ensures t.addr in disk && Shows(disk[t.addr], t, d)
  {
  }

  /** The root has been split: a new root b over the two halves. */
  lemma {:induction false} RootGrew(d: nat, disk0: Disk, l0: Ledger, disk1: Disk, l1: Ledger, disk2: Disk, l2: Ledger,
                                    t: Tree, e: Entry, mid: seq<Entry>, out: seq<Tree>, b: int, h: nat, m: nat)
    requires d >= 2 && Booked(t, l0) && Linked(Leaves(t), -1) && h >= 1
    requires Grew(d, disk0, l0, disk1, l1, t, e, mid, out, h, Open, Open, m, -1) && |out| == 2
    requires l2 == l1.(pages := l1.pages + multiset{b}) && b !in l1.pages && b in disk2 && Once(l1.pages)
    requires forall a :: a in l1.pages && a in disk1 ==> a in disk2 && disk2[a] == disk1[a]
    requires Shaped(disk2[b], d) && !disk2[b].leaf
    requires RowsOf(disk2[b]) == [mid[0].rid] && KidsOf(disk2[b]) == [out[0].addr, out[1].addr]
    ensures var r := Node(b, mid, out);
            Rep(disk2, r, d) && Wf(r, d, h + 1, Open, Open, 1) && Booked(r, l2) && Linked(Leaves(r), -1)
  {
    hide Turns, Ranged, Linked, Leaves, Booked;
    var r := Node(b, mid, out);
    Raised(b, mid, out, l1, l2, -1);
    TurnsThenTurns([], [t], l0, mid, out, l1, [], [r], l2, -1);
    StillBooked(t, l0, r, l2, -1);
    assert |mid| == 1 && out == [out[0], out[1]];
    assert disk2[b].n == |RowsOf(disk2[b])| == 1;
    ShowsNode(disk2[b], b, mid, out, d);
    BookedPages(r, l2, l1.pages, b);
    RepAllFrame(disk1, disk2, out, d);
  }

  lemma {:induction false} BookedPages(r: Tree, l: Ledger, used: multiset<int>, b: int)
    requires r.Node? && r.addr == b && Booked(r, l) && l.pages == used + multiset{b}
    ensures forall a :: a in ForestPages(r.kids) ==> a in used
  {
    assert multiset(Pages(r)) == multiset{b} + multiset(ForestPages(r.kids));
    SeqCount(ForestPages(r.kids));
    forall a
      ensures multiset(ForestPages(r.kids))[a] == used[a]
    {
      assert (multiset{b} + multiset(ForestPages(r.kids)))[a] == (used + multiset{b})[a];
    }
  }

  /** The root has not been split. */
  lemma {:induction false} RootKept(d: nat, disk0: Disk, l0: Ledger, disk1: Disk, l1: Ledger, t: Tree, e: Entry,
                 mid: seq<Entry>, out: seq<Tree>, h: nat, m: nat)
    requires Booked(t, l0) && Linked(Leaves(t), -1)
    requires Grew(d, disk0, l0, disk1, l1, t, e, mid, out, h, Open, Open, m, -1) && |out| == 1
    ensures Rep(disk1, out[0], d) && Wf(out[0], d, h, Open, Open, m) && Booked(out[0], l1) && Linked(Leaves(out[0]), -1)
  {
    hide Turns, Linked, Leaves, Booked, Wf;
    assert out == [out[0]] && mid == [];
    RangedOne(out[0], d, h, Open, Open, m);
    StillBooked(t, l0, out[0], l1, -1);
  }

  // ----- Deletion -----

  /** Kid i of t is c now, which has lost row e and may be one entry short; all else is in order. */
  ghost predicate Thin(d: nat, disk0: Disk, l0: Ledger, disk1: Disk, l1: Ledger, t: Tree, i: nat, e: Entry, c: Tree,
                       h: nat, lo: Bound, hi: Bound, end: int)
  {
    && t.Node? && i < |t.kids| && h > 1 && d >= 1
    && c.addr == t.kids[i].addr && (c.Leaf? <==> t.kids[i].Leaf?)
    && |t.seps| <= 2 * d && Ranged(t.seps, t.kids, d, h - 1, lo, hi, d)
    && Wf(c, d, h - 1, From(t.seps, i, lo), To(t.seps, i, hi), d - 1)
    && Rep(disk1, With(t, i, c), d)
    && multiset(Pages(With(t, i, c))) <= l1.pages && Once(l1.pages)
    && l1.rows + multiset{e} == l0.rows
    && Turns(t.seps, t.kids, l0, t.seps, t.kids[i := c], l1, end)
    && Linked(ForestLeaves(t.kids[i := c]), end)
    && t.addr in disk0 && t.addr in disk1 && disk1[t.addr] == disk0[t.addr]
    && OthersStay(disk0, disk1, l0.pages, Pages(t))
    && (forall a :: a in l0.pages && a !in Pages(t) ==> a in l1.pages && a !in Pages(With(t, i, c)))
  }

  /**
   Of t, only kids j and j + 1, and the separator between them, have become others, which are one or two kids in w.
   */
  ghost predicate Around(t: Tree, j: int, w: Tree) {
    && t.Node? && w.Node? && |t.kids| == |t.seps| + 1 && |w.kids| == |w.seps| + 1
    && 0 <= j && j + 1 < |t.kids| && |t.kids| - 1 <= |w.kids| <= |t.kids|
    && var m := |w.kids| - |t.kids| + 2;
    && w.kids[..j] == t.kids[..j] && w.kids[j + m..] == t.kids[j + 2..]
    && w.seps[..j] == t.seps[..j] && w.seps[j + m - 1..] == t.seps[j + 1..]
  }

  /** Kid i, and its right neighbour if it has one, or else its left one, are all that has changed. */
  ghost predicate Beside(t: Tree, i: int, w: Tree) {
    t.Node? && Around(t, if i < |t.seps| then i else i - 1, w)
  }

  lemma {:induction false} SplicedAround(t: Tree, j: nat, mid: seq<Entry>, out: seq<Tree>)
    requires t.Node? && |t.kids| == |t.seps| + 1 && j + 1 < |t.kids| && 1 <= |out| <= 2 && |mid| == |out| - 1
    ensures Around(t, j, Node(t.addr, Spliced(t.seps, j, j + 1, mid), Spliced(t.kids, j, j + 2, out)))
  {
  }

  lemma {:induction false} WithBeside(t: Tree, i: nat, k: Tree)
    requires t.Node? && |t.kids| == |t.seps| + 1 && i < |t.kids| && |t.seps| >= 1
    ensures Beside(t, i, With(t, i, k))
  {
  }

  /** The numbers of kids and separators. */
  lemma {:induction false} ThinShape(d: nat, disk0: Disk, l0: Ledger, disk1: Disk, l1: Ledger, t: Tree, i: nat,
                                     e: Entry, c: Tree, h: nat, lo: Bound, hi: Bound, end: int)
    requires Thin(d, disk0, l0, disk1, l1, t, i, e, c, h, lo, hi, end)
    ensures t.Node? && |t.kids| == |t.seps| + 1
  {
    hide Turns, Separating, Linked, ForestLeaves, Sorted, Rep, OthersStay, Once;
  }

  /**
   Row e has gone from below t, and w is what t is to be. With pend == -1 that is what the page
   of t shows. Otherwise separator pend and the kid to its right have still to be taken off
   that page; the books are those without this separator.
   */
  ghost predicate Shrunk(d: nat, disk0: Disk, l0: Ledger, disk1: Disk, l1: Ledger, t: Tree, e: Entry, pend: int,
                         w: Tree, h: nat, lo: Bound, hi: Bound, end: int)
  {
    && t.Node? && w.Node? && w.addr == t.addr && h > 1
    && Ranged(w.seps, w.kids, d, h - 1, lo, hi, d)
    && RepAll(disk1, w.kids, d)
    && l1.rows + multiset{e} == l0.rows
    && Turns(t.seps, t.kids, l0, w.seps, w.kids, l1, end)
    && t.addr in disk0 && t.addr in disk1
    && (if pend == -1 then
          Shows(disk1[t.addr], w, d) && |w.seps| == |t.seps|
        else
          && 0 <= pend < |t.seps| && |t.kids| == |t.seps| + 1
          && disk1[t.addr] == disk0[t.addr]
          && w.seps == RemoveAt(t.seps, pend)
          && |w.kids| == |t.kids| - 1
          && (forall x :: 0 <= x < |w.kids| ==> w.kids[x].addr == RemoveAt(t.kids, pend + 1)[x].addr))
    && OthersStay(disk0, disk1, l0.pages, Pages(t))
  }

  /** The kid has enough entries left. */
  lemma {:induction false} ThinEnough(d: nat, disk0: Disk, l0: Ledger, disk1: Disk, l1: Ledger, t: Tree, i: nat,
                                      e: Entry, c: Tree, h: nat, lo: Bound, hi: Bound, end: int)
    requires Thin(d, disk0, l0, disk1, l1, t, i, e, c, h, lo, hi, end)
    requires d <= if c.Leaf? then |c.rows| else |c.seps|
    ensures Shrunk(d, disk0, l0, disk1, l1, t, e, -1, With(t, i, c), h, lo, hi, end)
  {
    hide Turns, Separating, Linked, ForestLeaves, Sorted;
    var w := With(t, i, c);
    RangedSizes(t.seps, t.kids, d, h - 1, lo, hi, d);
    assert Wf(c, d, h - 1, From(t.seps, i, lo), To(t.seps, i, hi), d);
    assert Ranged(w.seps, w.kids, d, h - 1, lo, hi, d);
  }

  /** Only the control page and the pages x, y and z differ. */
  ghost predicate Touched(disk1: Disk, disk2: Disk, x: int, y: int, z: int) {
    forall a :: a in disk1 && a != 0 && a != x && a != y && a != z ==> a in disk2 && disk2[a] == disk1[a]
  }

  ghost predicate Aside(pages: seq<int>, x: int, y: int, z: int) {
    x !in pages && y !in pages && z !in pages && 0 !in pages
  }

  lemma {:induction false} AsideStays(disk1: Disk, disk2: Disk, ks: seq<Tree>, d: nat, x: int, y: int, z: int)
    requires RepAll(disk1, ks, d) && Touched(disk1, disk2, x, y, z) && Aside(ForestPages(ks), x, y, z)
    ensures RepAll(disk2, ks, d)
  {
    RepAllFrame(disk1, disk2, ks, d);
  }

  /** The kids below a tree, none for a leaf. */
  ghost function Below1(t: Tree): seq<Tree> {
    if t.Leaf? then [] else t.kids
  }

  lemma {:induction false} TopApart(t: Tree, used: multiset<int>)
    requires multiset(Pages(t)) <= used && Once(used)
    ensures t.addr !in ForestPages(Below1(t)) && t.addr in Pages(t)
    ensures forall a :: a in ForestPages(Below1(t)) ==> a in Pages(t)
    ensures forall a :: a in Pages(t) ==> a in used
  {
    assert multiset(Pages(t)) == multiset{t.addr} + multiset(ForestPages(Below1(t)));
    SeqCount(ForestPages(Below1(t)));
    SeqCount(Pages(t));
    forall a
      ensures multiset(Pages(t))[a] <= used[a] <= 1
    {
    }
  }

  lemma {:induction false} KidUsed(t: Tree, j: nat, used: multiset<int>)
    requires t.Node? && j < |t.kids| && multiset(Pages(t)) <= used
    ensures multiset(Pages(t.kids[j])) <= used
  {
    KidPart(t.kids, j);
    assert multiset(Pages(t)) == multiset{t.addr} + multiset(ForestPages(t.kids));
    assert multiset(ForestPages(t.kids)) <= used;
  }

  lemma {:induction false} PairApart(t: Tree, j: nat, used: multiset<int>)
    requires t.Node? && j + 1 < |t.kids| && multiset(Pages(t)) <= used && Once(used) && 0 !in used
    ensures var x, y, z := t.addr, t.kids[j].addr, t.kids[j + 1].addr;
            && x != y && x != z && y != z && x in used && y in used && z in used
            && Aside(ForestPages(t.kids[..j]), x, y, z) && Aside(ForestPages(t.kids[j + 2..]), x, y, z)
            && Aside(ForestPages(Below1(t.kids[j])), x, y, z) && Aside(ForestPages(Below1(t.kids[j + 1])), x, y, z)
            && x !in ForestPages(t.kids)
    ensures t.kids[j].addr in Pages(t) && t.kids[j + 1].addr in Pages(t) && t.addr in Pages(t)
  {
    hide ForestPages, Pages, Once;
    KidsApart(t, j, used);
    KidsApart(t, j + 1, used);
    KidUsed(t, j, used);
    KidUsed(t, j + 1, used);
    TopApart(t, used);
    TopApart(t.kids[j], used);
    TopApart(t.kids[j + 1], used);
    assert t.kids[..j + 1] == t.kids[..j] + [t.kids[j]];
    assert t.kids[j + 1..] == [t.kids[j + 1]] + t.kids[j + 2..];
    PagesAppend(t.kids[..j], [t.kids[j]]);
    PagesAppend([t.kids[j + 1]], t.kids[j + 2..]);
    ForestOne(t.kids[j]);
    ForestOne(t.kids[j + 1]);
  }

  lemma {:induction false} RepKids(disk: Disk, t: Tree, d: nat)
    requires Rep(disk, t, d)
    ensures RepAll(disk, Below1(t), d)
    ensures forall i :: 0 <= i < |Below1(t)| ==> Rep(disk, Below1(t)[i], d)
  {
  }

  lemma {:induction false} RepSlice(disk: Disk, ks: seq<Tree>, i: nat, j: nat, d: nat)
    requires RepAll(disk, ks, d) && i <= j <= |ks|
    ensures RepAll(disk, ks[i..j], d)
  {
  }

  /** The kids around and below a pair are where they were after the pair has been worked on. */
  lemma {:induction false} AroundPair(d: nat, disk0: Disk, l0: Ledger, disk1: Disk, l1: Ledger, disk2: Disk, t: Tree,
                                      i: nat, e: Entry, c: Tree, j: nat, h: nat, lo: Bound, hi: Bound, end: int)
    requires Thin(d, disk0, l0, disk1, l1, t, i, e, c, h, lo, hi, end) && 0 !in l1.pages
    requires j < |t.seps| && (i == j || i == j + 1)
    requires Touched(disk1, disk2, t.addr, t.kids[j].addr, t.kids[j + 1].addr)
    ensures RepAll(disk2, t.kids[..j], d) && RepAll(disk2, t.kids[j + 2..], d)
    ensures var k := t.kids[i := c];
            && RepAll(disk2, Below1(k[j]), d) && RepAll(disk2, Below1(k[j + 1]), d)
            && Rep(disk1, k[j], d) && Rep(disk1, k[j + 1], d)
            && t.addr in l1.pages && k[j].addr in l1.pages && k[j + 1].addr in l1.pages
    ensures OthersStay(disk0, disk2, l0.pages, Pages(t))
    ensures |t.kids| == |t.seps| + 1
    ensures t.addr in disk0 && Shows(disk0[t.addr], t, d)
    ensures t.addr != t.kids[j].addr && t.addr != t.kids[j + 1].addr && t.kids[j].addr != t.kids[j + 1].addr
  {
    hide Turns, Linked, ForestLeaves, Wf, Separating, ForestPages, Pages;
    var w := With(t, i, c);
    RangedSizes(t.seps, t.kids, d, h - 1, lo, hi, d);
    PairApart(w, j, l1.pages);
    var x, y, z := t.addr, t.kids[j].addr, t.kids[j + 1].addr;
    assert w.kids[..j] == t.kids[..j] && w.kids[j + 2..] == t.kids[j + 2..];
    RepKids(disk1, w, d);
    RepSlice(disk1, w.kids, 0, j, d);
    RepSlice(disk1, w.kids, j + 2, |w.kids|, d);
    assert w.kids[0..j] == w.kids[..j] && w.kids[j + 2..|w.kids|] == w.kids[j + 2..];
    AsideStays(disk1, disk2, w.kids[..j], d, x, y, z);
    AsideStays(disk1, disk2, w.kids[j + 2..], d, x, y, z);
    RepKids(disk1, w.kids[j], d);
    RepKids(disk1, w.kids[j + 1], d);
    AsideStays(disk1, disk2, Below1(w.kids[j]), d, x, y, z);
    AsideStays(disk1, disk2, Below1(w.kids[j + 1]), d, x, y, z);
    OthersBeyond(disk0, disk1, disk2, l0.pages, l1.pages, t, w, x, y, z);
  }

  lemma {:induction false} OthersBeyond(disk0: Disk, disk1: Disk, disk2: Disk, used0: multiset<int>,
                                        used1: multiset<int>, t: Tree, w: Tree, x: int, y: int, z: int)
    requires OthersStay(disk0, disk1, used0, Pages(t)) && Touched(disk1, disk2, x, y, z) && 0 !in used1
    requires forall a :: a in used0 && a !in Pages(t) ==> a in used1 && a !in Pages(w)
    requires x in Pages(w) && y in Pages(w) && z in Pages(w)
    ensures OthersStay(disk0, disk2, used0, Pages(t))
  {
  }

  /** The page of the parent after one separator has been exchanged. */
  lemma {:induction false} SharedPage(p: IndexPage, q: IndexPage, t: Tree, w: Tree, j: nat, s1: Entry, d: nat)
    requires t.Node? && w.Node? && Shows(p, t, d) && j < |t.seps|
    requires q == p.(row := p.row[j := s1.rid])
    requires w.seps == t.seps[..j] + [s1] + t.seps[j + 1..] && |w.kids| == |t.kids|
    requires forall x :: 0 <= x < |w.kids| ==> w.kids[x].addr == t.kids[x].addr
    ensures Shows(q, w, d)
  {
    assert forall x :: 0 <= x < |w.seps| ==> w.seps[x] == (if x == j then s1 else t.seps[x]);
  }

  lemma {:induction false} ThinFacts(d: nat, disk0: Disk, l0: Ledger, disk1: Disk, l1: Ledger, t: Tree, i: nat,
                                     e: Entry, c: Tree, h: nat, lo: Bound, hi: Bound, end: int)
    requires Thin(d, disk0, l0, disk1, l1, t, i, e, c, h, lo, hi, end)
    ensures t.Node? && i < |t.kids| && h > 1 && |t.seps| <= 2 * d && Ranged(t.seps, t.kids, d, h - 1, lo, hi, d)
    ensures Turns(t.seps, t.kids, l0, t.seps, t.kids[i := c], l1, end) && l1.rows + multiset{e} == l0.rows
    ensures t.addr in disk0 && t.addr in disk1 && disk1[t.addr] == disk0[t.addr] && c.addr == t.kids[i].addr
  {
    hide Turns, Ranged, Linked, Wf, Rep, OthersStay;
  }

  lemma {:induction false} RepOne(disk: Disk, t: Tree, d: nat)
    requires Rep(disk, t, d)
    ensures RepAll(disk, [t], d)
  {
    hide Rep;
  }

  lemma {:induction false} RepTwo(disk: Disk, s: Tree, t: Tree, d: nat)
    requires Rep(disk, s, d) && Rep(disk, t, d)
    ensures RepAll(disk, [s, t], d)
  {
    hide Rep;
  }

  /** The pair shares its entries anew and the separator between them is s1 now. */
  lemma {:induction false} PairShared(d: nat, disk0: Disk, l0: Ledger, disk1: Disk, l1: Ledger, disk2: Disk,
                                      l2: Ledger, t: Tree, i: nat, e: Entry, c: Tree, j: nat, s1: Entry, left: Tree,
                                      right: Tree, h: nat, lo: Bound, hi: Bound, end: int)
    requires Thin(d, disk0, l0, disk1, l1, t, i, e, c, h, lo, hi, end) && 0 !in l1.pages
    requires j < |t.seps| && (i == j || i == j + 1)
    requires Touched(disk1, disk2, t.addr, t.kids[j].addr, t.kids[j + 1].addr)
    requires left.addr == t.kids[j].addr && right.addr == t.kids[j + 1].addr
    requires Rep(disk2, left, d) && Rep(disk2, right, d)
    requires Ranged([s1], [left, right], d, h - 1, From(t.seps, j, lo), To(t.seps, j + 1, hi), d)
    requires Turns([t.seps[j]], t.kids[i := c][j..j + 2], l1, [s1], [left, right], l2,
                   First(ForestLeaves(t.kids[j + 2..]), end))
    requires l2.rows == l1.rows
    requires t.addr in disk2 && disk2[t.addr].BNode? && disk1[t.addr].BNode? && j < |disk1[t.addr].row|
    requires disk2[t.addr] == disk1[t.addr].(row := disk1[t.addr].row[j := s1.rid])
    ensures var w := Node(t.addr, Spliced(t.seps, j, j + 1, [s1]), Spliced(t.kids, j, j + 2, [left, right]));
            Shrunk(d, disk0, l0, disk2, l2, t, e, -1, w, h, lo, hi, end)
  {
    hide Thin, Turns, Linked, ForestLeaves, Wf, Separating, ForestPages, Pages, Touched, Aside, OthersStay, RepAll,
         Ranged;
    ThinFacts(d, disk0, l0, disk1, l1, t, i, e, c, h, lo, hi, end);
    AroundPair(d, disk0, l0, disk1, l1, disk2, t, i, e, c, j, h, lo, hi, end);
    var w := Node(t.addr, Spliced(t.seps, j, j + 1, [s1]), Spliced(t.kids, j, j + 2, [left, right]));
    PairTurns(t, i, c, j, [s1], [left, right], d, h - 1, lo, hi, l0, l1, l2, end);
    RepTwo(disk2, left, right, d);
    RepParts(disk2, t.kids[..j], [left, right], t.kids[j + 2..], d);
    assert forall x :: 0 <= x < |w.kids| ==> w.kids[x].addr == t.kids[x].addr;
    SharedPage(disk1[t.addr], disk2[t.addr], t, w, j, s1, d);
  }

  /** The pair has become one tree; separator j and kid j + 1 have to be taken off the page of t. */
  lemma {:induction false} PairMerged(d: nat, disk0: Disk, l0: Ledger, disk1: Disk, l1: Ledger, disk2: Disk,
                                      l2: Ledger, t: Tree, i: nat, e: Entry, c: Tree, j: nat, one: Tree, h: nat,
                                      lo: Bound, hi: Bound, end: int)
    requires Thin(d, disk0, l0, disk1, l1, t, i, e, c, h, lo, hi, end) && 0 !in l1.pages
    requires j < |t.seps| && (i == j || i == j + 1)
    requires Touched(disk1, disk2, t.addr, t.kids[j].addr, t.kids[j + 1].addr)
    requires one.addr == t.kids[j].addr && Rep(disk2, one, d)
    requires Ranged([], [one], d, h - 1, From(t.seps, j, lo), To(t.seps, j + 1, hi), d)
    requires Turns([t.seps[j]], t.kids[i := c][j..j + 2], l1, [], [one], l2, First(ForestLeaves(t.kids[j + 2..]), end))
    requires l2.rows == l1.rows
    requires t.addr in disk2 && disk2[t.addr] == disk1[t.addr]
    ensures var w := Node(t.addr, Spliced(t.seps, j, j + 1, []), Spliced(t.kids, j, j + 2, [one]));
            Shrunk(d, disk0, l0, disk2, l2, t, e, j, w, h, lo, hi, end)
  {
    hide Thin, Turns, Linked, ForestLeaves, Wf, Separating, ForestPages, Pages, Touched, Aside, OthersStay, RepAll,
         Ranged;
    ThinFacts(d, disk0, l0, disk1, l1, t, i, e, c, h, lo, hi, end);
    AroundPair(d, disk0, l0, disk1, l1, disk2, t, i, e, c, j, h, lo, hi, end);
    var w := Node(t.addr, Spliced(t.seps, j, j + 1, []), Spliced(t.kids, j, j + 2, [one]));
    PairTurns(t, i, c, j, [], [one], d, h - 1, lo, hi, l0, l1, l2, end);
    RepOne(disk2, one, d);
    RepParts(disk2, t.kids[..j], [one], t.kids[j + 2..], d);
    assert w.seps == RemoveAt(t.seps, j);
    assert forall x :: 0 <= x < |w.kids| ==> w.kids[x].addr == RemoveAt(t.kids, j + 1)[x].addr;
  }

  /** The intervals of a pair of neighbours. */
  lemma {:induction false} PairBounds(t: Tree, i: nat, c: Tree, j: nat, d: nat, h: nat, lo: Bound, hi: Bound)
    requires t.Node? && Ranged(t.seps, t.kids, d, h, lo, hi, d) && i < |t.kids| && d >= 1
    requires j < |t.seps| && (i == j || i == j + 1)
    requires Wf(c, d, h, From(t.seps, i, lo), To(t.seps, i, hi), d - 1)
    ensures |t.kids| == |t.seps| + 1
    ensures var k, l, r := t.kids[i := c], From(t.seps, j, lo), To(t.seps, j + 1, hi);
            && Wf(k[j], d, h, l, At(t.seps[j].key), d - 1) && Wf(k[j + 1], d, h, At(t.seps[j].key), r, d - 1)
            && Above(l, t.seps[j].key) && Below(t.seps[j].key, r)
            && k[j..j + 2] == [k[j], k[j + 1]]
  {
    hide Less, Wf;
    RangedSizes(t.seps, t.kids, d, h, lo, hi, d);
    TotalOrder();
    FewerOk(t.kids[j], d, h, From(t.seps, j, lo), To(t.seps, j, hi));
    FewerOk(t.kids[j + 1], d, h, From(t.seps, j + 1, lo), To(t.seps, j + 1, hi));
  }

  lemma {:induction false} FewerOk(t: Tree, d: nat, h: nat, lo: Bound, hi: Bound)
    requires d >= 1
    ensures Wf(t, d, h, lo, hi, d) ==> Wf(t, d, h, lo, hi, d - 1)
  {
  }

  /** A pair of leaves, at x and y, with rows r and q, of which one is the thin kid. */
  ghost predicate LeafPairAt(t: Tree, i: nat, c: Tree, j: nat, x: int, y: int, n: int, r: seq<Entry>, q: seq<Entry>) {
    && t.Node? && i < |t.kids| && j + 1 < |t.kids|
    && t.kids[i := c][j].Leaf? && t.kids[i := c][j + 1] == Leaf(y, n, q)
    && t.kids[i := c][j].addr == x && t.kids[i := c][j].rows == r
  }

  lemma {:induction false} LeafPairShared(d: nat, disk0: Disk, l0: Ledger, disk1: Disk, l1: Ledger, disk2: Disk,
                                          l2: Ledger, t: Tree, i: nat, e: Entry, c: Tree, j: nat, x: int, y: int,
                                          n: int, r: seq<Entry>, q: seq<Entry>, s1: Entry, p: nat, h: nat, lo: Bound,
                                          hi: Bound, end: int)
    requires Thin(d, disk0, l0, disk1, l1, t, i, e, c, h, lo, hi, end) && 0 !in l1.pages
    requires j < |t.seps| && (i == j || i == j + 1) && LeafPairAt(t, i, c, j, x, y, n, r, q)
    requires d <= p <= 2 * d && d <= |r| + |q| - p <= 2 * d && s1.key == (r + q)[p].key
    requires l2 == l1.(seps := l2.seps) && multiset{s1} + l1.seps == multiset{t.seps[j]} + l2.seps
    requires Touched(disk1, disk2, t.addr, x, y) && x in disk2 && y in disk2
    requires Shows(disk2[x], Leaf(x, y, (r + q)[..p]), d) && Shows(disk2[y], Leaf(y, n, (r + q)[p..]), d)
    requires t.addr in disk2 && disk2[t.addr].BNode? && disk1[t.addr].BNode? && j < |disk1[t.addr].row|
    requires disk2[t.addr] == disk1[t.addr].(row := disk1[t.addr].row[j := s1.rid])
    ensures var out := [Leaf(x, y, (r + q)[..p]), Leaf(y, n, (r + q)[p..])];
            j + 2 <= |t.kids| && Shrunk(d, disk0, l0, disk2, l2, t, e, -1,
              Node(t.addr, Spliced(t.seps, j, j + 1, [s1]), Spliced(t.kids, j, j + 2, out)), h, lo, hi, end)
  {
    hide Turns, Linked, ForestLeaves, Separating, ForestPages, Pages, Touched, Shrunk, Sorted, Less;
    var k, l, u := t.kids[i := c], From(t.seps, j, lo), To(t.seps, j + 1, hi);
    PairBounds(t, i, c, j, d, h - 1, lo, hi);
    NextLeaf(k, j, end);
    assert k[j] == Leaf(x, y, r);
    var left, right := Leaf(x, y, (r + q)[..p]), Leaf(y, n, (r + q)[p..]);
    LeavesShare(x, y, n, t.seps[j], r, q, s1, p, d, l, u, l1, l2, First(ForestLeaves(t.kids[j + 2..]), end));
    assert Rep(disk2, left, d) && Rep(disk2, right, d);
    PairShared(d, disk0, l0, disk1, l1, disk2, l2, t, i, e, c, j, s1, left, right, h, lo, hi, end);
  }

  lemma {:induction false} LeafPairMerged(d: nat, disk0: Disk, l0: Ledger, disk1: Disk, l1: Ledger, disk2: Disk,
                                          l2: Ledger, t: Tree, i: nat, e: Entry, c: Tree, j: nat, x: int, y: int,
                                          n: int, r: seq<Entry>, q: seq<Entry>, h: nat, lo: Bound, hi: Bound, end: int)
    requires Thin(d, disk0, l0, disk1, l1, t, i, e, c, h, lo, hi, end) && 0 !in l1.pages
    requires j < |t.seps| && (i == j || i == j + 1) && LeafPairAt(t, i, c, j, x, y, n, r, q)
    requires d <= |r| + |q| <= 2 * d
    requires l2.rows == l1.rows && l2.seps + multiset{t.seps[j]} == l1.seps && l2.pages + multiset{y} == l1.pages
    requires Touched(disk1, disk2, t.addr, x, y) && x in disk2
    requires Shows(disk2[x], Leaf(x, n, r + q), d)
    requires t.addr in disk2 && disk2[t.addr] == disk1[t.addr]
    ensures j + 2 <= |t.kids| && Shrunk(d, disk0, l0, disk2, l2, t, e, j,
                                        Node(t.addr, Spliced(t.seps, j, j + 1, []),
                                             Spliced(t.kids, j, j + 2, [Leaf(x, n, r + q)])), h, lo, hi, end)
  {
    hide Turns, Linked, ForestLeaves, Separating, ForestPages, Pages, Touched, Shrunk, Sorted, Less;
    var k, l, u := t.kids[i := c], From(t.seps, j, lo), To(t.seps, j + 1, hi);
    PairBounds(t, i, c, j, d, h - 1, lo, hi);
    NextLeaf(k, j, end);
    assert k[j] == Leaf(x, y, r);
    LeavesMerge(x, y, n, t.seps[j], r, q, d, l, u, l1, l2, First(ForestLeaves(t.kids[j + 2..]), end));
    assert Rep(disk2, Leaf(x, n, r + q), d);
    PairMerged(d, disk0, l0, disk1, l1, disk2, l2, t, i, e, c, j, Leaf(x, n, r + q), h, lo, hi, end);
  }

  /** A pair of inner nodes, at x and y, of which one is the thin kid. */
  ghost predicate NodePairAt(t: Tree, i: nat, c: Tree, j: nat, x: int, y: int,
                             sl: seq<Entry>, kl: seq<Tree>, sr: seq<Entry>, kr: seq<Tree>) {
    && t.Node? && i < |t.kids| && j + 1 < |t.kids|
    && t.kids[i := c][j] == Node(x, sl, kl) && t.kids[i := c][j + 1] == Node(y, sr, kr)
  }

  lemma {:induction false} PairKidsRep(d: nat, disk0: Disk, l0: Ledger, disk1: Disk, l1: Ledger, disk2: Disk, t: Tree,
                                       i: nat, e: Entry, c: Tree, j: nat, x: int, y: int, sl: seq<Entry>,
                                       kl: seq<Tree>, sr: seq<Entry>, kr: seq<Tree>, h: nat, lo: Bound, hi: Bound,
                                       end: int)
    requires Thin(d, disk0, l0, disk1, l1, t, i, e, c, h, lo, hi, end) && 0 !in l1.pages
    requires j < |t.seps| && (i == j || i == j + 1) && NodePairAt(t, i, c, j, x, y, sl, kl, sr, kr)
    requires Touched(disk1, disk2, t.addr, x, y)
    ensures RepAll(disk2, kl + kr, d) && y in l1.pages && x == t.kids[j].addr && y == t.kids[j + 1].addr
  {
    hide Turns, Linked, ForestLeaves, Wf, Separating, ForestPages, Pages, Touched, Aside;
    AroundPair(d, disk0, l0, disk1, l1, disk2, t, i, e, c, j, h, lo, hi, end);
    RepParts(disk2, kl, kr, [], d);
    assert kl + kr + [] == kl + kr;
  }

  lemma {:induction false} NodePairShared(d: nat, disk0: Disk, l0: Ledger, disk1: Disk, l1: Ledger, disk2: Disk,
                           t: Tree, i: nat, e: Entry, c: Tree, j: nat, x: int, y: int,
                           sl: seq<Entry>, kl: seq<Tree>, sr: seq<Entry>, kr: seq<Tree>,
                           p: nat, h: nat, lo: Bound, hi: Bound, end: int)
    requires Thin(d, disk0, l0, disk1, l1, t, i, e, c, h, lo, hi, end) && 0 !in l1.pages
    requires j < |t.seps| && (i == j || i == j + 1) && NodePairAt(t, i, c, j, x, y, sl, kl, sr, kr)
    requires d <= p <= 2 * d && d <= |sl| + |sr| - p <= 2 * d && |kl| == |sl| + 1 && |kr| == |sr| + 1
    requires Touched(disk1, disk2, t.addr, x, y) && x in disk2 && y in disk2
    requires var all, kids := sl + [t.seps[j]] + sr, kl + kr;
             && Shows(disk2[x], Node(x, all[..p], kids[..p + 1]), d)
             && Shows(disk2[y], Node(y, all[p + 1..], kids[p + 1..]), d)
    requires t.addr in disk2 && disk2[t.addr].BNode? && disk1[t.addr].BNode? && j < |disk1[t.addr].row|
    requires disk2[t.addr] == disk1[t.addr].(row := disk1[t.addr].row[j := (sl + [t.seps[j]] + sr)[p].rid])
    ensures var all, kids := sl + [t.seps[j]] + sr, kl + kr;
            var out := [Node(x, all[..p], kids[..p + 1]), Node(y, all[p + 1..], kids[p + 1..])];
            j + 2 <= |t.kids| && Shrunk(d, disk0, l0, disk2, l1, t, e, -1,
              Node(t.addr, Spliced(t.seps, j, j + 1, [all[p]]), Spliced(t.kids, j, j + 2, out)), h, lo, hi, end)
  {
    hide Turns, Linked, ForestLeaves, Separating, ForestPages, Pages, Touched, Shrunk, Less;
    var all, kids := sl + [t.seps[j]] + sr, kl + kr;
    var left, right := Node(x, all[..p], kids[..p + 1]), Node(y, all[p + 1..], kids[p + 1..]);
    PairBounds(t, i, c, j, d, h - 1, lo, hi);
    PairKidsRep(d, disk0, l0, disk1, l1, disk2, t, i, e, c, j, x, y, sl, kl, sr, kr, h, lo, hi, end);
    NodesShare(x, y, sl, kl, t.seps[j], sr, kr, p, d, h - 2, From(t.seps, j, lo), To(t.seps, j + 1, hi), l1,
               First(ForestLeaves(t.kids[j + 2..]), end));
    RepSlice(disk2, kids, 0, p + 1, d);
    RepSlice(disk2, kids, p + 1, |kids|, d);
    assert kids[0..p + 1] == kids[..p + 1] && kids[p + 1..|kids|] == kids[p + 1..];
    assert Rep(disk2, left, d) && Rep(disk2, right, d);
    PairShared(d, disk0, l0, disk1, l1, disk2, l1, t, i, e, c, j, all[p], left, right, h, lo, hi, end);
  }

  lemma {:induction false} NodePairMerged(d: nat, disk0: Disk, l0: Ledger, disk1: Disk, l1: Ledger, disk2: Disk,
                                          l2: Ledger, t: Tree, i: nat, e: Entry, c: Tree, j: nat, x: int, y: int,
                                          sl: seq<Entry>, kl: seq<Tree>, s: Entry, sr: seq<Entry>, kr: seq<Tree>,
                                          h: nat, lo: Bound, hi: Bound, end: int)
    requires Thin(d, disk0, l0, disk1, l1, t, i, e, c, h, lo, hi, end) && 0 !in l1.pages
    requires j < |t.seps| && (i == j || i == j + 1) && NodePairAt(t, i, c, j, x, y, sl, kl, sr, kr)
    requires d <= |sl| + 1 + |sr| <= 2 * d && s.key == t.seps[j].key
    requires l2.rows == l1.rows && l2.seps + multiset{t.seps[j]} == l1.seps + multiset{s}
             && l2.pages + multiset{y} == l1.pages
    requires Touched(disk1, disk2, t.addr, x, y) && x in disk2
    requires Shows(disk2[x], Node(x, sl + [s] + sr, kl + kr), d)
    requires t.addr in disk2 && disk2[t.addr] == disk1[t.addr]
    ensures j + 2 <= |t.kids| && Shrunk(d, disk0, l0, disk2, l2, t, e, j,
              Node(t.addr, Spliced(t.seps, j, j + 1, []), Spliced(t.kids, j, j + 2, [Node(x, sl + [s] + sr, kl + kr)])),
              h, lo, hi, end)
  {
    hide Turns, Linked, ForestLeaves, Separating, ForestPages, Pages, Touched, Shrunk, Less;
    var one := Node(x, sl + [s] + sr, kl + kr);
    PairBounds(t, i, c, j, d, h - 1, lo, hi);
    PairKidsRep(d, disk0, l0, disk1, l1, disk2, t, i, e, c, j, x, y, sl, kl, sr, kr, h, lo, hi, end);
    NodesMerge(x, y, sl, kl, t.seps[j], s, sr, kr, d, h - 2, From(t.seps, j, lo), To(t.seps, j + 1, hi), l1, l2,
               First(ForestLeaves(t.kids[j + 2..]), end));
    assert Rep(disk2, one, d);
    PairMerged(d, disk0, l0, disk1, l1, disk2, l2, t, i, e, c, j, one, h, lo, hi, end);
  }

  // ----- How a kid becomes thin -----

  /** The books after kid i has become c. */
  lemma {:induction false} ThinBooks(t: Tree, i: nat, c: Tree, l0: Ledger, l1: Ledger, end: int)
    requires t.Node? && i < |t.kids| && Turns(t.seps, t.kids, l0, t.seps, t.kids[i := c], l1, end)
    requires multiset(Pages(t)) <= l0.pages && Once(l0.pages) && Once(l1.pages)
    ensures multiset(Pages(With(t, i, c))) <= l1.pages
    ensures forall a :: a in l0.pages && a !in Pages(t) ==> a in l1.pages && a !in Pages(With(t, i, c))
  {
    hide Linked, ForestLeaves, ForestRows, ForestSeps, ForestPages;
    var x, y := ForestPages(t.kids), ForestPages(t.kids[i := c]);
    assert multiset(Pages(t)) == multiset{t.addr} + multiset(x);
    assert multiset(Pages(With(t, i, c))) == multiset{t.addr} + multiset(y);
    forall a
      ensures multiset(y)[a] + l0.pages[a] == multiset(x)[a] + l1.pages[a]
      ensures multiset{t.addr}[a] + multiset(x)[a] <= l0.pages[a] <= 1 && l1.pages[a] <= 1
    {
      assert (multiset(y) + l0.pages)[a] == (multiset(x) + l1.pages)[a];
      assert multiset(Pages(t))[a] <= l0.pages[a];
    }
    SeqCount(x);
    SeqCount(y);
  }

  /** The separators of a node and those below it stay on the books. */
  lemma {:induction false} ThinSeps(t: Tree, i: nat, c: Tree, l0: Ledger, l1: Ledger, end: int)
    requires t.Node? && i < |t.kids| && Turns(t.seps, t.kids, l0, t.seps, t.kids[i := c], l1, end)
    requires multiset(Seps(t)) <= l0.seps
    ensures multiset(t.seps) <= l1.seps && multiset(Seps(c)) <= l1.seps
  {
    hide Linked, ForestLeaves, ForestRows, ForestSeps, ForestPages;
    var x, y := ForestSeps(t.kids), ForestSeps(t.kids[i := c]);
    assert multiset(Seps(t)) == multiset(t.seps) + multiset(x);
    forall a
      ensures multiset(t.seps)[a] + multiset(y)[a] <= l1.seps[a]
    {
      assert (multiset(t.seps) + multiset(y) + l0.seps)[a] == (multiset(t.seps) + multiset(x) + l1.seps)[a];
      assert multiset(Seps(t))[a] <= l0.seps[a];
    }
    KidPart(t.kids[i := c], i);
    forall a
      ensures multiset(Seps(c))[a] <= l1.seps[a]
    {
      assert multiset(Seps(c))[a] <= multiset(y)[a];
    }
  }

  /** Kid i has become c without anything else having changed. */
  lemma {:induction false} ThinStep(d: nat, disk0: Disk, l0: Ledger, disk1: Disk, l1: Ledger, t: Tree, i: nat,
                                    e: Entry, c: Tree, h: nat, lo: Bound, hi: Bound, m: nat, end: int)
    requires d >= 1 && t.Node? && i < |t.kids| && i <= |t.seps| && Wf(t, d, h, lo, hi, m) && Rep(disk0, t, d)
    requires multiset(Pages(t)) <= l0.pages && Once(l0.pages) && Once(l1.pages) && Linked(Leaves(t), end)
    requires c.addr == t.kids[i].addr && (c.Leaf? <==> t.kids[i].Leaf?)
    requires Wf(c, d, h - 1, From(t.seps, i, lo), To(t.seps, i, hi), d - 1) && Rep(disk1, c, d)
    requires Turns([], [t.kids[i]], l0, [], [c], l1, First(ForestLeaves(t.kids[i + 1..]), end))
    requires l1.rows + multiset{e} == l0.rows
    requires OthersStay(disk0, disk1, l0.pages, Pages(t.kids[i]))
    ensures Thin(d, disk0, l0, disk1, l1, t, i, e, c, h, lo, hi, end)
  {
    hide Separating, Linked, ForestLeaves, ForestRows, ForestSeps, ForestPages, Sorted, Less;
    RangedOfNode(t, d, h, lo, hi, m);
    KidThins(t, i, c, d, h - 1, lo, hi, l0, l1, end);
    ThinBooks(t, i, c, l0, l1, end);
    SiblingsStay(d, disk0, disk1, l0.pages, t, i);
    WithRep(disk0, disk1, t, i, c, d);
  }

  lemma {:induction false} WithRep(disk0: Disk, disk1: Disk, t: Tree, i: nat, c: Tree, d: nat)
    requires t.Node? && i < |t.kids| && Rep(disk0, t, d) && c.addr == t.kids[i].addr && Rep(disk1, c, d)
    requires RepAll(disk1, t.kids[..i], d) && RepAll(disk1, t.kids[i + 1..], d)
    requires t.addr in disk1 && disk1[t.addr] == disk0[t.addr]
    ensures Rep(disk1, With(t, i, c), d)
  {
    var w := With(t, i, c);
    forall x | 0 <= x < |w.kids|
      ensures Rep(disk1, w.kids[x], d)
    {
      if x < i {
        assert w.kids[x] == t.kids[..i][x];
      } else if x > i {
        assert w.kids[x] == t.kids[i + 1..][x - i - 1];
      }
    }
  }

  /** A leaf without its row x. */
  ghost function Without(t: Tree, x: nat): Tree
    requires t.Leaf? && x < |t.rows|
  {
    Leaf(t.addr, t.next, RemoveAt(t.rows, x))
  }

  /** Row x has gone from leaf i. */
  lemma {:induction false} ThinLeaf(d: nat, disk0: Disk, l0: Ledger, disk1: Disk, l1: Ledger, t: Tree, i: nat, x: nat,
                 h: nat, lo: Bound, hi: Bound, m: nat, end: int)
    requires d >= 1 && t.Node? && i < |t.kids| && i <= |t.seps| && Wf(t, d, h, lo, hi, m) && Rep(disk0, t, d)
    requires multiset(Pages(t)) <= l0.pages && Once(l0.pages) && Linked(Leaves(t), end)
    requires t.kids[i].Leaf? && x < |t.kids[i].rows|
    requires t.kids[i].rows[x] in l0.rows && l1 == l0.(rows := l0.rows - multiset{t.kids[i].rows[x]})
    requires t.kids[i].addr in disk1 && Shows(disk1[t.kids[i].addr], Without(t.kids[i], x), d)
    requires disk1 == disk0[t.kids[i].addr := disk1[t.kids[i].addr]]
    ensures Thin(d, disk0, l0, disk1, l1, t, i, t.kids[i].rows[x], Without(t.kids[i], x), h, lo, hi, end)
  {
    hide Turns, Separating, Linked, ForestLeaves, ForestRows, ForestSeps, ForestPages, Sorted, Less;
    var k, c := t.kids[i], Without(t.kids[i], x);
    RangedOfNode(t, d, h, lo, hi, m);
    RangedSizes(t.seps, t.kids, d, h - 1, lo, hi, d);
    RemoveSorted(k.rows, x, From(t.seps, i, lo), To(t.seps, i, hi));
    RemovedBag(k.rows, x);
    assert multiset(c.rows) + l0.rows == multiset(k.rows) + l1.rows;
    LeafTurns(k.addr, k.next, k.rows, c.rows, l0, l1, First(ForestLeaves(t.kids[i + 1..]), end));
    assert k == Leaf(k.addr, k.next, k.rows);
    assert k.addr in Pages(k);
    ThinStep(d, disk0, l0, disk1, l1, t, i, k.rows[x], c, h, lo, hi, m, end);
  }

  /** The node that kid i was to be has been put on its page. */
  lemma {:induction false} ThinNode(d: nat, disk0: Disk, l0: Ledger, diskM: Disk, disk1: Disk, l1: Ledger, t: Tree,
                                    i: nat, e: Entry, pend: int, w: Tree, h: nat, lo: Bound, hi: Bound, m: nat,
                                    end: int)
    requires d >= 1 && t.Node? && i < |t.kids| && i <= |t.seps| && Wf(t, d, h, lo, hi, m) && Rep(disk0, t, d)
    requires multiset(Pages(t)) <= l0.pages && Once(l0.pages) && Once(l1.pages) && Linked(Leaves(t), end)
    requires Shrunk(d, disk0, l0, diskM, l1, t.kids[i], e, pend, w, h - 1, From(t.seps, i, lo), To(t.seps, i, hi),
                    First(ForestLeaves(t.kids[i + 1..]), end))
    requires w.addr in disk1 && Shows(disk1[w.addr], w, d) && disk1 == diskM[w.addr := disk1[w.addr]]
    ensures Thin(d, disk0, l0, disk1, l1, t, i, e, w, h, lo, hi, end)
  {
    hide Turns, Separating, Linked, ForestLeaves, ForestRows, ForestSeps, ForestPages, Sorted, Less;
    var k := t.kids[i];
    RangedOfNode(t, d, h, lo, hi, m);
    RangedSizes(t.seps, t.kids, d, h - 1, lo, hi, d);
    TurnsBelow(k.addr, k.seps, k.kids, l0, w.seps, w.kids, l1, First(ForestLeaves(t.kids[i + 1..]), end));
    assert k == Node(k.addr, k.seps, k.kids) && w == Node(k.addr, w.seps, w.kids);
    KidUsed(t, i, l0.pages);
    TopApart(k, l0.pages);
    ShrunkApart(k, w, l0, l1, First(ForestLeaves(t.kids[i + 1..]), end));
    RepAllFrame(diskM, disk1, w.kids, d);
    assert Wf(w, d, h - 1, From(t.seps, i, lo), To(t.seps, i, hi), d - 1);
    ThinStep(d, disk0, l0, disk1, l1, t, i, e, w, h, lo, hi, m, end);
  }

  lemma {:induction false} ShrunkApart(k: Tree, w: Tree, l0: Ledger, l1: Ledger, end: int)
    requires k.Node? && w.Node? && Turns(k.seps, k.kids, l0, w.seps, w.kids, l1, end)
    requires k.addr in l0.pages && k.addr !in ForestPages(k.kids) && Once(l1.pages)
    ensures k.addr !in ForestPages(w.kids) && k.addr in l1.pages
  {
    hide Linked, ForestLeaves, ForestRows, ForestSeps, ForestPages;
    var a := k.addr;
    assert (multiset(ForestPages(w.kids)) + l0.pages)[a] == (multiset(ForestPages(k.kids)) + l1.pages)[a];
    SeqCount(ForestPages(w.kids));
    SeqCount(ForestPages(k.kids));
  }

  // ----- The pages of a pair that has shared its entries anew or has been merged -----

  lemma {:induction false} RidsOf(p: IndexPage, t: Tree, d: nat)
    requires Shows(p, t, d)
    ensures var s := if t.Leaf? then t.rows else t.seps;
            |RowsOf(p)| == |s| && forall x :: 0 <= x < |s| ==> RowsOf(p)[x] == s[x].rid
    ensures t.Node? ==> |KidsOf(p)| == |t.kids| && forall x :: 0 <= x < |t.kids| ==> KidsOf(p)[x] == t.kids[x].addr
  {
  }

  lemma {:induction false} LeafPairShown(p0: IndexPage, q0: IndexPage, p1: IndexPage, q1: IndexPage, d: nat, k: nat,
                      x: int, y: int, n: int, r: seq<Entry>, q: seq<Entry>)
    requires Shows(p0, Leaf(x, y, r), d) && Shows(q0, Leaf(y, n, q), d)
    requires Shaped(p1, d) && p1.leaf && p1.next == y && Shaped(q1, d) && q1.leaf && q1.next == n
    requires RowsOf(p1) + RowsOf(q1) == RowsOf(p0) + RowsOf(q0) && p1.n == k
    ensures k <= |r| + |q|
    ensures Shows(p1, Leaf(x, y, (r + q)[..k]), d) && Shows(q1, Leaf(y, n, (r + q)[k..]), d)
  {
    RidsOf(p0, Leaf(x, y, r), d);
    RidsOf(q0, Leaf(y, n, q), d);
    var all, rids := r + q, RowsOf(p0) + RowsOf(q0);
    assert |RowsOf(p1)| == k;
    assert forall z :: 0 <= z < |all| ==> rids[z] == all[z].rid;
    assert forall z :: 0 <= z < k ==> RowsOf(p1)[z] == rids[z];
    assert forall z :: 0 <= z < q1.n ==> RowsOf(q1)[z] == rids[k + z];
    ShowsLeaf(p1, x, y, all[..k], d);
    ShowsLeaf(q1, y, n, all[k..], d);
  }

  lemma {:induction false} LeafMergeShown(p0: IndexPage, q0: IndexPage, p1: IndexPage, d: nat,
                       x: int, y: int, n: int, r: seq<Entry>, q: seq<Entry>)
    requires Shows(p0, Leaf(x, y, r), d) && Shows(q0, Leaf(y, n, q), d)
    requires Shaped(p1, d) && p1.leaf && p1.next == n && RowsOf(p1) == RowsOf(p0) + RowsOf(q0)
    ensures Shows(p1, Leaf(x, n, r + q), d)
  {
    RidsOf(p0, Leaf(x, y, r), d);
    RidsOf(q0, Leaf(y, n, q), d);
    assert |RowsOf(p1)| == p1.n;
    ShowsLeaf(p1, x, n, r + q, d);
  }

  lemma {:induction false} NodePairShown(p0: IndexPage, q0: IndexPage, p1: IndexPage, up: Rid, q1: IndexPage, d: nat,
                                         k: nat, x: int, y: int, sl: seq<Entry>, kl: seq<Tree>, s: Entry,
                                         sr: seq<Entry>, kr: seq<Tree>)
    requires Shows(p0, Node(x, sl, kl), d) && Shows(q0, Node(y, sr, kr), d)
    requires Shaped(p1, d) && !p1.leaf && Shaped(q1, d) && !q1.leaf
    requires RowsOf(p1) + [up] + RowsOf(q1) == RowsOf(p0) + [s.rid] + RowsOf(q0) && p1.n == k
    requires KidsOf(p1) + KidsOf(q1) == KidsOf(p0) + KidsOf(q0)
    ensures k <= |sl| + |sr| && |kl| == |sl| + 1 && |kr| == |sr| + 1
    ensures var all, kids := sl + [s] + sr, kl + kr;
            && up == all[k].rid
            && Shows(p1, Node(x, all[..k], kids[..k + 1]), d)
            && Shows(q1, Node(y, all[k + 1..], kids[k + 1..]), d)
  {
    hide RowsOf, KidsOf;
    RidsOf(p0, Node(x, sl, kl), d);
    RidsOf(q0, Node(y, sr, kr), d);
    SizeOf(p1, d);
    SizeOf(q1, d);
    var all, kids := sl + [s] + sr, kl + kr;
    var rids, addrs := RowsOf(p0) + [s.rid] + RowsOf(q0), KidsOf(p0) + KidsOf(q0);
    assert |rids| == k + 1 + q1.n && |addrs| == k + 1 + q1.n + 1;
    assert forall z :: 0 <= z < |all| ==> rids[z] == all[z].rid;
    assert forall z :: 0 <= z < |kids| ==> addrs[z] == kids[z].addr;
    assert rids[k] == up;
    assert forall z :: 0 <= z < k ==> RowsOf(p1)[z] == rids[z];
    assert forall z :: 0 <= z < q1.n ==> RowsOf(q1)[z] == rids[k + 1 + z];
    assert forall z :: 0 <= z < k + 1 ==> KidsOf(p1)[z] == addrs[z];
    assert forall z :: 0 <= z < q1.n + 1 ==> KidsOf(q1)[z] == addrs[k + 1 + z];
    ShowsNode(p1, x, all[..k], kids[..k + 1], d);
    ShowsNode(q1, y, all[k + 1..], kids[k + 1..], d);
  }

  lemma {:induction false} SizeOf(p: IndexPage, d: nat)
    requires Shaped(p, d)
    ensures |RowsOf(p)| == p.n && |KidsOf(p)| == p.n + 1
  {
  }

  lemma {:induction false} NodeMergeShown(p0: IndexPage, q0: IndexPage, p1: IndexPage, d: nat,
                       x: int, y: int, sl: seq<Entry>, kl: seq<Tree>, s: Entry, sr: seq<Entry>, kr: seq<Tree>)
    requires Shows(p0, Node(x, sl, kl), d) && Shows(q0, Node(y, sr, kr), d)
    requires Shaped(p1, d) && !p1.leaf
    requires RowsOf(p1) == RowsOf(p0) + [s.rid] + RowsOf(q0) && KidsOf(p1) == KidsOf(p0) + KidsOf(q0)
    ensures Shows(p1, Node(x, sl + [s] + sr, kl + kr), d)
  {
    hide RowsOf, KidsOf;
    RidsOf(p0, Node(x, sl, kl), d);
    RidsOf(q0, Node(y, sr, kr), d);
    SizeOf(p1, d);
    ShowsNode(p1, x, sl + [s] + sr, kl + kr, d);
  }

  /** A leaf page without its row x; the merging and borrowing code never stores it in this form. */
  ghost function Removed(p: IndexPage, x: nat): IndexPage
    requires p.BNode? && x < |p.row|
  {
    p.(n := p.n - 1, row := RemoveAt(p.row, x) + [NULL_RID])
  }

  lemma {:induction false} RemovedShown(p: IndexPage, t: Tree, x: nat, d: nat)
    requires t.Leaf? && Shows(p, t, d) && x < |t.rows|
    ensures Shows(Removed(p, x), Without(t, x), d)
    ensures RowsOf(Removed(p, x)) == RemoveAt(RowsOf(p), x)
  {
  }

  /** The page of a node after the pending separator and kid have been taken off it. */
  lemma {:induction false} ShrunkShown(p: IndexPage, q: IndexPage, t: Tree, w: Tree, pend: nat, d: nat)
    requires t.Node? && w.Node? && Shows(p, t, d) && pend < |t.seps| && |t.kids| == |t.seps| + 1
    requires w.seps == RemoveAt(t.seps, pend) && |w.kids| == |t.kids| - 1
    requires forall x :: 0 <= x < |w.kids| ==> w.kids[x].addr == RemoveAt(t.kids, pend + 1)[x].addr
    requires Shaped(q, d) && !q.leaf
    requires RowsOf(q) == RemoveAt(RowsOf(p), pend) && KidsOf(q) == RemoveAt(KidsOf(p), pend + 1)
    ensures Shows(q, w, d)
  {
    hide RowsOf, KidsOf;
    RidsOf(p, t, d);
    SizeOf(q, d);
    assert w == Node(w.addr, w.seps, w.kids);
    ShowsNode(q, w.addr, w.seps, w.kids, d);
  }

  /** The separators of a node are alive while one of them is pending. */
  lemma {:induction false} ShrunkSeps(t: Tree, w: Tree, pend: nat, l0: Ledger, l1: Ledger, alive: multiset<Entry>,
                                      end: int)
    requires t.Node? && w.Node? && Turns(t.seps, t.kids, l0, w.seps, w.kids, l1, end)
    requires multiset(Seps(t)) <= l0.seps
    requires pend < |t.seps| && w.seps == RemoveAt(t.seps, pend)
    requires alive == l1.seps + multiset{t.seps[pend]}
    ensures multiset(t.seps) <= alive
  {
    hide Linked, ForestLeaves, ForestRows, ForestSeps, ForestPages;
    RemovedBag(t.seps, pend);
    assert multiset(Seps(t)) == multiset(t.seps) + multiset(ForestSeps(t.kids));
    forall a
      ensures multiset(t.seps)[a] <= alive[a]
    {
      assert (multiset(w.seps) + multiset(ForestSeps(w.kids)) + l0.seps)[a]
          == (multiset(t.seps) + multiset(ForestSeps(t.kids)) + l1.seps)[a];
      assert multiset(Seps(t))[a] <= l0.seps[a];
      assert (multiset(w.seps) + multiset{t.seps[pend]})[a] == multiset(t.seps)[a];
    }
  }

  /** Where the two pages of a pair are and what they show. */
  lemma {:induction false} PairPages(d: nat, disk0: Disk, l0: Ledger, disk1: Disk, l1: Ledger, t: Tree, i: nat,
                                     e: Entry, c: Tree, j: nat, h: nat, lo: Bound, hi: Bound, end: int)
    requires Thin(d, disk0, l0, disk1, l1, t, i, e, c, h, lo, hi, end) && 0 !in l1.pages
    requires j < |t.seps| && (i == j || i == j + 1)
    ensures |t.kids| == |t.seps| + 1 && t.addr in disk0 && Shows(disk0[t.addr], t, d)
    ensures var k := t.kids[i := c];
            && k[j].addr in disk1 && Shows(disk1[k[j].addr], k[j], d)
            && k[j + 1].addr in disk1 && Shows(disk1[k[j + 1].addr], k[j + 1], d)
            && t.addr in l1.pages && k[j].addr in l1.pages && k[j + 1].addr in l1.pages
            && t.addr != k[j].addr && t.addr != k[j + 1].addr && k[j].addr != k[j + 1].addr
            && (k[j].Leaf? <==> k[j + 1].Leaf?)
            && (k[j].Leaf? ==> k[j].next == k[j + 1].addr)
    ensures i != j ==> d <= |Entries(t.kids[j])| <= 2 * d
    ensures i == j ==> d <= |Entries(t.kids[j + 1])| <= 2 * d
  {
    hide Turns, Linked, ForestLeaves, Separating, ForestPages, Pages, Aside, OthersStay;
    AroundPair(d, disk0, l0, disk1, l1, disk1, t, i, e, c, j, h, lo, hi, end);
    RangedSizes(t.seps, t.kids, d, h - 1, lo, hi, d);
    var k := t.kids[i := c];
    ShownTop(disk1, k[j], d);
    ShownTop(disk1, k[j + 1], d);
    if k[j].Leaf? && k[j + 1].Leaf? {
      NextLeaf(k, j, end);
    }
  }

  /** The rows or separators of the top page. */
  ghost function Entries(t: Tree): seq<Entry> {
    if t.Leaf? then t.rows else t.seps
  }

  lemma {:induction false} ShownSize(p: IndexPage, t: Tree, d: nat)
    requires Shows(p, t, d)
    ensures Shaped(p, d) && p.n == |Entries(t)| && p.leaf == t.Leaf?
    ensures t.Leaf? ==> p.next == t.next
    ensures t.Node? ==> |t.kids| == |t.seps| + 1
    ensures t.Node? ==> forall i :: 0 <= i < |t.kids| ==> p.child[i] == t.kids[i].addr
    ensures forall i :: 0 <= i < |Entries(t)| ==> p.row[i] == Entries(t)[i].rid
  {
  }

  /** A minimal leaf page p, and what it is to be without row index - 1. */
  ghost predicate ThinPage(p: IndexPage, p1: IndexPage, index: nat, d: nat) {
    && Shaped(p, d) && p.n == d && 1 <= index <= d && p.leaf
    && Shaped(p1, d) && p1.n == d - 1 && p1.leaf && p1.next == p.next
    && RowsOf(p1) == RemoveAt(RowsOf(p), index - 1)
  }

  lemma {:induction false} ThinPageOf(p: IndexPage, t: Tree, index: nat, d: nat)
    requires t.Leaf? && Shows(p, t, d) && |t.rows| == d && 1 <= index <= d
    ensures Shows(Removed(p, index - 1), Without(t, index - 1), d)
    ensures ThinPage(p, Removed(p, index - 1), index, d)
  {
    RemovedShown(p, t, index - 1, d);
  }

  /** The first row of the right page has moved to the end of the left one. */
  lemma {:induction false} RowMovedLeft(p0: IndexPage, q0: IndexPage, p1: IndexPage, q1: IndexPage, d: nat)
    requires Shaped(p0, d) && Shaped(q0, d) && Shaped(p1, d) && Shaped(q1, d) && q0.n > 0
    requires RowsOf(p1) == RowsOf(p0) + [RowsOf(q0)[0]] && RowsOf(q1) == RowsOf(q0)[1..]
    ensures RowsOf(p1) + RowsOf(q1) == RowsOf(p0) + RowsOf(q0)
  {
  }

  /** The last row of the left page has moved to the front of the right one. */
  lemma {:induction false} RowMovedRight(p0: IndexPage, q0: IndexPage, p1: IndexPage, q1: IndexPage, d: nat)
    requires Shaped(p0, d) && Shaped(q0, d) && Shaped(p1, d) && Shaped(q1, d) && p0.n > 0
    requires RowsOf(q1) == [RowsOf(p0)[p0.n - 1]] + RowsOf(q0) && RowsOf(p1) == RowsOf(p0)[..p0.n - 1]
    ensures RowsOf(p1) + RowsOf(q1) == RowsOf(p0) + RowsOf(q0)
  {
  }

  /** A separator and a child have moved from the right page to the left one through the parent. */
  lemma {:induction false} KidMovedLeft(p0: IndexPage, q0: IndexPage, sep: Rid, p1: IndexPage, up: Rid, q1: IndexPage,
                                        d: nat)
    requires Shaped(p0, d) && Shaped(q0, d) && Shaped(p1, d) && Shaped(q1, d) && q0.n > 0
    requires RowsOf(p1) == RowsOf(p0) + [sep] && up == RowsOf(q0)[0] && RowsOf(q1) == RowsOf(q0)[1..]
    requires KidsOf(p1) == KidsOf(p0) + [KidsOf(q0)[0]] && KidsOf(q1) == KidsOf(q0)[1..]
    ensures RowsOf(p1) + [up] + RowsOf(q1) == RowsOf(p0) + [sep] + RowsOf(q0)
    ensures KidsOf(p1) + KidsOf(q1) == KidsOf(p0) + KidsOf(q0)
  {
  }

  /** A separator and a child have moved from the left page to the right one through the parent. */
  lemma {:induction false} KidMovedRight(p0: IndexPage, q0: IndexPage, sep: Rid, p1: IndexPage, up: Rid,
                                         q1: IndexPage, d: nat)
    requires Shaped(p0, d) && Shaped(q0, d) && Shaped(p1, d) && Shaped(q1, d) && p0.n > 0
    requires RowsOf(q1) == [sep] + RowsOf(q0) && up == RowsOf(p0)[p0.n - 1] && RowsOf(p1) == RowsOf(p0)[..p0.n - 1]
    requires KidsOf(q1) == [KidsOf(p0)[p0.n]] + KidsOf(q0) && KidsOf(p1) == KidsOf(p0)[..p0.n]
    ensures RowsOf(p1) + [up] + RowsOf(q1) == RowsOf(p0) + [sep] + RowsOf(q0)
    ensures KidsOf(p1) + KidsOf(q1) == KidsOf(p0) + KidsOf(q0)
  {
  }

  // ----- Deletion at the root -----

  /** Row x has gone from a root that is a leaf. */
  lemma {:induction false} RootLeafShrunk(d: nat, l0: Ledger, disk1: Disk, l1: Ledger, t: Tree, x: nat, h: nat)
    requires t.Leaf? && x < |t.rows| && Booked(t, l0) && Linked(Leaves(t), -1) && Wf(t, d, h, Open, Open, 0)
    requires l1 == l0.(rows := l0.rows - multiset{t.rows[x]})
    requires t.addr in disk1 && Shows(disk1[t.addr], Without(t, x), d)
    ensures var r := Without(t, x);
            Rep(disk1, r, d) && Wf(r, d, h, Open, Open, 0) && Booked(r, l1) && Linked(Leaves(r), -1)
    ensures l1.rows + multiset{t.rows[x]} == l0.rows
  {
    hide Turns, Linked, Leaves, Booked, Sorted;
    var r := Without(t, x);
    RemoveSorted(t.rows, x, Open, Open);
    RemovedBag(t.rows, x);
    LeafRows(t, l0);
    assert t == Leaf(t.addr, t.next, t.rows);
    assert multiset(r.rows) + l0.rows == multiset(t.rows) + l1.rows;
    LeafTurns(t.addr, t.next, t.rows, r.rows, l0, l1, -1);
    StillBooked(t, l0, r, l1, -1);
  }

  lemma {:induction false} LeafRows(t: Tree, l: Ledger)
    requires t.Leaf? && Booked(t, l)
    ensures multiset(t.rows) == l.rows
  {
  }

  /** A root that is a node has lost a row below it, and its page shows w. */
  lemma {:induction false} RootShrunk(d: nat, disk0: Disk, l0: Ledger, diskM: Disk, disk1: Disk, l1: Ledger, t: Tree,
                                      e: Entry, pend: int, w: Tree, h: nat)
    requires d >= 1 && Booked(t, l0) && Linked(Leaves(t), -1) && Wf(t, d, h, Open, Open, 1) && Once(l0.pages)
             && Once(l1.pages)
    requires Shrunk(d, disk0, l0, diskM, l1, t, e, pend, w, h, Open, Open, -1) && |w.seps| >= 1
    requires t.addr in disk1 && Shows(disk1[t.addr], w, d) && disk1 == diskM[t.addr := disk1[t.addr]]
    ensures Rep(disk1, w, d) && Wf(w, d, h, Open, Open, 1) && Booked(w, l1) && Linked(Leaves(w), -1)
  {
    hide Turns, Linked, Leaves, Booked, Separating, ForestPages;
    RootBooked(t, l0, w, l1);
    RootApart(w, l1);
    RepAllFrame(diskM, disk1, w.kids, d);
  }

  lemma {:induction false} RootBooked(t: Tree, l0: Ledger, w: Tree, l1: Ledger)
    requires t.Node? && w.Node? && w.addr == t.addr && Booked(t, l0) && Linked(Leaves(t), -1)
    requires Turns(t.seps, t.kids, l0, w.seps, w.kids, l1, -1)
    ensures Booked(w, l1) && Linked(Leaves(w), -1)
  {
    hide Turns, Linked, Leaves, Booked;
    TurnsBelow(t.addr, t.seps, t.kids, l0, w.seps, w.kids, l1, -1);
    assert t == Node(t.addr, t.seps, t.kids) && w == Node(t.addr, w.seps, w.kids);
    StillBooked(t, l0, w, l1, -1);
  }

  lemma {:induction false} RootApart(w: Tree, l: Ledger)
    requires w.Node? && Booked(w, l) && Once(l.pages)
    ensures w.addr !in ForestPages(w.kids) && w.addr in l.pages
    ensures forall a :: a in ForestPages(w.kids) ==> a in l.pages
  {
    TopApart(w, l.pages);
  }

  /** A root with a single kid left gives way to this kid. */
  lemma {:induction false} RootCollapsed(d: nat, disk0: Disk, l0: Ledger, diskM: Disk, l1: Ledger, disk2: Disk,
                                         l2: Ledger, t: Tree, e: Entry, pend: int, w: Tree, h: nat)
    requires d >= 1 && Booked(t, l0) && Linked(Leaves(t), -1) && Once(l0.pages) && Once(l1.pages)
    requires Shrunk(d, disk0, l0, diskM, l1, t, e, pend, w, h, Open, Open, -1) && |w.seps| == 0
    requires l2.rows == l1.rows && l2.seps == l1.seps && l2.pages + multiset{t.addr} == l1.pages
    requires forall a :: a in l1.pages && a != t.addr && a in diskM ==> a in disk2 && disk2[a] == diskM[a]
    ensures |w.kids| == 1 && Rep(disk2, w.kids[0], d) && Wf(w.kids[0], d, h - 1, Open, Open, d)
    ensures Booked(w.kids[0], l2) && Linked(Leaves(w.kids[0]), -1) && w.kids[0].addr in l2.pages
  {
    hide Turns, Linked, Leaves, Booked, Separating, ForestPages, Pages;
    RootBooked(t, l0, w, l1);
    RootApart(w, l1);
    RepAllFrame(diskM, disk2, w.kids, d);
    var k := w.kids[0];
    assert w.kids == [k] && w.seps == [];
    RangedOne(k, d, h - 1, Open, Open, d);
    OnlyKid(w, k, l1, l2);
  }

  lemma {:induction false} OnlyKid(w: Tree, k: Tree, l1: Ledger, l2: Ledger)
    requires w.Node? && w.kids == [k] && w.seps == [] && Booked(w, l1) && Linked(Leaves(w), -1)
    requires l2.rows == l1.rows && l2.seps == l1.seps && l2.pages + multiset{w.addr} == l1.pages
    ensures Booked(k, l2) && Linked(Leaves(k), -1) && k.addr in l2.pages
  {
    ForestOne(k);
    assert multiset(Pages(w)) == multiset{w.addr} + multiset(Pages(k));
    forall a
      ensures multiset(Pages(k))[a] == l2.pages[a]
    {
      assert (multiset{w.addr} + multiset(Pages(k)))[a] == (l2.pages + multiset{w.addr})[a];
    }
    assert k.addr in multiset(Pages(k));
  }

  // ----- The chain of leaves on the disk -----

  /** The pages of these leaves show them. */
  ghost predicate AllShown(disk: Disk, leaves: seq<Tree>, d: nat) {
    forall l :: l in leaves ==> l.Leaf? && l.addr in disk && Shows(disk[l.addr], l, d)
  }

  /** The page reached from page a by h - 1 steps to the first child. */
  ghost function Leftmost(disk: Disk, a: int, h: nat): int
    decreases h
  {
    if h <= 1 || a !in disk || !disk[a].BNode? || disk[a].child == [] then a
        else Leftmost(disk, disk[a].child[0], h - 1)
  }

  /** This page is the first of the leaves. */
  lemma {:induction false} LeftmostLeaf(disk: Disk, t: Tree, d: nat, h: nat, lo: Bound, hi: Bound, m: nat)
    requires Rep(disk, t, d) && Wf(t, d, h, lo, hi, m)
    ensures Leftmost(disk, t.addr, h) == First(Leaves(t), -1) && Leaves(t) != []
    decreases t
  {
    hide Less, Sorted, Separating;
    if t.Node? {
      LeftmostLeaf(disk, t.kids[0], d, h - 1, From(t.seps, 0, lo), To(t.seps, 0, hi), d);
      assert ForestLeaves(t.kids) == Leaves(t.kids[0]) + ForestLeaves(t.kids[1..]);
    }
  }

  lemma {:induction false} LeavesShown(disk: Disk, t: Tree, d: nat)
    requires Rep(disk, t, d)
    ensures AllShown(disk, Leaves(t), d)
    decreases t
  {
    hide Shows;
    ShownTop(disk, t, d);
    if t.Node? {
      ForestLeavesShown(disk, t.kids, d);
    }
  }

  lemma {:induction false} ForestLeavesShown(disk: Disk, ks: seq<Tree>, d: nat)
    requires RepAll(disk, ks, d)
    ensures AllShown(disk, ForestLeaves(ks), d)
    decreases ks
  {
    hide Shows;
    if ks != [] {
      LeavesShown(disk, ks[0], d);
      assert forall i :: 0 <= i < |ks[1..]| ==> ks[1..][i] == ks[i + 1];
      ForestLeavesShown(disk, ks[1..], d);
    }
  }

  /** The rows of leaves, one leaf after the other. */
  ghost function RowsIn(leaves: seq<Tree>): seq<Entry> {
    if leaves == [] then [] else (if leaves[0].Leaf? then leaves[0].rows else []) + RowsIn(leaves[1..])
  }

  lemma {:induction false} RowsInAppend(a: seq<Tree>, b: seq<Tree>)
    ensures RowsIn(a + b) == RowsIn(a) + RowsIn(b)
  {
    if a == [] {
      assert a + b == b;
    } else {
      assert (a + b)[1..] == a[1..] + b;
      RowsInAppend(a[1..], b);
      Associates(if a[0].Leaf? then a[0].rows else [], RowsIn(a[1..]), RowsIn(b));
    }
  }

  /** The rows of a tree are those of its leaves. */
  lemma {:induction false} RowsOfLeaves(t: Tree)
    ensures RowsIn(Leaves(t)) == Rows(t)
    decreases t
  {
    if t.Node? {
      RowsOfForest(t.kids);
    } else {
      assert [t][1..] == [];
    }
  }

  lemma {:induction false} RowsOfForest(ks: seq<Tree>)
    ensures RowsIn(ForestLeaves(ks)) == ForestRows(ks)
    decreases ks
  {
    if ks != [] {
      RowsOfLeaves(ks[0]);
      RowsOfForest(ks[1..]);
      RowsInAppend(Leaves(ks[0]), ForestLeaves(ks[1..]));
    }
  }

  /** The rows that one finds by following next from page a on, for at most n pages. */
  ghost function Walk(disk: Disk, a: int, n: nat): seq<Rid>
    decreases n
  {
    if n == 0 || a !in disk || !disk[a].BNode? || !(0 <= disk[a].n <= |disk[a].row|) then []
    else RowsOf(disk[a]) + Walk(disk, disk[a].next, n - 1)
  }

  ghost function RidsIn(rows: seq<Entry>): (r: seq<Rid>)
    ensures |r| == |rows|
  {
    seq(|rows|, i requires 0 <= i < |rows| => rows[i].rid)
  }

  lemma {:induction false} FirstLeaf(disk: Disk, leaves: seq<Tree>, d: nat)
    requires Linked(leaves, -1) && AllShown(disk, leaves, d) && leaves != []
    ensures var l, rest := leaves[0], leaves[1..];
            && l.Leaf? && l.addr in disk && Shows(disk[l.addr], l, d) && l.next == First(rest, -1)
            && Linked(rest, -1) && AllShown(disk, rest, d)
  {
    hide Shows;
    var rest := leaves[1..];
    assert leaves == [leaves[0]] + rest;
    LinkedAppend([leaves[0]], rest, -1);
    assert leaves[0].next == First(leaves[0 + 1..], -1);
    assert leaves[0] in leaves && forall l :: l in rest ==> l in leaves;
  }

  /** The chain on the disk has the rows of the leaves, in order, and then ends. */
  lemma {:induction false} WalkLeaves(disk: Disk, leaves: seq<Tree>, d: nat, n: nat)
    requires -1 !in disk && Linked(leaves, -1) && n >= |leaves| && AllShown(disk, leaves, d)
    ensures Walk(disk, First(leaves, -1), n) == RidsIn(RowsIn(leaves))
    decreases |leaves|
  {
    hide Shows, RowsOf, RidsIn, AllShown, Linked;
    if leaves != [] {
      var rest := leaves[1..];
      FirstLeaf(disk, leaves, d);
      WalkLeaves(disk, rest, d, n - 1);
      WalkStep(disk, leaves[0], d, n);
      RidsInAppend(leaves[0].rows, RowsIn(rest));
    } else {
      NoRids();
    }
  }

  lemma {:induction false} NoRids()
    ensures RidsIn([]) == []
  {
  }

  lemma {:induction false} RidsInAppend(a: seq<Entry>, b: seq<Entry>)
    ensures RidsIn(a + b) == RidsIn(a) + RidsIn(b)
  {
  }

  lemma {:induction false} WalkStep(disk: Disk, l: Tree, d: nat, n: nat)
    requires l.Leaf? && l.addr in disk && Shows(disk[l.addr], l, d) && n > 0
    ensures Walk(disk, l.addr, n) == RidsIn(l.rows) + Walk(disk, l.next, n - 1)
  {
    RidsOf(disk[l.addr], l, d);
    assert RowsOf(disk[l.addr]) == RidsIn(l.rows);
  }

  /** What Conserved means for a single page. */
  lemma {:induction false} OnePlace(t: Tree, l: Ledger, free: seq<int>, pages: set<int>, a: int)
    requires Booked(t, l) && Conserved(l.pages, free, pages) && a in pages
    ensures a == 0 ==> a !in Pages(t) && a !in free
    ensures a != 0 ==> multiset(Pages(t))[a] + multiset(free)[a] == 1
  {
    assert (l.pages + multiset(free))[a] == multiset(pages - {0})[a];
    SeqCount(Pages(t));
    SeqCount(free);
  }
}
