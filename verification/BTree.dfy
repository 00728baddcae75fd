/**
 The B+ tree of the index file, over the buffer pool.

 The ghost field Root is the tree that the pages represent and Free the list of free pages;
 Used counts the pages in use and Stored the rows. The source's page pointers are frame
 indices; every access goes through get_page and release as in the source.
 */
module BTrees {
  import opened BufferPools
  import opened Rids
  import opened Texts
  import opened Seqs
  import opened Trees
  import opened IndexPages
  import opened TreePages
  import Strings
  import opened Records

  const MAX_KEY := MAX_STR_LEN

  /** The separator strings that are alive. */
  ghost function SepBag(m: map<Rid, Text>): multiset<Entry> {
    multiset(set r | r in m :: Entry(r, m[r]))
  }

  lemma {:induction false} InSepBag(m: map<Rid, Text>, s: seq<Entry>, e: Entry)
    requires multiset(s) <= SepBag(m) && e in s
    ensures e.rid in m && m[e.rid] == e.key
  {
    assert e in multiset(s);
    assert e in SepBag(m);
  }

  lemma {:induction false} SepBagInsert(m: map<Rid, Text>, r: Rid, k: Text)
    requires r !in m
    ensures SepBag(m[r := k]) == SepBag(m) + multiset{Entry(r, k)}
  {
    var s, m' := (set x | x in m :: Entry(x, m[x])), m[r := k];
    var s' := set x | x in m' :: Entry(x, m'[x]);
    forall e
      ensures e in s' <==> e in s + {Entry(r, k)}
    {
      if e in s + {Entry(r, k)} {
        assert e.rid in m' && m'[e.rid] == e.key;
      }
    }
    assert s' == s + {Entry(r, k)};
    assert multiset(s + {Entry(r, k)}) == multiset(s) + multiset{Entry(r, k)};
  }

  lemma {:induction false} SepBagDelete(m: map<Rid, Text>, r: Rid)
    requires r in m
    ensures SepBag(m - {r}) + multiset{Entry(r, m[r])} == SepBag(m)
  {
    var m' := m - {r};
    assert m'[r := m[r]] == m;
    SepBagInsert(m', r, m[r]);
  }

  ghost predicate Known(names: Names, s: seq<Entry>, leaf: bool) {
    forall e :: e in s ==> names.KeyIs(e.rid, leaf, e.key) && |e.key| <= MAX_KEY
  }

  /** e names a record with a new key in [lo, hi). */
  ghost predicate CanTake(names: Names, e: Entry, rows: seq<Entry>, lo: Bound, hi: Bound) {
    && names.KeyIs(e.rid, true, e.key) && |e.key| <= MAX_KEY
    && AtLeast(lo, e.key) && Below(e.key, hi)
    && (forall r :: r in rows ==> r.key != e.key)
  }

  lemma {:induction false} CanTakeBelow(names: Names, e: Entry, t: Tree, i: nat, lo: Bound, hi: Bound)
    requires t.Node? && |t.kids| == |t.seps| + 1 && UpperBound(t.seps, e.key, i)
    requires CanTake(names, e, Rows(t), lo, hi)
    ensures CanTake(names, e, Rows(t.kids[i]), From(t.seps, i, lo), To(t.seps, i, hi))
  {
    hide Store.Valid, Less;
    KidPart(t.kids, i);
    forall r | r in Rows(t.kids[i])
      ensures r.key != e.key
    {
      assert r in multiset(Rows(t.kids[i]));
      assert r in Rows(t);
    }
  }

  class BTree {
    const d: nat
    const pool: BufferPool<IndexPage>
    const env: Store
    ghost var Root: Tree
    ghost var Height: nat
    ghost var Free: seq<int>
    ghost var Used: multiset<int>
    ghost var Stored: multiset<Entry>
    ghost var Contents: map<Text, Rid>

    ghost function Repr(): set<object> {
      {this} + pool.Repr() + env.Repr()
    }

    ghost predicate Apart() {
      && d >= 2
      && pool.Shape()
      && pool.Repr() !! env.Repr()
      && this !in pool.Repr() && this !in env.Repr() && env.Inside()
    }

    /** What holds at every step, also in the middle of an insertion or a deletion. */
    ghost predicate Inv()
      reads Repr()
    {
      Apart() && Sound()
    }

    ghost predicate Sound()
      requires Apart()
      reads Repr()
    {
      && pool.Valid()
      && env.Valid()
      && 0 in pool.Disk && pool.Disk[0].Ctrl?
      && pool.Disk[0].freeHead == Head(Free)
      && FreeList(pool.Disk, Free, d)
      && Conserved(Used, Free, pool.Disk.Keys)
    }

    ghost function Book(): Ledger
      reads this`Stored, this`Used, env
    {
      Ledger(Stored, SepBag(env.names.seps), Used)
    }

    /** f points to the pinned page that shows the top of t. */
    ghost predicate Points(f: int, t: Tree)
      requires pool.Shape()
      reads pool, pool.addrs
    {
      pool.Holds(f, t.addr) && t.addr in pool.Pins && t.addr >= 0
    }

    /** What a method that only looks at the tree leaves as it was. */
    twostate predicate Undisturbed()
      reads Repr(), env, env.rec, env.str, env.str.table
    {
      && pool.Disk == old(pool.Disk) && pool.Pins == old(pool.Pins) && pool.file.length == old(pool.file.length)
      && env.Untouched()
    }

    /** The frames of the pages that were pinned before still hold these pages. */
    twostate predicate FramesStay()
      requires pool.Shape()
      reads pool.addrs
    {
      forall g :: 0 <= g < CACHE_PAGE && old(pool.addrs[g]) in old(pool.Pins) ==> pool.addrs[g] == old(pool.addrs[g])
    }

    /** b_tree_init on an empty file: the control page and an empty root leaf. */
    constructor (degree: nat, store: Store)
      requires degree >= 2 && store.Valid() && store.Inside() && store.names.seps == map[]
      ensures d == degree && env == store && fresh(pool.Repr())
      ensures Apart() && Valid() && Contents == map[] && Height == 1
    {
      hide BufferPool.Valid, Store.Valid, Valid;
      store.Here();
      var p := new BufferPool(File(map[], 0), Ctrl(0, 0));
      assert forall o :: o in p.Repr() ==> allocated(o);
      d := degree;
      env := store;
      Root := Leaf(PAGE_SIZE, -1, []);
      Height := 1;
      Free := [];
      Stored := multiset{};
      Used := multiset{PAGE_SIZE};
      Contents := map[];
      pool := p;
      new;
      Format(pool, degree);
      EmptyIndex();
    }

    lemma {:induction false} EmptyIndex()
      requires Apart() && pool.Valid() && env.Valid() && env.names.seps == map[] && pool.Pins == multiset{}
      requires pool.Disk.Keys == {0, PAGE_SIZE} && pool.Disk[0] == Ctrl(PAGE_SIZE, -1)
      requires Shows(pool.Disk[PAGE_SIZE], Leaf(PAGE_SIZE, -1, []), d)
      requires Root == Leaf(PAGE_SIZE, -1, []) && Height == 1 && Free == [] && Stored == multiset{}
      requires Used == multiset{PAGE_SIZE} && Contents == map[]
      ensures Valid()
    {
      hide BufferPool.Valid, Store.Valid;
      assert pool.Disk.Keys - {0} == {PAGE_SIZE};
      EmptyTree(SepBag(env.names.seps));
    }

    static lemma {:induction false} EmptyTree(seps: multiset<Entry>)
      requires seps == multiset{}
      ensures var t := Leaf(PAGE_SIZE, -1, []);
              Booked(t, Ledger(multiset{}, seps, multiset{PAGE_SIZE})) && Linked(Leaves(t), -1) && Rows(t) == []
    {
      var t := Leaf(PAGE_SIZE, -1, []);
      LinkedOne(t, -1);
    }

    static method Format(p: BufferPool<IndexPage>, degree: nat)
      requires p.Valid() && p.file.length == 0 && p.Disk == map[]
      modifies p`file, p`Disk
      ensures p.Valid() && p.Disk.Keys == {0, PAGE_SIZE} && p.Disk[0] == Ctrl(PAGE_SIZE, -1)
      ensures Shows(p.Disk[PAGE_SIZE], Leaf(PAGE_SIZE, -1, []), degree)
    {
      hide Store.Valid, BufferPool.Valid;
      p.Append(Ctrl(PAGE_SIZE, -1));
      var leaf := Blank(degree);
      leaf := leaf.(leaf := true);
      p.Append(leaf);
    }

    // ----- Search in a page -----

    /** The comparator on two identifiers. */
    method CompareRows(a: Rid, b: Rid, aleaf: bool, bleaf: bool, ghost ka: Text, ghost kb: Text) returns (c: int)
      requires Inv() && env.names.KeyIs(a, aleaf, ka) && env.names.KeyIs(b, bleaf, kb)
      modifies env.Repr()
      ensures Inv() && env.Untouched()
      ensures (c < 0 <==> Less(ka, kb)) && (c == 0 <==> ka == kb)
    {
      hide Less, BufferPool.Valid, Store.Valid, FreeList, Conserved;
      c := env.Compare(a, b, aleaf, bleaf, ka, kb);
    }

    /** The comparator on a key and an identifier. */
    method CompareKey(key: Text, b: Rid, leaf: bool, ghost kb: Text) returns (c: int)
      requires Inv() && env.names.KeyIs(b, leaf, kb)
      modifies env.Repr()
      ensures Inv() && env.Untouched()
      ensures (c < 0 <==> Less(key, kb)) && (c == 0 <==> key == kb)
    {
      hide Less, BufferPool.Valid, Store.Valid, FreeList, Conserved;
      c := env.CompareKey(key, b, leaf, kb);
    }

    /** find_index: for a total comparison, one of its return statements is always reached. */
    method FindIndex(p: IndexPage, rid: Rid, leaf: bool, ghost rows: seq<Entry>, ghost k: Text) returns (index: nat)
      requires Inv() && Shaped(p, d) && p.n == |rows|
      requires forall i :: 0 <= i < |rows| ==> p.row[i] == rows[i].rid
      requires Known(env.names, rows, p.leaf) && env.names.KeyIs(rid, leaf, k) && Increasing(rows)
      modifies env.Repr()
      ensures Inv() && Undisturbed() && FramesStay()
      ensures UpperBound(rows, k, index)
    {
      hide Less, Sound, UpperBound;
      if p.n == 0 {
        IsUpperBound(rows, k, 0);
        return 0;
      }
      assert forall i :: 0 <= i < |rows| ==> rows[i] in rows;
      var c := CompareRows(rid, p.row[0], leaf, p.leaf, k, rows[0].key);
      if c < 0 {
        IsUpperBound(rows, k, 0);
        return 0;
      }
      var i := 0;
      while i < p.n - 1
        invariant 0 <= i < p.n
        invariant !Less(k, rows[i].key)
        invariant Inv() && env.Untouched()
      {
        c := CompareRows(rid, p.row[i], leaf, p.leaf, k, rows[i].key);
        if c >= 0 {
          c := CompareRows(rid, p.row[i + 1], leaf, p.leaf, k, rows[i + 1].key);
          if c < 0 {
            IsUpperBound(rows, k, i + 1);
            return i + 1;
          }
        }
        i := i + 1;
      }
      c := CompareRows(rid, p.row[p.n - 1], leaf, p.leaf, k, rows[p.n - 1].key);
      assert c >= 0;
      IsUpperBound(rows, k, p.n);
      index := p.n;
    }

    // ----- Search -----

    /** The choice of a child in tree_search; it agrees with find_index. */
    method SearchIndex(p: IndexPage, key: Text, ghost seps: seq<Entry>) returns (index: nat)
      requires Inv() && Shaped(p, d) && p.n == |seps| >= 1
      requires forall i :: 0 <= i < |seps| ==> p.row[i] == seps[i].rid
      requires Known(env.names, seps, false) && Increasing(seps)
      modifies env.Repr()
      ensures Inv() && Undisturbed() && FramesStay()
      ensures UpperBound(seps, key, index)
    {
      hide Less, Sound, UpperBound;
      assert forall i :: 0 <= i < |seps| ==> seps[i] in seps;
      var c := CompareKey(key, p.row[0], false, seps[0].key);
      if c < 0 {
        IsUpperBound(seps, key, 0);
        return 0;
      }
      var i := 0;
      while i < p.n - 1
        invariant 0 <= i < p.n
        invariant !Less(key, seps[i].key)
        invariant Inv() && env.Untouched()
      {
        c := CompareKey(key, p.row[i], false, seps[i].key);
        if c >= 0 {
          c := CompareKey(key, p.row[i + 1], false, seps[i + 1].key);
          if c < 0 {
            IsUpperBound(seps, key, i + 1);
            return i + 1;
          }
        }
        i := i + 1;
      }
      c := CompareKey(key, p.row[p.n - 1], false, seps[p.n - 1].key);
      assert c >= 0;
      IsUpperBound(seps, key, p.n);
      index := p.n;
    }

    /** The linear search of tree_search in a leaf. */
    method SearchLeaf(p: IndexPage, key: Text, ghost rows: seq<Entry>) returns (rid: Rid)
      requires Inv() && Shaped(p, d) && p.n == |rows|
      requires forall i :: 0 <= i < |rows| ==> p.row[i] == rows[i].rid
      requires Known(env.names, rows, true)
      modifies env.Repr()
      ensures Inv() && Undisturbed() && FramesStay()
      ensures Entry(rid, key) in rows || (rid == NULL_RID && forall e :: e in rows ==> e.key != key)
    {
      hide Less, Sound;
      assert forall i :: 0 <= i < |rows| ==> rows[i] in rows;
      var i := 0;
      while i < p.n
        invariant 0 <= i <= p.n
        invariant forall x :: 0 <= x < i ==> rows[x].key != key
        invariant Inv() && env.Untouched()
      {
        var c := CompareKey(key, p.row[i], true, rows[i].key);
        if c == 0 {
          assert rows[i] == Entry(p.row[i], key);
          return p.row[i];
        }
        i := i + 1;
      }
      rid := NULL_RID;
    }

    lemma {:induction false} SepsKnown(s: seq<Entry>)
      requires env.Valid() && multiset(s) <= SepBag(env.names.seps)
      ensures Known(env.names, s, false)
    {
      env.RealRids();
      forall e | e in s
        ensures env.names.KeyIs(e.rid, false, e.key) && |e.key| <= MAX_KEY
      {
        InSepBag(env.names.seps, s, e);
      }
    }

    /** Reading through a page pointer. */
    lemma {:induction false} Look(f: int, t: Tree)
      requires Inv() && Points(f, t) && Rep(pool.Disk, t, d)
      ensures d >= 2 && 0 <= f < pool.frames.Length
      ensures pool.frames[f] == pool.Disk[t.addr] && Shows(pool.frames[f], t, d)
      ensures env.Valid()
    {
      pool.Frame(f, t.addr);
    }

    /** get_page and release, seen from the tree. */
    method Pin(addr: int) returns (f: int)
      requires Inv() && addr in pool.Disk && |PinSet(pool.Pins) + {addr}| <= CACHE_PAGE
      modifies pool.Repr()
      ensures Inv() && FramesStay()
      ensures pool.Disk == old(pool.Disk) && pool.Pins == old(pool.Pins) + multiset{addr}
      ensures pool.file.length == old(pool.file.length)
      ensures pool.Holds(f, addr) && pool.frames[f] == pool.Disk[addr] && addr >= 0
      ensures |PinSet(pool.Pins)| <= |PinSet(old(pool.Pins))| + 1
    {
      hide BufferPool.Valid, Store.Valid, FreeList, SepBag, Less;
      PinOne(pool.Pins, addr);
      pool.Addresses();
      f := pool.GetPage(addr);
      forall g | 0 <= g < CACHE_PAGE && old(pool.addrs[g]) in old(pool.Pins)
        ensures pool.addrs[g] == old(pool.addrs[g])
      {
        assert pool.addrs[..][g] == old(pool.addrs[..])[f := addr][g];
      }
    }

    method Unpin(addr: int)
      requires Inv() && addr in pool.Pins
      modifies pool`Pins, pool.refs
      ensures Inv()
      ensures pool.Pins == old(pool.Pins) - multiset{addr}
    {
      hide BufferPool.Valid, Store.Valid, FreeList, SepBag, Less;
      pool.Release(addr);
    }

    /** All that a step down to kid i of t needs to know. */
    lemma {:induction false} KidReady(t: Tree, i: nat, h: nat, lo: Bound, hi: Bound, m: nat)
      requires Inv() && Rep(pool.Disk, t, d) && Wf(t, d, h, lo, hi, m) && t.Node? && i < |t.kids|
      requires Known(env.names, Rows(t), true) && multiset(Seps(t)) <= SepBag(env.names.seps)
      ensures Rep(pool.Disk, t.kids[i], d) && t.kids[i].addr in pool.Disk
      ensures h > 1 && Wf(t.kids[i], d, h - 1, From(t.seps, i, lo), To(t.seps, i, hi), d)
      ensures Known(env.names, Rows(t.kids[i]), true) && multiset(Seps(t.kids[i])) <= SepBag(env.names.seps)
      ensures multiset(t.seps) <= SepBag(env.names.seps) && Increasing(t.seps)
    {
      hide BufferPool.Valid, Store.Valid, FreeList, SepBag, Less;
      KidPart(t.kids, i);
      forall e | e in Rows(t.kids[i])
        ensures e in Rows(t)
      {
        assert e in multiset(Rows(t.kids[i]));
      }
      assert multiset(Seps(t)) == multiset(t.seps) + multiset(ForestSeps(t.kids));
    }

    method TreeSearch(f: int, key: Text, ghost t: Tree, ghost h: nat, ghost lo: Bound, ghost hi: Bound, ghost m: nat)
      returns (rid: Rid)
      requires Inv() && Points(f, t) && Rep(pool.Disk, t, d) && Wf(t, d, h, lo, hi, m)
      requires t.Node? ==> m >= 1
      requires Known(env.names, Rows(t), true) && multiset(Seps(t)) <= SepBag(env.names.seps)
      requires |PinSet(pool.Pins)| + h <= CACHE_PAGE + 1
      modifies pool.Repr(), env.Repr()
      ensures Inv() && Undisturbed() && FramesStay()
      ensures Entry(rid, key) in Rows(t) || (rid == NULL_RID && forall e :: e in Rows(t) ==> e.key != key)
      decreases t, 0
    {
      hide Store.Valid, Less, Sound, SepBag, Seps, Known, RepAll, Ranged, Rep;
      Look(f, t);
      var p := pool.frames[f];
      if p.leaf {
        rid := SearchLeaf(p, key, t.rows);
        return;
      }
      KidReady(t, 0, h, lo, hi, m);
      SepsKnown(t.seps);
      var index := SearchIndex(p, key, t.seps);
      ghost var kid := t.kids[index];
      KidReady(t, index, h, lo, hi, m);
      rid := SearchKid(p.child[index], key, kid, h - 1, From(t.seps, index, lo), To(t.seps, index, hi));
      forall e: Entry | e.key == key
        ensures e in Rows(t) <==> e in Rows(kid)
      {
        OnlyBelow(t.seps, t.kids, index, e, d, h - 1, lo, hi, d);
      }
    }

    /** The step down, which the source writes out once for each choice of child. */
    method SearchKid(addr: int, key: Text, ghost t: Tree, ghost h: nat, ghost lo: Bound, ghost hi: Bound)
      returns (rid: Rid)
      requires Inv() && addr == t.addr && Rep(pool.Disk, t, d) && Wf(t, d, h, lo, hi, d)
      requires Known(env.names, Rows(t), true) && multiset(Seps(t)) <= SepBag(env.names.seps)
      requires |PinSet(pool.Pins)| + h <= CACHE_PAGE
      modifies pool.Repr(), env.Repr()
      ensures Inv() && Undisturbed() && FramesStay()
      ensures Entry(rid, key) in Rows(t) || (rid == NULL_RID && forall e :: e in Rows(t) ==> e.key != key)
      decreases t, 1
    {
      hide Store.Valid, Less, Sound, SepBag, Seps, Known, RepAll, Ranged, Rows;
      PinOne(pool.Pins, addr);
      var node := Pin(addr);
      rid := TreeSearch(node, key, t, h, lo, hi, d);
      Unpin(addr);
    }

    // ----- Writing pages -----

    /** Writing through the pointer to a page that is in use. */
    method Put(f: int, ghost a: int, page: IndexPage)
      requires Inv() && pool.Holds(f, a) && a in Used
      modifies pool`Disk, pool.frames
      ensures Inv() && pool.Disk == old(pool.Disk)[a := page]
    {
      hide BufferPool.Valid, Store.Valid, SepBag, Less;
      FreeDistinct(Used, Free, pool.Disk.Keys);
      assert a in pool.Disk && a != 0;
      pool.Store(f, page);
      assert pool.Disk.Keys == old(pool.Disk).Keys;
      FreeFrame(old(pool.Disk), pool.Disk, Free, d);
    }

    /** Where the next node will live: at the end of the file, or on the first free page. */
    ghost function NextAddr(): int
      requires Inv()
      reads Repr()
    {
      if Free == [] then pool.file.length else Free[0]
    }

    /** c points to the pinned control page. */
    ghost predicate Controls(c: int)
      requires pool.Shape()
      reads pool, pool.addrs
    {
      pool.Holds(c, 0) && 0 in pool.Pins
    }

    /** What adding a page with content q at address a does to the file. */
    twostate predicate Added(a: int, q: IndexPage)
      reads Repr()
    {
      && a > 0 && a !in old(Used) && Used == old(Used) + multiset{a}
      && (forall x :: x in old(pool.Disk) && x != 0 && x != a ==> x in pool.Disk && pool.Disk[x] == old(pool.Disk)[x])
      && a in pool.Disk && pool.Disk[a] == q
      && SameRoot()
      && pool.Pins == old(pool.Pins)
    }

    twostate predicate SameRoot()
      reads pool
    {
      && 0 in pool.Disk && 0 in old(pool.Disk)
      && pool.Disk[0].Ctrl? && old(pool.Disk)[0].Ctrl? && pool.Disk[0].root == old(pool.Disk)[0].root
    }

    method AppendNode(q: IndexPage)
      requires Inv() && Free == [] && Shaped(q, d)
      modifies pool`file, pool`Disk, `Used
      ensures Inv() && Added(old(NextAddr()), q)
    {
      hide BufferPool.Valid, Store.Valid, SepBag, Less, Conserved;
      pool.Addresses();
      FreeDistinct(Used, Free, pool.Disk.Keys);
      ghost var a := pool.file.length;
      ConserveAppend(Used, Free, pool.Disk.Keys, a);
      pool.Append(q);
      Used := Used + multiset{a};
      assert pool.Disk.Keys == old(pool.Disk).Keys + {a};
    }

    /** The free page in frame g leaves the free list and becomes q. */
    method TakeFree(c: int, g: int, q: IndexPage)
      requires Inv() && Controls(c) && Free != [] && pool.Holds(g, Free[0]) && Shaped(q, d)
      modifies pool`Disk, pool.frames, `Used, `Free
      ensures Inv() && Added(old(NextAddr()), q)
    {
      hide Store.Valid, Sound, SepBag, Less;
      Look0(c);
      LookAt(g, Free[0]);
      UnlinkFree(c, pool.frames[g].next);
      InUse(old(Free[0]));
      Put(g, old(Free[0]), q);
    }

    /** ctrl->free_node_head = next; */
    method UnlinkFree(c: int, next: int)
      requires Inv() && Controls(c) && Free != [] && Free[0] in pool.Disk && pool.Disk[Free[0]].BNode?
               && next == pool.Disk[Free[0]].next
      modifies pool`Disk, pool.frames, `Used, `Free
      ensures Inv() && SameRoot() && Used == old(Used) + multiset{old(Free[0])} && old(Free[0]) !in old(Used)
      ensures forall x :: x in old(pool.Disk) && x != 0 ==> x in pool.Disk && pool.Disk[x] == old(pool.Disk)[x]
    {
      hide BufferPool.Valid, Store.Valid, SepBag, Less, Conserved;
      FreeDistinct(Used, Free, pool.Disk.Keys);
      FreePop(pool.Disk, Free, d);
      pool.Frame(c, 0);
      assert Free[0] in Free;
      pool.Store(c, pool.frames[c].(freeHead := next));
      FreeTaken(old(pool.Disk), pool.Disk, Used, Free, d);
      Used := Used + multiset{Free[0]};
      Free := Free[1..];
    }

    method ReuseNode(c: int, q: IndexPage)
      requires Inv() && Controls(c) && Free != [] && Shaped(q, d)
      requires |PinSet(pool.Pins)| + 1 <= CACHE_PAGE
      modifies pool.Repr(), `Used, `Free
      ensures Inv() && FramesStay() && Added(old(NextAddr()), q)
    {
      hide Store.Valid, Sound, SepBag, Less;
      Look0(c);
      PinOne(pool.Pins, Free[0]);
      var addr := pool.frames[c].freeHead;
      var g := Pin(addr);
      TakeFree(c, g, q);
      Unpin(addr);
    }

    lemma {:induction false} LookAt(f: int, a: int)
      requires Inv() && pool.Holds(f, a) && a >= 0
      ensures d >= 2 && 0 <= f < pool.frames.Length && a in pool.Disk && pool.frames[f] == pool.Disk[a]
    {
      pool.Frame(f, a);
    }

    /** Reading the control page. */
    lemma {:induction false} Look0(c: int)
      requires Inv() && Controls(c)
      ensures 0 <= c < pool.frames.Length
      ensures 0 in pool.Disk && pool.frames[c] == pool.Disk[0] && pool.frames[c].Ctrl?
      ensures pool.frames[c].freeHead == if Free == [] then -1 else Free[0]
      ensures Free != [] ==> Free[0] in pool.Disk && Free[0] > 0 && pool.Disk[Free[0]].BNode?
      ensures NextAddr() == if pool.frames[c].freeHead == -1 then pool.file.length else pool.frames[c].freeHead
    {
      pool.Frame(c, 0);
      pool.Addresses();
      FreeDistinct(Used, Free, pool.Disk.Keys);
      assert Free != [] ==> Free[0] in Free;
    }

    /** The new page goes to the end of the file, or onto the first free page. */
    method AddPage(c: int, q: IndexPage)
      requires Inv() && Controls(c) && Shaped(q, d)
      requires |PinSet(pool.Pins)| + 1 <= CACHE_PAGE
      modifies pool.Repr(), `Used, `Free
      ensures Inv() && FramesStay() && Added(old(NextAddr()), q)
    {
      hide Store.Valid, Sound, SepBag, Less;
      Look0(c);
      if pool.frames[c].freeHead == -1 {
        AppendNode(q);
      } else {
        ReuseNode(c, q);
      }
    }

    // ----- Insertion -----

    /** t is part of the tree and f points to its top page. */
    ghost predicate Part(f: int, t: Tree, h: nat, lo: Bound, hi: Bound, m: nat, end: int)
      reads Repr()
    {
      && Inv() && Points(f, t)
      && Rep(pool.Disk, t, d)
      && Wf(t, d, h, lo, hi, m) && (t.Node? ==> m >= 1)
      && Known(env.names, Rows(t), true)
      && multiset(Seps(t)) <= SepBag(env.names.seps)
      && multiset(Pages(t)) <= Used
      && Linked(Leaves(t), end)
    }

    /** Also, c points to the control page. */
    ghost predicate Placed(c: int, f: int, t: Tree, h: nat, lo: Bound, hi: Bound, m: nat, end: int)
      reads Repr()
    {
      Part(f, t, h, lo, hi, m, end) && Controls(c)
    }

    /** What every step of an insertion or a deletion keeps. */
    twostate predicate Steady()
      reads Repr()
    {
      && Inv() && FramesStay() && SameRoot()
      && pool.Pins == old(pool.Pins)
      && env.names.recs == old(env.names.recs) && env.names.loose == old(env.names.loose)
    }

    ghost method Enter(e: Entry)
      requires Inv()
      modifies `Stored
      ensures Inv() && Stored == old(Stored) + multiset{e}
    {
      hide BufferPool.Valid, Store.Valid, FreeList, Conserved, SepBag;
      Stored := Stored + multiset{e};
    }

    lemma {:induction false} Here()
      ensures forall o :: o in Repr() ==> allocated(o)
    {
    }

    lemma {:induction false} InUse(a: int)
      requires Inv() && a in Used
      ensures a > 0 && a in pool.Disk && 0 !in Used
    {
      pool.Addresses();
      FreeDistinct(Used, Free, pool.Disk.Keys);
    }

    lemma {:induction false} TopInUse(t: Tree)
      requires Inv() && multiset(Pages(t)) <= Used
      ensures t.addr in Used && t.addr > 0 && t.addr in pool.Disk
    {
      assert t.addr in multiset(Pages(t));
      InUse(t.addr);
    }

    method InsertIntoLeaf(c: int, f: int, index: nat, rid: Rid, ghost t: Tree, ghost e: Entry,
                          ghost lo: Bound, ghost hi: Bound, ghost m: nat, ghost end: int)
      returns (ghost out: seq<Tree>)
      requires Placed(c, f, t, 1, lo, hi, m, end) && t.Leaf? && |t.rows| < 2 * d
      requires rid == e.rid && CanTake(env.names, e, Rows(t), lo, hi) && UpperBound(t.rows, e.key, index)
      modifies pool`Disk, pool.frames, `Stored
      ensures Steady() && |out| == 1
      ensures Grew(d, old(pool.Disk), old(Book()), pool.Disk, Book(), t, e, [], out, 1, lo, hi, m, end)
    {
      hide Store.Valid, Less, Sound, SepBag, Known, Linked, Turns, Wf, Ranged, Grew;
      Look(f, t);
      Look0(c);
      TopInUse(t);
      Here();
      var page := InsertRow(pool.frames[f], d, index, rid);
      Put(f, t.addr, page);
      Enter(e);
      out := [Leaf(t.addr, t.next, InsertAt(t.rows, index, e))];
      LeafGrew(d, old(pool.Disk), old(Book()), pool.Disk, Book(), t.addr, t.next, t.rows, e, index, lo, hi, m, end);
    }

    /** The first row on the right of a split leaf has a known key. */
    static lemma {:induction false} MiddleKey(names: Names, p: IndexPage, t: Tree, index: nat, e: Entry, d: nat)
      requires t.Leaf? && Shows(p, t, d) && Known(names, t.rows, true)
      requires names.KeyIs(e.rid, true, e.key) && |e.key| <= MAX_KEY
      requires index <= |t.rows| && d <= |t.rows|
      ensures |InsertAt(t.rows, index, e)| == |t.rows| + 1 == |InsertAt(RowsOf(p), index, e.rid)|
      ensures var k := InsertAt(t.rows, index, e)[d].key;
              names.KeyIs(InsertAt(RowsOf(p), index, e.rid)[d], true, k) && |k| <= MAX_KEY
    {
      hide InsertAt;
      ShownRids(p, t, d);
      InsertedAt(t.rows, index, e, d);
      InsertedAt(RowsOf(p), index, e.rid, d);
      hide RowsOf;
      assert InsertAt(t.rows, index, e)[d] == e || InsertAt(t.rows, index, e)[d] in t.rows;
      assert InsertAt(RowsOf(p), index, e.rid)[d] == InsertAt(t.rows, index, e)[d].rid;
    }

    static lemma {:induction false} ShownRids(p: IndexPage, t: Tree, d: nat)
      requires t.Leaf? && Shows(p, t, d)
      ensures |RowsOf(p)| == |t.rows| && forall x :: 0 <= x < |t.rows| ==> RowsOf(p)[x] == t.rows[x].rid
    {
    }

    /** The first row of the upper half of a leaf. */
    static lemma {:induction false} FirstOfHalf(p: IndexPage, d: nat, index: nat, rid: Rid, r: IndexPage, q: IndexPage)
      requires d >= 1 && Halved(p, d, index, rid, r, q)
      ensures q.BNode? && |q.row| > 0 && index <= |RowsOf(p)| && d < |InsertAt(RowsOf(p), index, rid)|
      ensures q.row[0] == InsertAt(RowsOf(p), index, rid)[d]
    {
      assert q.row[0] == RowsOf(q)[0];
    }

    /** insert_handler: a separator string of its own for key k. */
    method CopyKey(rid: Rid, leaf: bool, ghost k: Text) returns (r: Rid)
      requires Inv() && env.names.KeyIs(rid, leaf, k) && |k| <= MAX_KEY
      modifies env.Repr()
      ensures Steady() && pool.Disk == old(pool.Disk) && NextAddr() == old(NextAddr())
      ensures Book() == old(Book()).(seps := old(Book()).seps + multiset{Entry(r, k)})
      ensures env.names.KeyIs(r, false, k)
    {
      hide BufferPool.Valid, Store.Valid, Conserved, FreeList, SepBag;
      assert Strings.Prefix(k, MAX_KEY) == k;
      r := env.InsertHandler(rid, leaf, k);
      SepBagInsert(old(env.names.seps), r, k);
    }

    /** The two halves of a split node: r stays in frame f, q goes to a new page. */
    method AddSibling(c: int, f: int, ghost a: int, q: IndexPage, r: IndexPage)
      requires Inv() && Controls(c) && pool.Holds(f, a) && a in pool.Pins && a in Used
      requires Shaped(q, d) && Shaped(r, d)
      requires |PinSet(pool.Pins)| + 1 <= CACHE_PAGE
      modifies pool.Repr(), `Used, `Free
      ensures Steady()
      ensures var b := old(NextAddr());
              && b > 0 && a != b && b !in old(Used)
              && a in pool.Disk && pool.Disk[a] == r && b in pool.Disk && pool.Disk[b] == q
              && Book() == old(Book()).(pages := old(Used) + multiset{b})
      ensures TreePages.OthersStay(old(pool.Disk), pool.Disk, old(Used), [a])
    {
      hide Store.Valid, Less, Sound, SepBag;
      Look0(c);
      InUse(a);
      AddPage(c, q);
      Put(f, a, r);
    }

    /** The two halves of a full leaf, and a copy of the first key of the upper one. */
    method HalveLeaf(c: int, f: int, index: nat, rid: Rid, ghost t: Tree, ghost e: Entry)
      returns (addr: int, r: IndexPage, q: IndexPage, up: Rid)
      requires Inv() && Controls(c) && Points(f, t) && Rep(pool.Disk, t, d) && t.Leaf? && |t.rows| == 2 * d
      requires Known(env.names, Rows(t), true) && env.names.KeyIs(rid, true, e.key) && |e.key| <= MAX_KEY
      requires rid == e.rid && index <= |t.rows|
      modifies env.Repr()
      ensures Steady() && pool.Disk == old(pool.Disk) && NextAddr() == old(NextAddr()) == addr
      ensures |InsertAt(t.rows, index, e)| == 2 * d + 1
      ensures Book() == old(Book()).(seps := old(Book()).seps + multiset{Entry(up, InsertAt(t.rows, index, e)[d].key)})
      ensures Shaped(r, d) && r.leaf && r.next == addr && Shaped(q, d) && q.leaf && q.next == t.next
      ensures t.addr in pool.Disk && Halved(pool.Disk[t.addr], d, index, rid, r, q)
    {
      hide Store.Valid, Less, Sound, SepBag, InsertAt, RowsOf, Known, Shaped;
      Look(f, t);
      Look0(c);
      Here();
      addr := if pool.frames[c].freeHead == -1 then pool.file.length else pool.frames[c].freeHead;
      MiddleKey(env.names, pool.frames[f], t, index, e, d);
      r, q := SplitLeaf(pool.frames[f], d, index, rid, addr);
      FirstOfHalf(pool.frames[f], d, index, rid, r, q);
      up := CopyKey(q.row[0], true, InsertAt(t.rows, index, e)[d].key);
    }

    /** The page of a full leaf is split; the books say so. */
    method SplitLeafPage(c: int, f: int, index: nat, rid: Rid, ghost t: Tree, ghost e: Entry)
      returns (addr: int, up: Rid)
      requires Inv() && Controls(c) && Points(f, t) && Rep(pool.Disk, t, d) && t.Leaf? && |t.rows| == 2 * d
               && t.addr in Used
      requires Known(env.names, Rows(t), true) && env.names.KeyIs(rid, true, e.key) && |e.key| <= MAX_KEY
      requires rid == e.rid && index <= |t.rows|
      requires |PinSet(pool.Pins)| + 1 <= CACHE_PAGE
      modifies pool.Repr(), env.Repr(), `Used, `Free, `Stored
      ensures Steady() && addr > 0 && addr != t.addr && addr !in old(Used)
      ensures |InsertAt(t.rows, index, e)| == 2 * d + 1
      ensures var s := Entry(up, InsertAt(t.rows, index, e)[d].key);
              Book() == Ledger(old(Book()).rows + multiset{e}, old(Book()).seps + multiset{s},
                               old(Book()).pages + multiset{addr})
      ensures t.addr in old(pool.Disk) && t.addr in pool.Disk && addr in pool.Disk
      ensures Halved(old(pool.Disk)[t.addr], d, index, rid, pool.Disk[t.addr], pool.Disk[addr])
      ensures pool.Disk[t.addr].leaf && pool.Disk[t.addr].next == addr && pool.Disk[addr].leaf
              && pool.Disk[addr].next == t.next
      ensures TreePages.OthersStay(old(pool.Disk), pool.Disk, old(Used), [t.addr])
    {
      hide Store.Valid, Less, Sound, SepBag, InsertAt, RowsOf, Known, Shaped, Rep, TreePages.OthersStay;
      var r, q;
      addr, r, q, up := HalveLeaf(c, f, index, rid, t, e);
      AddSibling(c, f, t.addr, q, r);
      Enter(e);
      assert SameRoot() && FramesStay();
    }

    method SplitFullLeaf(c: int, f: int, index: nat, rid: Rid, ghost t: Tree, ghost e: Entry,
                         ghost lo: Bound, ghost hi: Bound, ghost m: nat, ghost end: int)
      returns (addr: int, up: Rid, ghost mid: seq<Entry>, ghost out: seq<Tree>)
      requires Placed(c, f, t, 1, lo, hi, m, end) && t.Leaf? && |t.rows| == 2 * d
      requires rid == e.rid && CanTake(env.names, e, Rows(t), lo, hi) && UpperBound(t.rows, e.key, index)
      requires |PinSet(pool.Pins)| + 1 <= CACHE_PAGE
      modifies pool.Repr(), env.Repr(), `Used, `Free, `Stored
      ensures Steady() && |out| == 2 && |mid| == 1 && out[1].addr == addr && mid[0].rid == up && addr > 0
      ensures Grew(d, old(pool.Disk), old(Book()), pool.Disk, Book(), t, e, mid, out, 1, lo, hi, m, end)
    {
      hide Store.Valid, Less, Sound, SepBag, Linked, Turns, Wf, Ranged, Grew, InsertAt, RowsOf, Known, Shaped, Halved;
      TopInUse(t);
      ghost var all := InsertAt(t.rows, index, e);
      addr, up := SplitLeafPage(c, f, index, rid, t, e);
      mid := [Entry(up, all[d].key)];
      out := [Leaf(t.addr, addr, all[..d]), Leaf(addr, t.next, all[d..])];
      LeafHalvedGrew(d, old(pool.Disk), old(Book()), pool.Disk, Book(), t.addr, addr, t.next, t.rows, e, mid[0], index,
                    lo, hi, m, end);
    }

    /** Kid index of t has been split: t has room for the new kid. */
    method InsertIntoNode(c: int, f: int, index: nat, rid: Rid, addr: int, ghost disk0: Disk, ghost l0: Ledger,
                          ghost t: Tree, ghost e: Entry, ghost mid: seq<Entry>, ghost kids: seq<Tree>,
                          ghost h: nat, ghost lo: Bound, ghost hi: Bound, ghost m: nat, ghost end: int)
      returns (ghost out: seq<Tree>)
      requires Inv() && Controls(c) && Points(f, t) && |kids| == 2
      requires KidGrew(d, disk0, l0, pool.Disk, Book(), t, index, e, mid, kids, h, lo, hi, m, end)
      requires rid == mid[0].rid && addr == kids[1].addr && |t.seps| < 2 * d
      modifies pool`Disk, pool.frames
      ensures Steady() && |out| == 1 && Book() == old(Book())
      ensures Grew(d, disk0, l0, pool.Disk, Book(), t, e, [], out, h, lo, hi, m, end)
    {
      hide Store.Valid, Less, Sound, SepBag, Known, Linked, Turns, Wf, Ranged, Grew, Widened, KidGrew;
      Widening(d, disk0, l0, pool.Disk, Book(), t, index, e, mid, kids, h, lo, hi, m, end);
      NodePage(disk0, t, d, index, l0, pool.Disk, Book(), e, mid, kids, h, lo, hi, m, end);
      Look0(c);
      InUse(t.addr);
      LookAt(f, t.addr);
      Here();
      var page := InsertChild(pool.frames[f], d, index, rid, addr);
      Put(f, t.addr, page);
      out := [Widened(t, index, mid, kids)];
      NodeTakes(d, disk0, l0, old(pool.Disk), pool.Disk, Book(), t, index, e, mid, kids, h, lo, hi, m, end);
    }

    /** The two halves of a full node that takes in one more kid. */
    method HalveNode(c: int, f: int, index: nat, rid: Rid, addr: int, ghost t: Tree)
      returns (newAddr: int, r: IndexPage, up: Rid, q: IndexPage)
      requires Inv() && Controls(c) && Points(f, t) && t.addr in pool.Disk && Shows(pool.Disk[t.addr], t, d)
      requires t.Node? && |t.seps| == 2 * d && index <= |t.seps|
      ensures Inv() && NextAddr() == newAddr
      ensures Shaped(r, d) && Shaped(q, d) && NodeHalves(pool.Disk[t.addr], d, index, rid, addr, r, up, q)
    {
      hide Store.Valid, Less, Sound, SepBag, NodeHalves;
      Look0(c);
      LookAt(f, t.addr);
      Here();
      newAddr := if pool.frames[c].freeHead == -1 then pool.file.length else pool.frames[c].freeHead;
      r, up, q := SplitNode(pool.frames[f], d, index, rid, addr);
    }

    /** Kid index of t has been split and t is full: it is split as well. */
    method SplitFullNode(c: int, f: int, index: nat, rid: Rid, addr: int, ghost disk0: Disk, ghost l0: Ledger,
                         ghost t: Tree, ghost e: Entry, ghost mid: seq<Entry>, ghost kids: seq<Tree>,
                         ghost h: nat, ghost lo: Bound, ghost hi: Bound, ghost m: nat, ghost end: int)
      returns (newAddr: int, up: Rid, ghost s: seq<Entry>, ghost out: seq<Tree>)
      requires Inv() && Controls(c) && Points(f, t) && |kids| == 2
      requires KidGrew(d, disk0, l0, pool.Disk, Book(), t, index, e, mid, kids, h, lo, hi, m, end)
      requires rid == mid[0].rid && addr == kids[1].addr && |t.seps| == 2 * d
      requires |PinSet(pool.Pins)| + 1 <= CACHE_PAGE
      modifies pool.Repr(), `Used, `Free
      ensures Steady() && |out| == 2 && |s| == 1 && out[1].addr == newAddr && s[0].rid == up && newAddr > 0
      ensures Grew(d, disk0, l0, pool.Disk, Book(), t, e, s, out, h, lo, hi, m, end)
    {
      hide Store.Valid, Less, Sound, SepBag, Known, Linked, Turns, Wf, Ranged, Grew, Widened, InsertAt, KidGrew,
           LowerHalf, UpperHalf, RowsOf, KidsOf, Shaped, Shows, NodeHalves;
      Widening(d, disk0, l0, pool.Disk, Book(), t, index, e, mid, kids, h, lo, hi, m, end);
      NodePage(disk0, t, d, index, l0, pool.Disk, Book(), e, mid, kids, h, lo, hi, m, end);
      var r, q;
      newAddr, r, up, q := HalveNode(c, f, index, rid, addr, t);
      AddSibling(c, f, t.addr, q, r);
      ghost var w := Widened(t, index, mid, kids);
      NodeHalved(d, disk0, l0, old(pool.Disk), old(Book()), pool.Disk, Book(), t, index, e, mid, kids, newAddr, up,
                 h, lo, hi, m, end);
      s := [w.seps[d]];
      out := [LowerHalf(w, d), UpperHalf(w, d, newAddr)];
      HalfAddrs(w, d, newAddr);
    }

    static lemma {:induction false} HalfAddrs(w: Tree, d: nat, b: int)
      requires w.Node? && |w.seps| == 2 * d + 1 && |w.kids| == 2 * d + 2
      ensures UpperHalf(w, d, b).addr == b
    {
    }

    /** The page of a node whose kid has grown is as it was. */
    static lemma {:induction false} NodePage(disk0: Disk, t: Tree, d: nat, i: nat, l0: Ledger, disk1: Disk,
                                             l1: Ledger, e: Entry, mid: seq<Entry>, out: seq<Tree>, h: nat, lo: Bound,
                                             hi: Bound, m: nat, end: int)
      requires KidGrew(d, disk0, l0, disk1, l1, t, i, e, mid, out, h, lo, hi, m, end)
      ensures |mid| == |out| - 1
      ensures t.Node? && i < |t.kids| && t.addr in disk0 && Shows(disk0[t.addr], t, d) && i <= |t.seps|
    {
    }

    /** What a step down to kid i needs, apart from the pointer to it. */
    lemma {:induction false} KidPlaced(c: int, f: int, t: Tree, i: nat, h: nat, lo: Bound, hi: Bound, m: nat, end: int)
      requires Placed(c, f, t, h, lo, hi, m, end) && t.Node? && i < |t.kids|
      ensures var k := t.kids[i];
              && Rep(pool.Disk, k, d) && k.addr in pool.Disk && k.addr >= 0
              && h > 1 && i <= |t.seps| && Wf(k, d, h - 1, From(t.seps, i, lo), To(t.seps, i, hi), d)
              && Known(env.names, Rows(k), true)
              && multiset(Seps(k)) <= SepBag(env.names.seps)
              && multiset(Pages(k)) <= Used
              && Linked(Leaves(k), First(ForestLeaves(t.kids[i + 1..]), end))
              && pool.Disk[t.addr].BNode? && i < |pool.Disk[t.addr].child| && pool.Disk[t.addr].child[i] == k.addr
      ensures d >= 2 && Once(Used)
    {
      hide BufferPool.Valid, Store.Valid, FreeList, SepBag, Less, Seps, Linked;
      KidReady(t, i, h, lo, hi, m);
      KidLinked(t.kids, i, end);
      pool.Addresses();
      FreeDistinct(Used, Free, pool.Disk.Keys);
      KidWithin(t, i, Used);
      forall a
        ensures multiset(Pages(t.kids[i]))[a] <= Used[a]
      {
      }
    }

    lemma {:induction false} OnceUsed()
      requires Inv()
      ensures Once(Used)
    {
      FreeDistinct(Used, Free, pool.Disk.Keys);
    }

    /** get_page on kid index of t. */
    method PinChild(c: int, f: int, index: nat, ghost t: Tree,
                    ghost h: nat, ghost lo: Bound, ghost hi: Bound, ghost m: nat, ghost end: int)
      returns (child: int, node: int)
      requires Placed(c, f, t, h, lo, hi, m, end) && t.Node? && index < |t.kids| == |t.seps| + 1
      requires |PinSet(pool.Pins)| + h <= CACHE_PAGE
      modifies pool.Repr()
      ensures h > 1 && Steadfast(child) && child == t.kids[index].addr && 0 in pool.Pins && Once(Used)
      ensures Part(node, t.kids[index], h - 1, From(t.seps, index, lo), To(t.seps, index, hi), d,
                   First(ForestLeaves(t.kids[index + 1..]), end))
      ensures Wf(t, d, h, lo, hi, m) && Rep(pool.Disk, t, d) && multiset(Pages(t)) <= Used
      ensures |PinSet(pool.Pins)| + h - 1 <= CACHE_PAGE
    {
      hide Store.Valid, Less, Sound, SepBag, Known, Linked, Wf, Rep, Rows, Seps, Pages, Leaves;
      KidPlaced(c, f, t, index, h, lo, hi, m, end);
      LookAt(f, t.addr);
      PinOne(pool.Pins, t.kids[index].addr);
      child := pool.frames[f].child[index];
      node := Pin(child);
    }

    /** Nothing has changed but that one more page is pinned. */
    twostate predicate Steadfast(child: int)
      reads Repr()
    {
      && Inv() && FramesStay() && pool.Disk == old(pool.Disk)
      && pool.Pins == old(pool.Pins) + multiset{child}
    }

    /** tree_insert, below a node: get_page, the recursive call, release. */
    method InsertBelow(c: int, f: int, index: nat, rid: Rid, ghost t: Tree, ghost e: Entry,
                       ghost h: nat, ghost lo: Bound, ghost hi: Bound, ghost m: nat, ghost end: int)
      returns (addr: int, up: Rid, ghost mid: seq<Entry>, ghost kids: seq<Tree>)
      requires Placed(c, f, t, h, lo, hi, m, end) && t.Node? && |t.kids| == |t.seps| + 1
      requires rid == e.rid && CanTake(env.names, e, Rows(t), lo, hi) && UpperBound(t.seps, e.key, index)
      requires |PinSet(pool.Pins)| + h <= CACHE_PAGE
      modifies pool.Repr(), env.Repr(), `Used, `Free, `Stored
      ensures Steady()
      ensures KidGrew(d, old(pool.Disk), old(Book()), pool.Disk, Book(), t, index, e, mid, kids, h, lo, hi, m, end)
      ensures if addr == -1 then |kids| == 1
              else |kids| == 2 && |mid| == 1 && kids[1].addr == addr && mid[0].rid == up
      decreases t, 0
    {
      hide Store.Valid, Less, Sound, SepBag, Known, Linked, Turns, Wf, Ranged, Grew, CanTake, Rep, Rows, Seps, Pages,
           Leaves, Part;
      CanTakeBelow(env.names, e, t, index, lo, hi);
      var child, node := PinChild(c, f, index, t, h, lo, hi, m, end);
      addr, up, mid, kids := InsertAndLeave(child, node, rid, t.kids[index], e, h - 1, From(t.seps, index, lo),
                                            To(t.seps, index, hi), First(ForestLeaves(t.kids[index + 1..]), end));
      OnceUsed();
    }

    /** tree_insert on a child, and release. */
    method InsertAndLeave(child: int, node: int, rid: Rid, ghost t: Tree, ghost e: Entry,
                          ghost h: nat, ghost lo: Bound, ghost hi: Bound, ghost end: int)
      returns (addr: int, up: Rid, ghost mid: seq<Entry>, ghost out: seq<Tree>)
      requires Part(node, t, h, lo, hi, d, end) && 0 in pool.Pins && child in pool.Pins
      requires rid == e.rid && CanTake(env.names, e, Rows(t), lo, hi)
      requires |PinSet(pool.Pins)| + h <= CACHE_PAGE
      modifies pool.Repr(), env.Repr(), `Used, `Free, `Stored
      ensures Inv() && FramesStay() && SameRoot() && pool.Pins == old(pool.Pins) - multiset{child}
      ensures env.names.recs == old(env.names.recs) && env.names.loose == old(env.names.loose)
      ensures Grew(d, old(pool.Disk), old(Book()), pool.Disk, Book(), t, e, mid, out, h, lo, hi, d, end)
      ensures if addr == -1 then |out| == 1
              else |out| == 2 && |mid| == 1 && out[1].addr == addr && mid[0].rid == up
      decreases t, 4
    {
      hide Store.Valid, Less, Sound, SepBag, Part, Grew, CanTake, Rows;
      addr, up, mid, out := TreeInsert(node, rid, t, e, h, lo, hi, d, end);
      Unpin(child);
    }

    lemma {:induction false} PartPoints(f: int, t: Tree, h: nat, lo: Bound, hi: Bound, m: nat, end: int)
      requires Part(f, t, h, lo, hi, m, end)
      ensures Inv() && Points(f, t)
    {
    }

    /** get_page on the control page. */
    method PinTop(ghost f: int, ghost t: Tree, ghost h: nat, ghost lo: Bound, ghost hi: Bound, ghost m: nat,
                  ghost end: int)
      returns (c: int)
      requires Part(f, t, h, lo, hi, m, end) && 0 in pool.Pins && |PinSet(pool.Pins)| <= CACHE_PAGE
      modifies pool.Repr()
      ensures Placed(c, f, t, h, lo, hi, m, end) && FramesStay() && SameRoot() && pool.Disk == old(pool.Disk)
      ensures pool.Pins == old(pool.Pins) + multiset{0} && PinSet(pool.Pins) == PinSet(old(pool.Pins))
    {
      hide Store.Valid, Less, Sound, SepBag, Known, Linked, Wf, Rep, Rows, Leaves, Pages, Seps;
      ZeroPage();
      Zero();
      PinOne(pool.Pins, 0);
      c := Pin(0);
    }

    /** tree_insert. The new entry for the level above is (addr, up), with addr -1 if there is none. */
    method TreeInsert(f: int, rid: Rid, ghost t: Tree, ghost e: Entry,
                      ghost h: nat, ghost lo: Bound, ghost hi: Bound, ghost m: nat, ghost end: int)
      returns (addr: int, up: Rid, ghost mid: seq<Entry>, ghost out: seq<Tree>)
      requires Part(f, t, h, lo, hi, m, end) && 0 in pool.Pins
      requires rid == e.rid && CanTake(env.names, e, Rows(t), lo, hi)
      requires |PinSet(pool.Pins)| + h <= CACHE_PAGE
      modifies pool.Repr(), env.Repr(), `Used, `Free, `Stored
      ensures Steady()
      ensures Grew(d, old(pool.Disk), old(Book()), pool.Disk, Book(), t, e, mid, out, h, lo, hi, m, end)
      ensures if addr == -1 then |out| == 1
              else |out| == 2 && |mid| == 1 && out[1].addr == addr && mid[0].rid == up
      decreases t, 3
    {
      hide Store.Valid, Less, Sound, SepBag, Part, Placed, Grew, CanTake, Rows;
      PartPoints(f, t, h, lo, hi, m, end);
      Zero();
      var c := PinTop(f, t, h, lo, hi, m, end);
      addr, up, mid, out := InsertPinned(c, f, rid, t, e, h, lo, hi, m, end);
    }

    /** The control page is pinned once more, and is released in the end. */
    method InsertPinned(c: int, f: int, rid: Rid, ghost t: Tree, ghost e: Entry,
                        ghost h: nat, ghost lo: Bound, ghost hi: Bound, ghost m: nat, ghost end: int)
      returns (addr: int, up: Rid, ghost mid: seq<Entry>, ghost out: seq<Tree>)
      requires Placed(c, f, t, h, lo, hi, m, end) && 0 in pool.Pins
      requires rid == e.rid && CanTake(env.names, e, Rows(t), lo, hi)
      requires |PinSet(pool.Pins)| + h <= CACHE_PAGE
      modifies pool.Repr(), env.Repr(), `Used, `Free, `Stored
      ensures Inv() && FramesStay() && SameRoot() && pool.Pins == old(pool.Pins) - multiset{0}
      ensures env.names.recs == old(env.names.recs) && env.names.loose == old(env.names.loose)
      ensures Grew(d, old(pool.Disk), old(Book()), pool.Disk, Book(), t, e, mid, out, h, lo, hi, m, end)
      ensures if addr == -1 then |out| == 1
              else |out| == 2 && |mid| == 1 && out[1].addr == addr && mid[0].rid == up
      decreases t, 2
    {
      hide Store.Valid, Less, Sound, SepBag, Placed, Grew, CanTake, Rows;
      addr, up, mid, out := InsertHere(c, f, rid, t, e, h, lo, hi, m, end);
      Unpin(0);
    }

    lemma {:induction false} Zero()
      requires Inv()
      ensures 0 in pool.Disk
      ensures 0 in pool.Pins ==> PinSet(pool.Pins) + {0} == PinSet(pool.Pins)
    {
      hide BufferPool.Valid, Store.Valid, FreeList, Conserved;
    }

    /** c and f point to the control page and to the page of t, whose size and kind f shows. */
    ghost predicate Located(c: int, f: int, t: Tree, h: nat)
      reads pool, pool.addrs, pool.frames
    {
      && pool.Shape() && Points(f, t) && Controls(c) && d >= 2
      && 0 <= f < pool.frames.Length
      && var p := pool.frames[f];
         && p.BNode? && p.leaf == t.Leaf? && p.n == |Entries(t)| <= 2 * d
         && (if t.Leaf? then h == 1 else h > 1 && |t.kids| == |t.seps| + 1)
    }

    /** find_index on the top page of t; the comparisons disturb nothing. */
    method PlaceOf(c: int, f: int, rid: Rid, ghost t: Tree, ghost k: Text,
                   ghost h: nat, ghost lo: Bound, ghost hi: Bound, ghost m: nat, ghost end: int)
      returns (index: nat)
      requires Placed(c, f, t, h, lo, hi, m, end) && env.names.KeyIs(rid, true, k)
      modifies env.Repr()
      ensures Placed(c, f, t, h, lo, hi, m, end) && Undisturbed() && FramesStay() && Book() == old(Book())
      ensures SameRoot() && Located(c, f, t, h)
      ensures UpperBound(Entries(t), k, index)
    {
      hide Store.Valid, Less, Sound, SepBag, Linked, Rep, Pages, Leaves, Ranged, UpperBound;
      Zero();
      Look(f, t);
      TopKnown(t, h, lo, hi, m);
      index := FindIndex(pool.frames[f], rid, true, Entries(t), k);
      Look(f, t);
      Look0(c);
    }

    lemma {:induction false} TopKnown(t: Tree, h: nat, lo: Bound, hi: Bound, m: nat)
      requires env.Valid() && Wf(t, d, h, lo, hi, m)
      requires Known(env.names, Rows(t), true) && multiset(Seps(t)) <= SepBag(env.names.seps)
      ensures Known(env.names, Entries(t), t.Leaf?) && Increasing(Entries(t))
    {
      hide Store.Valid, Less, SepBag;
      if t.Node? {
        assert multiset(Seps(t)) == multiset(t.seps) + multiset(ForestSeps(t.kids));
        SepsKnown(t.seps);
      }
    }

    /** tree_insert, back from below a node. */
    method InsertAbove(c: int, f: int, index: nat, addr: int, rid: Rid, ghost disk0: Disk, ghost l0: Ledger,
                       ghost t: Tree, ghost e: Entry, ghost mid: seq<Entry>, ghost kids: seq<Tree>,
                       ghost h: nat, ghost lo: Bound, ghost hi: Bound, ghost m: nat, ghost end: int)
      returns (newAddr: int, up: Rid, ghost s: seq<Entry>, ghost out: seq<Tree>)
      requires Inv() && Controls(c) && Points(f, t)
      requires KidGrew(d, disk0, l0, pool.Disk, Book(), t, index, e, mid, kids, h, lo, hi, m, end)
      requires if addr == -1 then |kids| == 1
               else |kids| == 2 && |mid| == 1 && kids[1].addr == addr && mid[0].rid == rid
      requires |PinSet(pool.Pins)| + 1 <= CACHE_PAGE
      modifies pool.Repr(), `Used, `Free
      ensures Steady()
      ensures Grew(d, disk0, l0, pool.Disk, Book(), t, e, s, out, h, lo, hi, m, end)
      ensures if newAddr == -1 then |out| == 1
              else |out| == 2 && |s| == 1 && out[1].addr == newAddr && s[0].rid == up
    {
      hide Store.Valid, Less, Sound, SepBag, Known, Linked, Turns, Wf, Ranged, Grew, Widened, KidGrew;
      newAddr, up, s := -1, NULL_RID, [];
      Look0(c);
      NodePage(disk0, t, d, index, l0, pool.Disk, Book(), e, mid, kids, h, lo, hi, m, end);
      if addr == -1 {
        NodeKept(d, disk0, l0, pool.Disk, Book(), t, index, e, mid, kids, h, lo, hi, m, end);
        out := [Widened(t, index, mid, kids)];
        return;
      }
      Widening(d, disk0, l0, pool.Disk, Book(), t, index, e, mid, kids, h, lo, hi, m, end);
      LookAt(f, t.addr);
      if pool.frames[f].n < 2 * d {
        out := InsertIntoNode(c, f, index, rid, addr, disk0, l0, t, e, mid, kids, h, lo, hi, m, end);
      } else {
        newAddr, up, s, out := SplitFullNode(c, f, index, rid, addr, disk0, l0, t, e, mid, kids, h, lo, hi, m, end);
      }
    }

    method InsertHere(c: int, f: int, rid: Rid, ghost t: Tree, ghost e: Entry,
                      ghost h: nat, ghost lo: Bound, ghost hi: Bound, ghost m: nat, ghost end: int)
      returns (addr: int, up: Rid, ghost mid: seq<Entry>, ghost out: seq<Tree>)
      requires Placed(c, f, t, h, lo, hi, m, end)
      requires rid == e.rid && CanTake(env.names, e, Rows(t), lo, hi)
      requires |PinSet(pool.Pins)| + h <= CACHE_PAGE
      modifies pool.Repr(), env.Repr(), `Used, `Free, `Stored
      ensures Steady()
      ensures Grew(d, old(pool.Disk), old(Book()), pool.Disk, Book(), t, e, mid, out, h, lo, hi, m, end)
      ensures if addr == -1 then |out| == 1
              else |out| == 2 && |mid| == 1 && out[1].addr == addr && mid[0].rid == up
      decreases t, 1
    {
      hide Store.Valid, Less, Sound, SepBag, Part, Turns, Grew, KidGrew, UpperBound;
      var index := PlaceOf(c, f, rid, t, e.key, h, lo, hi, m, end);
      var p := pool.frames[f];
      if p.leaf {
        if p.n < 2 * d {
          mid := [];
          out := InsertIntoLeaf(c, f, index, rid, t, e, lo, hi, m, end);
          addr, up := -1, NULL_RID;
        } else {
          addr, up, mid, out := SplitFullLeaf(c, f, index, rid, t, e, lo, hi, m, end);
        }
        return;
      }
      ghost var kids;
      addr, up, mid, kids := InsertBelow(c, f, index, rid, t, e, h, lo, hi, m, end);
      addr, up, mid, out := InsertAbove(c, f, index, addr, up, old(pool.Disk), old(Book()), t, e, mid, kids,
                                        h, lo, hi, m, end);
    }

    // ----- Deletion -----

    /** fp points to the page of t, fc to that of its kid i, below which the row e is to be deleted. */
    ghost predicate Deleting(fp: int, fc: int, t: Tree, i: nat, e: Entry,
                             h: nat, lo: Bound, hi: Bound, m: nat, end: int)
      reads Repr()
    {
      && Part(fp, t, h, lo, hi, m, end)
      && t.Node? && i < |t.kids| && Points(fc, t.kids[i])
      && e in Rows(t.kids[i]) && e in Stored
    }

    /** The books without the separator that still has to be taken off the page of t. */
    ghost function Rest(t: Tree, pend: int): Ledger
      requires pend != -1 ==> t.Node? && 0 <= pend < |t.seps|
      reads this`Stored, this`Used, env
    {
      if pend == -1 then Book() else Book().(seps := Book().seps - multiset{t.seps[pend]})
    }

    /** What tree_delete reports to the level above: a separator that has to go, or none. */
    ghost predicate Reports(t: Tree, pend: int, old0: Rid)
      reads this`Stored, this`Used, env
    {
      if pend == -1 then old0.addr == -1
      else t.Node? && 0 <= pend < |t.seps| && old0 == t.seps[pend].rid && old0.addr != -1 && t.seps[pend] in Book().seps
    }

    /** Row e has gone from below t, and t is to be w: the outcome of tree_delete, seen from the parent. */
    ghost predicate Deleted(disk0: Disk, l0: Ledger, t: Tree, e: Entry, pend: int, old0: Rid, w: Tree,
                            h: nat, lo: Bound, hi: Bound, end: int)
      reads this`Stored, this`Used, pool`Disk, env
    {
      && Reports(t, pend, old0)
      && Shrunk(d, disk0, l0, pool.Disk, Rest(t, pend), t, e, pend, w, h, lo, hi, end)
    }

    ghost method Leave(e: Entry)
      requires Inv() && e in Stored
      modifies `Stored
      ensures Inv() && Stored == old(Stored) - multiset{e}
    {
      hide BufferPool.Valid, Store.Valid, FreeList, Conserved, SepBag;
      Stored := Stored - multiset{e};
    }

    /** sibling->next = ctrl->free_node_head; ctrl->free_node_head = a; */
    method PushFree(c: int, f: int, a: int)
      requires Inv() && Controls(c) && pool.Holds(f, a) && a in Used
      requires a in pool.Disk && Shaped(pool.Disk[a], d)
      modifies pool`Disk, pool.frames, `Used, `Free
      ensures Inv() && SameRoot() && Used + multiset{a} == old(Used)
      ensures forall x :: x in old(pool.Disk) && x != 0 && x != a ==>
                x in pool.Disk && pool.Disk[x] == old(pool.Disk)[x]
      ensures a in pool.Disk && pool.Disk[a] == old(pool.Disk)[a].(next := old(Head(Free)))
    {
      hide Store.Valid, Sound, SepBag, Less;
      Look0(c);
      InUse(a);
      LookAt(f, a);
      Put(f, a, pool.frames[f].(next := pool.frames[c].freeHead));
      LinkFree(c, a);
    }

    method LinkFree(c: int, a: int)
      requires Inv() && Controls(c) && a in Used
      requires a in pool.Disk && Shaped(pool.Disk[a], d) && pool.Disk[a].next == Head(Free)
      modifies pool`Disk, pool.frames, `Used, `Free
      ensures Inv() && SameRoot() && Used + multiset{a} == old(Used)
      ensures forall x :: x in old(pool.Disk) && x != 0 ==> x in pool.Disk && pool.Disk[x] == old(pool.Disk)[x]
    {
      hide BufferPool.Valid, Store.Valid, SepBag, Less, Conserved;
      FreeDistinct(Used, Free, pool.Disk.Keys);
      pool.Frame(c, 0);
      pool.Store(c, pool.frames[c].(freeHead := a));
      assert pool.Disk.Keys == old(pool.Disk).Keys;
      FreeFrame(old(pool.Disk), pool.Disk, Free, d);
      FreePush(pool.Disk, Free, a, d);
      ConservePush(Used, Free, pool.Disk.Keys, a);
      Used := Used - multiset{a};
      Free := [a] + Free;
    }

    /** delete_handler: the separator string is given up. */
    method DropKey(rid: Rid, ghost s: Entry)
      requires Inv() && rid == s.rid && s in SepBag(env.names.seps)
      modifies env.Repr()
      ensures Steady() && pool.Disk == old(pool.Disk)
      ensures Book() == old(Book()).(seps := Book().seps) && Book().seps + multiset{s} == old(Book()).seps
    {
      hide BufferPool.Valid, Store.Valid, Conserved, FreeList;
      assert s.rid in env.names.seps && env.names.seps[s.rid] == s.key;
      SepBagDelete(env.names.seps, rid);
      env.DeleteHandler(rid);
    }

    /** find_index in the parent, for a key of kid i, finds the slot of this kid. */
    method SlotOf(fp: int, rid: Rid, leaf: bool, ghost t: Tree, ghost i: nat, ghost k: Text, ghost lo: Bound,
                  ghost hi: Bound)
      returns (j: nat)
      requires Inv() && Points(fp, t) && t.addr in pool.Disk && Shows(pool.Disk[t.addr], t, d)
      requires t.Node? && multiset(t.seps) <= SepBag(env.names.seps) && Increasing(t.seps)
      requires env.names.KeyIs(rid, leaf, k) && i <= |t.seps| && AtLeast(From(t.seps, i, lo), k)
               && Below(k, To(t.seps, i, hi))
      modifies env.Repr()
      ensures Inv() && Undisturbed() && FramesStay()
      ensures j == i
    {
      hide Store.Valid, Less, Sound, SepBag, Known, UpperBound;
      LookAt(fp, t.addr);
      StoreValid();
      SepsKnown(t.seps);
      j := FindIndex(pool.frames[fp], rid, leaf, t.seps, k);
      LeadsToKid(t.seps, i, lo, hi, k, j);
    }

    lemma {:induction false} StoreValid()
      requires Inv()
      ensures env.Valid()
    {
    }

    /** Row index - 1 is the one to delete; without it, kid i is thin. */
    lemma {:induction false} ThinnedLeaf(fp: int, fc: int, index: nat, page: IndexPage, t: Tree, i: nat, e: Entry,
                                         h: nat, lo: Bound, hi: Bound, m: nat, end: int)
      requires Deleting(fp, fc, t, i, e, h, lo, hi, m, end) && t.kids[i].Leaf?
               && UpperBound(t.kids[i].rows, e.key, index)
      ensures d >= 2 && 1 <= index <= |t.kids[i].rows| && t.kids[i].rows[index - 1] == e
      ensures var k := t.kids[i];
              && t.addr in pool.Disk && Shows(pool.Disk[t.addr], t, d)
              && k.addr in pool.Disk && Shows(pool.Disk[k.addr], k, d)
              && k.addr in Used && t.addr in Used && k.addr != t.addr
              && d <= |k.rows| <= 2 * d && Increasing(t.seps) && i <= |t.seps| && h == 2
              && Sorted(k.rows, From(t.seps, i, lo), To(t.seps, i, hi))
              && (Shows(page, Without(k, index - 1), d) ==>
                    Thin(d, pool.Disk, Book(), pool.Disk[k.addr := page], Book().(rows := Stored - multiset{e}), t, i,
                         e,
                         Without(k, index - 1), h, lo, hi, end))
    {
      hide BufferPool.Valid, Store.Valid, SepBag, Less, FreeList, Linked, Leaves, Pages, Seps, Thin;
      RangedOfNode(t, d, h, lo, hi, m);
      RangedSizes(t.seps, t.kids, d, h - 1, lo, hi, d);
      PresentBefore(t.kids[i].rows, lo, hi, e, index);
      RepKids(pool.Disk, t, d);
      UsedNotZero();
      KidUsed(t, i, Used);
      TopInUse(t);
      TopInUse(t.kids[i]);
      PairTops(t, i);
      if Shows(page, Without(t.kids[i], index - 1), d) {
        ThinLeaf(d, pool.Disk, Book(), pool.Disk[t.kids[i].addr := page], Book().(rows := Stored - multiset{e}), t, i,
                 index - 1, h, lo, hi, m, end);
      }
    }

    lemma {:induction false} PairTops(t: Tree, i: nat)
      requires Inv() && t.Node? && i < |t.kids| && multiset(Pages(t)) <= Used
      ensures t.addr != t.kids[i].addr
    {
      UsedNotZero();
      KidsApart(t, i, Used);
      assert t.kids[i].addr in Pages(t.kids[i]);
    }

    /** A thin leaf and its neighbour, at kids j and j + 1, before anything has been written. */
    ghost predicate LeafPairReady(fp: int, j: nat, disk1: Disk, l1: Ledger, t: Tree, i: nat, e: Entry, k: Tree,
                                  x: int, y: int, n: int, r: seq<Entry>, q: seq<Entry>, h: nat, lo: Bound, hi: Bound,
                                  end: int)
      reads Repr()
    {
      && Inv() && Points(fp, t)
      && Thin(d, pool.Disk, Book(), disk1, l1, t, i, e, k, h, lo, hi, end)
      && e in Stored && l1 == Book().(rows := Stored - multiset{e}) && t.Node? && (k.addr == x || k.addr == y)
      && k.addr in disk1 && disk1 == pool.Disk[k.addr := disk1[k.addr]]
      && j < |t.seps| && (i == j || i == j + 1) && LeafPairAt(t, i, k, j, x, y, n, r, q)
      && t.seps[j] in SepBag(env.names.seps)
      && t.addr in Used && x in Used && y in Used && t.addr != x && t.addr != y && x != y
      && t.addr in pool.Disk && Shows(pool.Disk[t.addr], t, d)
    }

    /** The separator on the page of t gives way to a copy of the first key on the right. */
    method ExchangeKey(fp: int, j: nat, rid: Rid, ghost t: Tree, ghost k: Text) returns (ghost s1: Entry)
      requires Inv() && Points(fp, t) && t.addr in Used && t.addr in pool.Disk && Shows(pool.Disk[t.addr], t, d)
      requires t.Node? && j < |t.seps| && t.seps[j] in SepBag(env.names.seps)
      requires env.names.KeyIs(rid, true, k) && |k| <= MAX_KEY
      modifies env.Repr(), pool`Disk, pool.frames
      ensures Steady() && s1.key == k
      ensures Book() == old(Book()).(seps := Book().seps)
      ensures multiset{s1} + old(Book()).seps == multiset{t.seps[j]} + Book().seps
      ensures t.addr in old(pool.Disk) && old(pool.Disk)[t.addr].BNode? && j < |old(pool.Disk)[t.addr].row|
      ensures var p := old(pool.Disk)[t.addr]; pool.Disk == old(pool.Disk)[t.addr := p.(row := p.row[j := s1.rid])]
    {
      hide Store.Valid, Less, Sound, SepBag;
      LookAt(fp, t.addr);
      InUse(t.addr);
      DropKey(pool.frames[fp].row[j], t.seps[j]);
      var up := CopyKey(rid, true, k);
      LookAt(fp, t.addr);
      s1 := Entry(up, k);
      Put(fp, t.addr, pool.frames[fp].(row := pool.frames[fp].row[j := up]));
    }

    method WritePair(fl: int, fr: int, pl: IndexPage, pr: IndexPage, ghost x: int, ghost y: int)
      requires Inv() && x in Used && y in Used && x != y && pool.Holds(fl, x) && pool.Holds(fr, y)
      modifies pool`Disk, pool.frames
      ensures Steady() && pool.Disk == old(pool.Disk)[x := pl][y := pr] && 0 !in Used
    {
      hide Store.Valid, Less, Sound, SepBag;
      ZeroPage();
      InUse(x);
      InUse(y);
      Put(fl, x, pl);
      Put(fr, y, pr);
    }

    static lemma {:induction false} IsTouched(disk0: Disk, disk1: Disk, a: int, disk2: Disk, z: int, x: int, y: int,
                                              pl: IndexPage, pr: IndexPage)
      requires (a == x || a == y) && a in disk1 && disk1 == disk0[a := disk1[a]] && x != y && z != x && z != y
      requires z in disk2 && disk2 == disk0[x := pl][y := pr][z := disk2[z]]
      ensures Touched(disk1, disk2, z, x, y) && x in disk2 && disk2[x] == pl && y in disk2 && disk2[y] == pr
    {
    }

    /** Both pages of a pair are written, the key between them is exchanged, and row e goes. */
    method WriteLeaves(fp: int, fl: int, fr: int, j: nat, pl: IndexPage, pr: IndexPage, ghost t: Tree, ghost e: Entry,
                       ghost x: int, ghost y: int, ghost key: Text, ghost disk1: Disk, ghost a: int)
      returns (ghost s1: Entry)
      requires Inv() && Points(fp, t) && t.Node? && j < |t.seps| && t.seps[j] in SepBag(env.names.seps)
      requires t.addr in pool.Disk && Shows(pool.Disk[t.addr], t, d) && e in Stored && d >= 1
      requires t.addr in Used && x in Used && y in Used && t.addr != x && t.addr != y && x != y
      requires pool.Holds(fl, x) && pool.Holds(fr, y) && (a == x || a == y) && a in disk1
               && disk1 == pool.Disk[a := disk1[a]]
      requires Shaped(pr, d) && env.names.KeyIs(pr.row[0], true, key) && |key| <= MAX_KEY
      modifies env.Repr(), pool`Disk, pool.frames, `Stored
      ensures Steady() && s1.key == key && 0 !in Used
      ensures Book() == old(Book()).(rows := old(Stored) - multiset{e}, seps := Book().seps)
      ensures multiset{s1} + old(Book()).seps == multiset{t.seps[j]} + Book().seps
      ensures x in pool.Disk && pool.Disk[x] == pl && y in pool.Disk && pool.Disk[y] == pr
              && Touched(disk1, pool.Disk, t.addr, x, y)
      ensures t.addr in pool.Disk && t.addr in disk1 && disk1[t.addr].BNode? && j < |disk1[t.addr].row|
      ensures pool.Disk[t.addr] == disk1[t.addr].(row := disk1[t.addr].row[j := s1.rid])
    {
      hide Store.Valid, Less, Sound, SepBag, Shows, Touched;
      WritePair(fl, fr, pl, pr, x, y);
      s1 := ExchangeKey(fp, j, pr.row[0], t, key);
      Leave(e);
      IsTouched(old(pool.Disk), disk1, a, pool.Disk, t.addr, x, y, pl, pr);
    }

    /** A pair of leaves has shared its rows anew: both pages are written and the key between them exchanged. */
    method ShareLeaves(fp: int, fl: int, fr: int, j: nat, pl: IndexPage, pr: IndexPage,
                       ghost disk1: Disk, ghost l1: Ledger, ghost t: Tree, ghost i: nat, ghost e: Entry, ghost k: Tree,
                       ghost x: int, ghost y: int, ghost n: int, ghost r: seq<Entry>, ghost q: seq<Entry>,
                       ghost p: nat, ghost h: nat, ghost lo: Bound, ghost hi: Bound, ghost end: int)
      returns (ghost w: Tree)
      requires LeafPairReady(fp, j, disk1, l1, t, i, e, k, x, y, n, r, q, h, lo, hi, end)
      requires pool.Holds(fl, x) && pool.Holds(fr, y)
      requires d <= p <= 2 * d && d <= |r| + |q| - p <= 2 * d && d >= 1
      requires Shows(pl, Leaf(x, y, (r + q)[..p]), d) && Shows(pr, Leaf(y, n, (r + q)[p..]), d)
      requires env.names.KeyIs((r + q)[p].rid, true, (r + q)[p].key) && |(r + q)[p].key| <= MAX_KEY
      modifies env.Repr(), pool`Disk, pool.frames, `Stored
      ensures Steady()
      ensures Shrunk(d, old(pool.Disk), old(Book()), pool.Disk, Book(), t, e, -1, w, h, lo, hi, end)
      ensures Around(t, j, w)
    {
      hide Store.Valid, Less, Sound, SepBag, Thin, Shrunk, Ranged, Turns, LeafPairAt, Touched, Around;
      ghost var s1 := WriteLeaves(fp, fl, fr, j, pl, pr, t, e, x, y, (r + q)[p].key, disk1, k.addr);
      ThinShape(d, old(pool.Disk), old(Book()), disk1, l1, t, i, e, k, h, lo, hi, end);
      LeafPairShared(d, old(pool.Disk), old(Book()), disk1, l1, pool.Disk, Book(), t, i, e, k, j, x, y, n, r, q, s1,
                     p, h, lo, hi, end);
      w := Node(t.addr, Spliced(t.seps, j, j + 1, [s1]),
                Spliced(t.kids, j, j + 2, [Leaf(x, y, (r + q)[..p]), Leaf(y, n, (r + q)[p..])]));
      SplicedAround(t, j, [s1], [Leaf(x, y, (r + q)[..p]), Leaf(y, n, (r + q)[p..])]);
    }

    /** The left page of a pair is written and the right one becomes free. */
    method TakeOver(c: int, fl: int, fr: int, pl: IndexPage, ghost x: int, y: int)
      requires Inv() && Controls(c) && pool.Holds(fl, x) && pool.Holds(fr, y) && x in Used && y in Used && x != y
      requires y in pool.Disk && Shaped(pool.Disk[y], d)
      modifies pool`Disk, pool.frames, `Used, `Free
      ensures Steady() && Used + multiset{y} == old(Used)
      ensures forall a :: a in old(pool.Disk) && a != 0 && a != x && a != y ==>
                a in pool.Disk && pool.Disk[a] == old(pool.Disk)[a]
      ensures x in pool.Disk && pool.Disk[x] == pl
    {
      hide Store.Valid, Less, Sound, SepBag;
      InUse(x);
      InUse(y);
      Look0(c);
      Put(fl, x, pl);
      PushFree(c, fr, y);
    }

    /** Page pl takes the place of x; page y becomes free, and row e goes. */
    method SwallowLeaf(c: int, fp: int, fl: int, fr: int, j: nat, pl: IndexPage, ghost t: Tree, ghost e: Entry,
                       ghost x: int, y: int, ghost disk1: Disk, ghost a: int)
      returns (old0: Rid)
      requires Inv() && Controls(c) && Points(fp, t) && t.Node? && j < |t.seps| && t.seps[j] in SepBag(env.names.seps)
      requires t.addr in pool.Disk && Shows(pool.Disk[t.addr], t, d) && e in Stored
      requires t.addr in Used && x in Used && y in Used && t.addr != x && t.addr != y && x != y
      requires pool.Holds(fl, x) && pool.Holds(fr, y) && y in pool.Disk && Shaped(pool.Disk[y], d)
      requires (a == x || a == y) && a in disk1 && disk1 == pool.Disk[a := disk1[a]]
      modifies pool`Disk, pool.frames, `Stored, `Used, `Free
      ensures Steady() && old0 == t.seps[j].rid && old0.addr != -1
      ensures Stored == old(Stored) - multiset{e} && Used + multiset{y} == old(Used) && 0 !in old(Used)
      ensures Touched(disk1, pool.Disk, t.addr, x, y) && x in pool.Disk && pool.Disk[x] == pl
      ensures t.addr in pool.Disk && t.addr in disk1 && pool.Disk[t.addr] == disk1[t.addr]
    {
      hide Store.Valid, Less, Sound, SepBag;
      InUse(t.addr);
      RealSep(t.seps[j]);
      LookAt(fp, t.addr);
      ZeroPage();
      old0 := pool.frames[fp].row[j];
      TakeOver(c, fl, fr, pl, x, y);
      Leave(e);
    }

    /** The left leaf of a pair has taken over the right one, whose page becomes free. */
    method MergeLeaves(c: int, fp: int, fl: int, fr: int, j: nat, pl: IndexPage,
                       ghost disk1: Disk, ghost l1: Ledger, ghost t: Tree, ghost i: nat, ghost e: Entry, ghost k: Tree,
                       ghost x: int, y: int, ghost n: int, ghost r: seq<Entry>, ghost q: seq<Entry>,
                       ghost h: nat, ghost lo: Bound, ghost hi: Bound, ghost end: int)
      returns (old0: Rid, ghost w: Tree)
      requires LeafPairReady(fp, j, disk1, l1, t, i, e, k, x, y, n, r, q, h, lo, hi, end) && Controls(c)
      requires pool.Holds(fl, x) && pool.Holds(fr, y)
      requires d <= |r| + |q| <= 2 * d && Shows(pl, Leaf(x, n, r + q), d)
      requires y in pool.Disk && Shaped(pool.Disk[y], d)
      modifies pool`Disk, pool.frames, `Stored, `Used, `Free
      ensures Steady() && Deleted(old(pool.Disk), old(Book()), t, e, j, old0, w, h, lo, hi, end)
      ensures Around(t, j, w)
    {
      hide Store.Valid, Less, Sound, SepBag, Thin, Shrunk, Ranged, Turns, LeafPairAt, Touched, Shows, Around;
      old0 := SwallowLeaf(c, fp, fl, fr, j, pl, t, e, x, y, disk1, k.addr);
      ThinShape(d, old(pool.Disk), old(Book()), disk1, l1, t, i, e, k, h, lo, hi, end);
      LeafPairMerged(d, old(pool.Disk), old(Book()), disk1, l1, pool.Disk, Rest(t, j), t, i, e, k, j, x, y, n, r, q,
                     h, lo, hi, end);
      w := Node(t.addr, Spliced(t.seps, j, j + 1, []), Spliced(t.kids, j, j + 2, [Leaf(x, n, r + q)]));
      SplicedAround(t, j, [], [Leaf(x, n, r + q)]);
    }

    lemma {:induction false} RealSep(s: Entry)
      requires Inv() && s in SepBag(env.names.seps)
      ensures s.rid.addr != -1 && env.names.KeyIs(s.rid, false, s.key) && |s.key| <= MAX_KEY
    {
      hide BufferPool.Valid, Store.Valid, FreeList, Conserved, Less;
      env.RealRids();
    }

    /**
     Kid i is about to be the leaf k with one row too few; kids j and j + 1, a and b, are this leaf and a neighbour.
     */
    lemma {:induction false} LeavesReady(fp: int, fc: int, index: nat, page: IndexPage, j: nat, k: Tree, a: Tree,
                                         b: Tree, t: Tree, i: nat, e: Entry, h: nat, lo: Bound, hi: Bound, m: nat,
                                         end: int)
      requires Deleting(fp, fc, t, i, e, h, lo, hi, m, end) && t.kids[i].Leaf?
               && UpperBound(t.kids[i].rows, e.key, index)
      requires 1 <= index <= |t.kids[i].rows| && k == Without(t.kids[i], index - 1) && Shows(page, k, d)
      requires j < |t.seps| && (i == j || i == j + 1) && j + 1 < |t.kids|
      requires a == t.kids[i := k][j] && b == t.kids[i := k][j + 1]
      ensures a.Leaf? && b.Leaf? && a == Leaf(a.addr, b.addr, a.rows) && b == Leaf(b.addr, b.next, b.rows)
      ensures LeafPairReady(fp, j, pool.Disk[k.addr := page], Book().(rows := Stored - multiset{e}), t, i, e, k,
                            a.addr, b.addr, b.next, a.rows, b.rows, h, lo, hi, end)
      ensures |k.rows| == |t.kids[i].rows| - 1 && a.addr != b.addr
      ensures a.addr in pool.Disk && b.addr in pool.Disk && a.addr >= 0 && b.addr >= 0 && k.addr == t.kids[i].addr
      ensures Shows(pool.Disk[k.addr := page][a.addr], a, d) && Shows(pool.Disk[k.addr := page][b.addr], b, d)
      ensures i == j ==> d <= |b.rows| <= 2 * d
      ensures i != j ==> d <= |a.rows| <= 2 * d
    {
      hide Store.Valid, Sound, SepBag, Less, Linked, Leaves, Pages, Thin, Wf, Ranged, Sorted, Known, Seps;
      ThinnedLeaf(fp, fc, index, page, t, i, e, h, lo, hi, m, end);
      UsedNotZero();
      PairPages(d, pool.Disk, Book(), pool.Disk[k.addr := page], Book().(rows := Stored - multiset{e}), t, i, e, k,
                j, h, lo, hi, end);
      InUse(a.addr);
      InUse(b.addr);
      TopSep(t, j);
    }

    /** The rows of such a pair have known keys. */
    lemma {:induction false} LeavesKnown(f: int, x: nat, j: nat, a: Tree, b: Tree, t: Tree, i: nat,
                                         h: nat, lo: Bound, hi: Bound, m: nat, end: int)
      requires Part(f, t, h, lo, hi, m, end) && t.Node? && i < |t.kids| && t.kids[i].Leaf? && x < |t.kids[i].rows|
      requires (i == j || i == j + 1) && j + 1 < |t.kids|
      requires a == t.kids[i := Without(t.kids[i], x)][j] && b == t.kids[i := Without(t.kids[i], x)][j + 1]
      requires a.Leaf? && b.Leaf?
      ensures Known(env.names, a.rows + b.rows, true)
    {
      hide Store.Valid, Sound, SepBag, Less, Linked, Leaves, Pages, Wf, Ranged, Sorted, Known, Seps;
      KidReady(t, j, h, lo, hi, m);
      KidReady(t, j + 1, h, lo, hi, m);
      KnownPair(env.names, t.kids[i], x, t.kids[if i == j then j + 1 else j]);
    }

    lemma {:induction false} TopSep(t: Tree, j: nat)
      requires t.Node? && j < |t.seps| && multiset(Seps(t)) <= SepBag(env.names.seps)
      ensures t.seps[j] in SepBag(env.names.seps)
    {
      hide Store.Valid, SepBag;
      assert t.seps[j] in t.seps;
      assert t.seps[j] in multiset(t.seps);
      assert multiset(Seps(t)) == multiset(t.seps) + multiset(ForestSeps(t.kids));
    }

    static lemma {:induction false} KnownPair(names: Names, k0: Tree, x: nat, b: Tree)
      requires k0.Leaf? && b.Leaf? && x < |k0.rows| && Known(names, Rows(k0), true) && Known(names, Rows(b), true)
      ensures Known(names, Without(k0, x).rows + b.rows, true) && Known(names, b.rows + Without(k0, x).rows, true)
    {
    }

    lemma {:induction false} Pointed(fp: int, fc: int, t: Tree, i: nat, e: Entry, h: nat, lo: Bound, hi: Bound,
                                     m: nat, end: int)
      requires Deleting(fp, fc, t, i, e, h, lo, hi, m, end)
      ensures t.Node? && i < |t.kids|
      ensures Inv() && Points(fp, t) && Points(fc, t.kids[i])
    {
    }

    lemma {:induction false} ParentShape(fp: int, fc: int, t: Tree, i: nat, e: Entry, h: nat, lo: Bound, hi: Bound,
                                         m: nat, end: int)
      requires Deleting(fp, fc, t, i, e, h, lo, hi, m, end)
      ensures t.Node? && i < |t.kids| == |t.seps| + 1 && m <= |t.seps|
    {
      hide Store.Valid, BufferPool.Valid, Sound, Rep, Rows, Leaves, Linked, Pages, Seps, Known;
      RangedOfNode(t, d, h, lo, hi, m);
    }

    lemma {:induction false} BeforeShape(disk0: Disk, l0: Ledger, t: Tree, i: nat, h: nat, lo: Bound, hi: Bound, m: nat,
                                         end: int)
      requires Before(disk0, l0, t, i, h, lo, hi, m, end)
      ensures t.Node? && i < |t.kids| == |t.seps| + 1
    {
      hide Rep, Leaves, Linked, Pages, Seps, Rows;
    }

    lemma {:induction false} ParentPart(fp: int, fc: int, t: Tree, i: nat, e: Entry, h: nat, lo: Bound, hi: Bound,
                                        m: nat, end: int)
      requires Deleting(fp, fc, t, i, e, h, lo, hi, m, end)
      ensures Part(fp, t, h, lo, hi, m, end)
    {
      hide Store.Valid, BufferPool.Valid, Part;
    }

    static lemma {:induction false} KnownAt(names: Names, s: seq<Entry>, p: nat)
      requires Known(names, s, true) && p < |s|
      ensures names.KeyIs(s[p].rid, true, s[p].key) && |s[p].key| <= MAX_KEY
    {
    }

    /** A minimal leaf loses a row and takes one from its right sibling. */
    method LeafFromRight(fp: int, fc: int, fs: int, index: nat, j: nat, ghost disk1: Disk, ghost l1: Ledger,
                         ghost t: Tree, ghost e: Entry, ghost k: Tree, ghost y: int, ghost n: int, ghost q: seq<Entry>,
                         ghost h: nat, ghost lo: Bound, ghost hi: Bound, ghost end: int)
      returns (ghost w: Tree)
      requires k.Leaf? && k == Leaf(k.addr, y, k.rows) && |k.rows| == d - 1 && d < |q| <= 2 * d && d >= 2
      requires LeafPairReady(fp, j, disk1, l1, t, j, e, k, k.addr, y, n, k.rows, q, h, lo, hi, end)
      requires pool.Holds(fc, k.addr) && pool.Holds(fs, y) && Known(env.names, k.rows + q, true)
      requires k.addr in disk1 && Shows(disk1[k.addr], k, d) && Shows(pool.frames[fs], Leaf(y, n, q), d)
      requires ThinPage(pool.frames[fc], disk1[k.addr], index, d)
      modifies env.Repr(), pool`Disk, pool.frames, `Stored
      ensures Steady()
      ensures Shrunk(d, old(pool.Disk), old(Book()), pool.Disk, Book(), t, e, -1, w, h, lo, hi, end)
      ensures Around(t, j, w)
    {
      hide Store.Valid, Less, Sound, SepBag, Thin, Shrunk, LeafPairAt, Known, RowsOf, RemoveAt, Around;
      Here();
      ghost var q0 := pool.frames[fs];
      var c, s := LeafBorrowRight(pool.frames[fc], pool.frames[fs], d, index);
      RowMovedLeft(disk1[k.addr], q0, c, s, d);
      LeafPairShown(disk1[k.addr], q0, c, s, d, d, k.addr, y, n, k.rows, q);
      KnownAt(env.names, k.rows + q, d);
      w := ShareLeaves(fp, fc, fs, j, c, s, disk1, l1, t, j, e, k, k.addr, y, n, k.rows, q, d, h, lo, hi, end);
    }

    /** A minimal leaf loses a row and takes over its minimal right sibling. */
    method LeafWithRight(c: int, fp: int, fc: int, fs: int, index: nat, j: nat, ghost disk1: Disk, ghost l1: Ledger,
                         ghost t: Tree, ghost e: Entry, ghost k: Tree, y: int, ghost n: int, ghost q: seq<Entry>,
                         ghost h: nat, ghost lo: Bound, ghost hi: Bound, ghost end: int)
      returns (old0: Rid, ghost w: Tree)
      requires k.Leaf? && k == Leaf(k.addr, y, k.rows) && |k.rows| == d - 1 && |q| == d && d >= 2
      requires LeafPairReady(fp, j, disk1, l1, t, j, e, k, k.addr, y, n, k.rows, q, h, lo, hi, end)
      requires Controls(c) && pool.Holds(fc, k.addr) && pool.Holds(fs, y)
      requires k.addr in disk1 && Shows(disk1[k.addr], k, d) && Shows(pool.frames[fs], Leaf(y, n, q), d)
      requires ThinPage(pool.frames[fc], disk1[k.addr], index, d)
      modifies pool`Disk, pool.frames, `Stored, `Used, `Free
      ensures Steady() && Deleted(old(pool.Disk), old(Book()), t, e, j, old0, w, h, lo, hi, end)
      ensures Around(t, j, w)
    {
      hide Store.Valid, Less, Sound, SepBag, Thin, Deleted, LeafPairAt, RowsOf, RemoveAt, Around;
      Here();
      ghost var q0 := pool.frames[fs];
      UsedPage(fs, y);
      var p := LeafMergeRight(pool.frames[fc], pool.frames[fs], d, index);
      LeafMergeShown(disk1[k.addr], q0, p, d, k.addr, y, n, k.rows, q);
      old0, w := MergeLeaves(c, fp, fc, fs, j, p, disk1, l1, t, j, e, k, k.addr, y, n, k.rows, q, h, lo, hi, end);
    }

    lemma {:induction false} UsedPage(f: int, a: int)
      requires Inv() && a in Used && pool.Holds(f, a)
      ensures a > 0 && a in pool.Disk && 0 <= f < CACHE_PAGE && pool.frames[f] == pool.Disk[a]
    {
      InUse(a);
      LookAt(f, a);
    }

    /** A minimal leaf loses a row and takes one from its left sibling. */
    method LeafFromLeft(fp: int, fc: int, fs: int, index: nat, j: nat, ghost disk1: Disk, ghost l1: Ledger,
                        ghost t: Tree, ghost e: Entry, ghost k: Tree, ghost x: int, ghost r: seq<Entry>,
                        ghost h: nat, ghost lo: Bound, ghost hi: Bound, ghost end: int)
      returns (ghost w: Tree)
      requires k.Leaf? && |k.rows| == d - 1 && d < |r| <= 2 * d && d >= 2
      requires LeafPairReady(fp, j, disk1, l1, t, j + 1, e, k, x, k.addr, k.next, r, k.rows, h, lo, hi, end)
      requires pool.Holds(fc, k.addr) && pool.Holds(fs, x) && Known(env.names, r + k.rows, true)
      requires k.addr in disk1 && Shows(disk1[k.addr], k, d) && Shows(pool.frames[fs], Leaf(x, k.addr, r), d)
      requires ThinPage(pool.frames[fc], disk1[k.addr], index, d)
      modifies env.Repr(), pool`Disk, pool.frames, `Stored
      ensures Steady()
      ensures Shrunk(d, old(pool.Disk), old(Book()), pool.Disk, Book(), t, e, -1, w, h, lo, hi, end)
      ensures Around(t, j, w)
    {
      hide Store.Valid, Less, Sound, SepBag, Thin, Shrunk, LeafPairAt, Known, RowsOf, RemoveAt, Around;
      Here();
      ghost var p0 := pool.frames[fs];
      var c, s := LeafBorrowLeft(pool.frames[fc], pool.frames[fs], d, index);
      RowMovedRight(p0, disk1[k.addr], s, c, d);
      assert k == Leaf(k.addr, k.next, k.rows);
      LeafPairShown(p0, disk1[k.addr], s, c, d, |r| - 1, x, k.addr, k.next, r, k.rows);
      KnownAt(env.names, r + k.rows, |r| - 1);
      w := ShareLeaves(fp, fs, fc, j, s, c, disk1, l1, t, j + 1, e, k, x, k.addr, k.next, r, k.rows, |r| - 1, h, lo,
                       hi, end);
    }

    /** A minimal leaf loses a row and is taken over by its minimal left sibling. */
    method LeafWithLeft(c: int, fp: int, fc: int, fs: int, index: nat, j: nat, ghost disk1: Disk, ghost l1: Ledger,
                        ghost t: Tree, ghost e: Entry, ghost k: Tree, ghost x: int, y: int, ghost r: seq<Entry>,
                        ghost h: nat, ghost lo: Bound, ghost hi: Bound, ghost end: int)
      returns (old0: Rid, ghost w: Tree)
      requires k.Leaf? && k.addr == y && |k.rows| == d - 1 && |r| == d && d >= 2
      requires LeafPairReady(fp, j, disk1, l1, t, j + 1, e, k, x, y, k.next, r, k.rows, h, lo, hi, end)
      requires Controls(c) && pool.Holds(fc, y) && pool.Holds(fs, x)
      requires k.addr in disk1 && Shows(disk1[k.addr], k, d) && Shows(pool.frames[fs], Leaf(x, y, r), d)
      requires ThinPage(pool.frames[fc], disk1[k.addr], index, d)
      modifies pool`Disk, pool.frames, `Stored, `Used, `Free
      ensures Steady() && Deleted(old(pool.Disk), old(Book()), t, e, j, old0, w, h, lo, hi, end)
      ensures Around(t, j, w)
    {
      hide Store.Valid, Less, Sound, SepBag, Thin, Deleted, LeafPairAt, RowsOf, RemoveAt, Around;
      Here();
      ghost var p0 := pool.frames[fs];
      UsedPage(fc, y);
      var p := LeafMergeLeft(pool.frames[fc], pool.frames[fs], d, index);
      assert k == Leaf(k.addr, k.next, k.rows);
      LeafMergeShown(p0, disk1[k.addr], p, d, x, y, k.next, r, k.rows);
      old0, w := MergeLeaves(c, fp, fs, fc, j, p, disk1, l1, t, j + 1, e, k, x, y, k.next, r, k.rows, h, lo, hi, end);
    }

    /** get_page on kid x, a sibling of kid i, disturbs nothing. */
    method PinBeside(c: int, fp: int, fc: int, x: nat, ghost t: Tree, ghost i: nat, ghost e: Entry,
                     ghost h: nat, ghost lo: Bound, ghost hi: Bound, ghost m: nat, ghost end: int)
      returns (sib: int, fs: int)
      requires Deleting(fp, fc, t, i, e, h, lo, hi, m, end) && Controls(c) && x < |t.kids|
      requires |PinSet(pool.Pins)| + 1 <= CACHE_PAGE
      modifies pool.Repr()
      ensures Deleting(fp, fc, t, i, e, h, lo, hi, m, end) && Controls(c) && FramesStay()
      ensures pool.Disk == old(pool.Disk) && pool.Pins == old(pool.Pins) + multiset{sib}
      ensures sib == t.kids[x].addr && pool.Holds(fs, sib)
    {
      hide Store.Valid, Less, Sound, SepBag, Known, Linked, Rep, Wf, Rows, Leaves, Pages, Seps;
      KidPlaced(c, fp, t, x, h, lo, hi, m, end);
      LookAt(fp, t.addr);
      sib := pool.frames[fp].child[x];
      PinOne(pool.Pins, sib);
      fs := Pin(sib);
    }

    /** A minimal leaf and its right sibling, which is in frame fs. */
    method RightPair(c: int, fp: int, fc: int, fs: int, sib: int, index: nat, i: nat, ghost t: Tree, ghost e: Entry,
                     ghost h: nat, ghost lo: Bound, ghost hi: Bound, ghost m: nat, ghost end: int)
      returns (old0: Rid, ghost pend: int, ghost w: Tree)
      requires Deleting(fp, fc, t, i, e, h, lo, hi, m, end) && Controls(c)
      requires t.kids[i].Leaf? && UpperBound(t.kids[i].rows, e.key, index) && |t.kids[i].rows| == d
      requires i < |t.seps| && i + 1 < |t.kids| && sib == t.kids[i + 1].addr && pool.Holds(fs, sib)
      modifies env.Repr(), pool`Disk, pool.frames, `Stored, `Used, `Free
      ensures Steady() && Deleted(old(pool.Disk), old(Book()), t, e, pend, old0, w, h, lo, hi, end)
      ensures Around(t, i, w)
    {
      hide Store.Valid, Less, Sound, SepBag, Thin, Shrunk, LeafPairReady, Part, Known, Removed, Without, Shows,
           ThinPage, Deleting, UpperBound, Around;
      Pointed(fp, fc, t, i, e, h, lo, hi, m, end);
      ParentPart(fp, fc, t, i, e, h, lo, hi, m, end);
      ghost var k0, b := t.kids[i], t.kids[i + 1];
      ThinnedLeaf(fp, fc, index, Ctrl(0, 0), t, i, e, h, lo, hi, m, end);
      ShownSize(pool.Disk[k0.addr], k0, d);
      ghost var k, page := Without(k0, index - 1), Removed(pool.Disk[k0.addr], index - 1);
      ThinPageOf(pool.Disk[k0.addr], k0, index, d);
      LeavesReady(fp, fc, index, page, i, k, k, b, t, i, e, h, lo, hi, m, end);
      LeavesKnown(fp, index - 1, i, k, b, t, i, h, lo, hi, m, end);
      LookAt(fc, k0.addr);
      LookAt(fs, sib);
      ghost var disk1, l1 := pool.Disk[k0.addr := page], Book().(rows := Stored - multiset{e});
      ShownSize(pool.frames[fs], b, d);
      if pool.frames[fs].n > d {
        w := LeafFromRight(fp, fc, fs, index, i, disk1, l1, t, e, k, b.addr, b.next, b.rows, h, lo, hi, end);
        old0, pend := NULL_RID, -1;
      } else {
        old0, w := LeafWithRight(c, fp, fc, fs, index, i, disk1, l1, t, e, k, sib, b.next, b.rows, h, lo, hi, end);
        pend := i;
      }
    }

    method DeleteBesideRight(c: int, fp: int, fc: int, index: nat, i: nat, ghost t: Tree, ghost e: Entry,
                             ghost h: nat, ghost lo: Bound, ghost hi: Bound, ghost m: nat, ghost end: int)
      returns (old0: Rid, ghost pend: int, ghost w: Tree)
      requires Deleting(fp, fc, t, i, e, h, lo, hi, m, end) && Controls(c)
      requires t.kids[i].Leaf? && UpperBound(t.kids[i].rows, e.key, index) && |t.kids[i].rows| == d
      requires i < |t.seps| && i + 1 < |t.kids|
      requires |PinSet(pool.Pins)| + 1 <= CACHE_PAGE
      modifies pool.Repr(), env.Repr(), `Stored, `Used, `Free
      ensures Steady() && Deleted(old(pool.Disk), old(Book()), t, e, pend, old0, w, h, lo, hi, end)
      ensures Around(t, i, w)
    {
      hide Store.Valid, Less, Sound, SepBag, Deleted, Deleting, Known, Linked, Rep, Wf, Rows, Leaves, Pages, Seps,
           UpperBound, Around;
      var sib, fs := PinBeside(c, fp, fc, i + 1, t, i, e, h, lo, hi, m, end);
      old0, pend, w := RightPair(c, fp, fc, fs, sib, index, i, t, e, h, lo, hi, m, end);
      Unpin(sib);
      assert SameRoot() && FramesStay();
    }

    /** A minimal leaf and its left sibling, which is in frame fs. */
    method LeftPair(c: int, fp: int, fc: int, fs: int, sib: int, index: nat, i: nat, ghost t: Tree, ghost e: Entry,
                     ghost h: nat, ghost lo: Bound, ghost hi: Bound, ghost m: nat, ghost end: int)
      returns (old0: Rid, ghost pend: int, ghost w: Tree)
      requires Deleting(fp, fc, t, i, e, h, lo, hi, m, end) && Controls(c)
      requires t.kids[i].Leaf? && UpperBound(t.kids[i].rows, e.key, index) && |t.kids[i].rows| == d
      requires 1 <= i <= |t.seps| && i < |t.kids| && sib == t.kids[i - 1].addr && pool.Holds(fs, sib)
      modifies env.Repr(), pool`Disk, pool.frames, `Stored, `Used, `Free
      ensures Steady() && Deleted(old(pool.Disk), old(Book()), t, e, pend, old0, w, h, lo, hi, end)
      ensures Around(t, i - 1, w)
    {
      hide Store.Valid, Less, Sound, SepBag, Thin, Shrunk, LeafPairReady, Part, Known, Removed, Without, Shows,
           ThinPage, Deleting, UpperBound, Around;
      Pointed(fp, fc, t, i, e, h, lo, hi, m, end);
      ParentPart(fp, fc, t, i, e, h, lo, hi, m, end);
      ghost var k0, b := t.kids[i], t.kids[i - 1];
      ThinnedLeaf(fp, fc, index, Ctrl(0, 0), t, i, e, h, lo, hi, m, end);
      ShownSize(pool.Disk[k0.addr], k0, d);
      ghost var k, page := Without(k0, index - 1), Removed(pool.Disk[k0.addr], index - 1);
      ThinPageOf(pool.Disk[k0.addr], k0, index, d);
      LeavesReady(fp, fc, index, page, i - 1, k, b, k, t, i, e, h, lo, hi, m, end);
      LeavesKnown(fp, index - 1, i - 1, b, k, t, i, h, lo, hi, m, end);
      LookAt(fc, k0.addr);
      LookAt(fs, sib);
      ghost var disk1, l1 := pool.Disk[k0.addr := page], Book().(rows := Stored - multiset{e});
      ShownSize(pool.frames[fs], b, d);
      if pool.frames[fs].n > d {
        w := LeafFromLeft(fp, fc, fs, index, i - 1, disk1, l1, t, e, k, b.addr, b.rows, h, lo, hi, end);
        old0, pend := NULL_RID, -1;
      } else {
        LookAt(fp, t.addr);
        ShownSize(pool.frames[fp], t, d);
        old0, w := LeafWithLeft(c, fp, fc, fs, index, i - 1, disk1, l1, t, e, k, b.addr, pool.frames[fp].child[i],
                                b.rows, h, lo, hi, end);
        pend := i - 1;
      }
    }

    method DeleteBesideLeft(c: int, fp: int, fc: int, index: nat, i: nat, ghost t: Tree, ghost e: Entry,
                             ghost h: nat, ghost lo: Bound, ghost hi: Bound, ghost m: nat, ghost end: int)
      returns (old0: Rid, ghost pend: int, ghost w: Tree)
      requires Deleting(fp, fc, t, i, e, h, lo, hi, m, end) && Controls(c)
      requires t.kids[i].Leaf? && UpperBound(t.kids[i].rows, e.key, index) && |t.kids[i].rows| == d
      requires 1 <= i <= |t.seps| && i < |t.kids|
      requires |PinSet(pool.Pins)| + 1 <= CACHE_PAGE
      modifies pool.Repr(), env.Repr(), `Stored, `Used, `Free
      ensures Steady() && Deleted(old(pool.Disk), old(Book()), t, e, pend, old0, w, h, lo, hi, end)
      ensures Around(t, i - 1, w)
    {
      hide Store.Valid, Less, Sound, SepBag, Deleted, Deleting, Known, Linked, Rep, Wf, Rows, Leaves, Pages, Seps,
           UpperBound, Around;
      var sib, fs := PinBeside(c, fp, fc, i - 1, t, i, e, h, lo, hi, m, end);
      old0, pend, w := LeftPair(c, fp, fc, fs, sib, index, i, t, e, h, lo, hi, m, end);
      Unpin(sib);
      assert SameRoot() && FramesStay();
    }

    /** tree_delete at a leaf that has no row to spare. */
    method DeleteFromThinLeaf(c: int, fp: int, fc: int, index: nat, ghost t: Tree, ghost i: nat, ghost e: Entry,
                              ghost h: nat, ghost lo: Bound, ghost hi: Bound, ghost m: nat, ghost end: int)
      returns (old0: Rid, ghost pend: int, ghost w: Tree)
      requires Deleting(fp, fc, t, i, e, h, lo, hi, m, end) && Controls(c)
      requires t.kids[i].Leaf? && UpperBound(t.kids[i].rows, e.key, index) && |t.kids[i].rows| == d && m >= 1
      requires |PinSet(pool.Pins)| + 1 <= CACHE_PAGE
      modifies pool.Repr(), env.Repr(), `Stored, `Used, `Free
      ensures Steady() && Deleted(old(pool.Disk), old(Book()), t, e, pend, old0, w, h, lo, hi, end)
      ensures Beside(t, i, w)
    {
      hide Store.Valid, Less, Sound, SepBag, Deleted, Known, Linked, Rep, Wf, Rows, Leaves, Pages, Seps, UpperBound,
           Around;
      var j := LeafSlot(c, fp, fc, index, t, i, e, h, lo, hi, m, end);
      if j != pool.frames[fp].n {
        old0, pend, w := DeleteBesideRight(c, fp, fc, index, j, t, e, h, lo, hi, m, end);
      } else {
        old0, pend, w := DeleteBesideLeft(c, fp, fc, index, j, t, e, h, lo, hi, m, end);
      }
    }

    /** find_index(parent, child->row_ptr[0], child->leaf) for a leaf. */
    method LeafSlot(c: int, fp: int, fc: int, ghost index: nat, ghost t: Tree, ghost i: nat, ghost e: Entry,
                    ghost h: nat, ghost lo: Bound, ghost hi: Bound, ghost m: nat, ghost end: int)
      returns (j: nat)
      requires Deleting(fp, fc, t, i, e, h, lo, hi, m, end) && Controls(c)
      requires t.kids[i].Leaf? && UpperBound(t.kids[i].rows, e.key, index) && |t.kids[i].rows| == d
      modifies env.Repr()
      ensures Deleting(fp, fc, t, i, e, h, lo, hi, m, end) && Controls(c) && Undisturbed() && FramesStay()
      ensures Book() == old(Book()) && j == i && SameRoot()
      ensures 0 <= fp < pool.frames.Length && pool.frames[fp].BNode? && pool.frames[fp].n == |t.seps|
      ensures |t.kids| == |t.seps| + 1 && m <= |t.seps| && d >= 2
    {
      hide Store.Valid, Less, Sound, SepBag, Known, Linked, Rep, Rows, Leaves, Pages, Seps, Thin, Wf, Ranged,
           UpperBound, Shows, Sorted;
      ThinnedLeaf(fp, fc, index, Ctrl(0, 0), t, i, e, h, lo, hi, m, end);
      Zero();
      Pointed(fp, fc, t, i, e, h, lo, hi, m, end);
      LookAt(fp, t.addr);
      LookAt(fc, t.kids[i].addr);
      ShownSize(pool.frames[fp], t, d);
      ShownSize(pool.frames[fc], t.kids[i], d);
      RangedOfNode(t, d, h, lo, hi, m);
      KidReady(t, i, h, lo, hi, m);
      KnownFirst(env.names, t.kids[i]);
      SortedFirst(t.kids[i].rows, From(t.seps, i, lo), To(t.seps, i, hi));
      Look0(c);
      j := SlotOf(fp, pool.frames[fc].row[0], true, t, i, t.kids[i].rows[0].key, lo, hi);
    }

    static lemma {:induction false} KnownFirst(names: Names, t: Tree)
      requires t.Leaf? && Known(names, Rows(t), true) && t.rows != []
      ensures names.KeyIs(t.rows[0].rid, true, t.rows[0].key)
    {
    }

    static lemma {:induction false} SortedFirst(rows: seq<Entry>, lo: Bound, hi: Bound)
      requires Sorted(rows, lo, hi) && rows != []
      ensures AtLeast(lo, rows[0].key) && Below(rows[0].key, hi)
    {
    }

    /** tree_delete at a leaf. */
    method DeleteFromLeaf(c: int, fp: int, fc: int, index: nat, ghost t: Tree, ghost i: nat, ghost e: Entry,
                          ghost h: nat, ghost lo: Bound, ghost hi: Bound, ghost m: nat, ghost end: int)
      returns (old0: Rid, ghost pend: int, ghost w: Tree)
      requires Deleting(fp, fc, t, i, e, h, lo, hi, m, end) && Controls(c)
      requires t.kids[i].Leaf? && UpperBound(t.kids[i].rows, e.key, index) && m >= 1
      requires |PinSet(pool.Pins)| + 1 <= CACHE_PAGE
      modifies pool.Repr(), env.Repr(), `Stored, `Used, `Free
      ensures Steady() && Deleted(old(pool.Disk), old(Book()), t, e, pend, old0, w, h, lo, hi, end)
      ensures Beside(t, i, w)
    {
      hide Store.Valid, Less, Sound, SepBag, Known, Linked, Rep, Rows, Leaves, Pages, Seps, Thin, Wf, Ranged,
           UpperBound, Shows, Sorted, Deleted, Part, Beside;
      ThinnedLeaf(fp, fc, index, Ctrl(0, 0), t, i, e, h, lo, hi, m, end);
      Pointed(fp, fc, t, i, e, h, lo, hi, m, end);
      LookAt(fc, t.kids[i].addr);
      ShownSize(pool.frames[fc], t.kids[i], d);
      if pool.frames[fc].n > d {
        w := DeleteFromRichLeaf(c, fp, fc, index, t, i, e, h, lo, hi, m, end);
        old0, pend := NULL_RID, -1;
      } else {
        old0, pend, w := DeleteFromThinLeaf(c, fp, fc, index, t, i, e, h, lo, hi, m, end);
      }
    }

    method DeleteFromRichLeaf(c: int, ghost fp: int, fc: int, index: nat, ghost t: Tree, ghost i: nat, ghost e: Entry,
                              ghost h: nat, ghost lo: Bound, ghost hi: Bound, ghost m: nat, ghost end: int)
      returns (ghost w: Tree)
      requires Deleting(fp, fc, t, i, e, h, lo, hi, m, end) && Controls(c)
      requires t.kids[i].Leaf? && UpperBound(t.kids[i].rows, e.key, index) && |t.kids[i].rows| > d && m >= 1
      modifies pool`Disk, pool.frames, `Stored
      ensures Steady() && Deleted(old(pool.Disk), old(Book()), t, e, -1, NULL_RID, w, h, lo, hi, end)
      ensures Beside(t, i, w)
    {
      hide Store.Valid, Less, Sound, SepBag, Known, Linked, Rep, Rows, Leaves, Pages, Seps, Thin, Wf, Ranged,
           UpperBound, Shows, Sorted, Part, Shrunk, Beside;
      ghost var k0, disk0, l0 := t.kids[i], pool.Disk, Book();
      ThinnedLeaf(fp, fc, index, Ctrl(0, 0), t, i, e, h, lo, hi, m, end);
      ghost var k := Without(k0, index - 1);
      Pointed(fp, fc, t, i, e, h, lo, hi, m, end);
      forall page | Shows(page, k, d)
        ensures Thin(d, disk0, l0, disk0[k0.addr := page], l0.(rows := Stored - multiset{e}), t, i, e, k, h, lo, hi,
                     end)
      {
        ThinnedLeaf(fp, fc, index, page, t, i, e, h, lo, hi, m, end);
      }
      ParentShape(fp, fc, t, i, e, h, lo, hi, m, end);
      TakeRow(fc, index, k0, e);
      w := With(t, i, k);
      WithBeside(t, i, k);
      ThinEnough(d, disk0, l0, pool.Disk, Book(), t, i, e, k, h, lo, hi, end);
    }

    static lemma {:induction false} WithoutShown(p: IndexPage, q: IndexPage, t: Tree, x: nat, d: nat)
      requires t.Leaf? && Shows(p, t, d) && x < |t.rows|
      requires Shaped(q, d) && q.leaf && q.next == p.next && RowsOf(q) == RemoveAt(RowsOf(p), x)
      ensures Shows(q, Without(t, x), d) && |Without(t, x).rows| == |t.rows| - 1 && Without(t, x).Leaf?
    {
      hide Store.Valid, RowsOf;
      RidsOf(p, t, d);
      SizeOf(q, d);
      ShowsLeaf(q, t.addr, t.next, RemoveAt(t.rows, x), d);
    }

    // ----- Deletion below an inner node -----

    /** Kid i of t is the thin node k; a and b are this kid and a neighbour, at j and j + 1. */
    ghost predicate NodePairReady(fp: int, j: nat, disk0: Disk, l0: Ledger, t: Tree, i: nat, e: Entry, k: Tree,
                                  a: Tree, b: Tree, h: nat, lo: Bound, hi: Bound, end: int)
      reads Repr()
    {
      && Inv() && Points(fp, t) && t.Node? && a.Node? && b.Node?
      && Thin(d, disk0, l0, pool.Disk, Book(), t, i, e, k, h, lo, hi, end)
      && j < |t.seps| && (i == j || i == j + 1)
      && NodePairAt(t, i, k, j, a.addr, b.addr, a.seps, a.kids, b.seps, b.kids)
      && t.seps[j] in SepBag(env.names.seps)
      && t.addr in Used && a.addr in Used && b.addr in Used && t.addr != a.addr && t.addr != b.addr && a.addr != b.addr
      && t.addr in pool.Disk && Shows(pool.Disk[t.addr], t, d)
      && a.addr in pool.Disk && Shows(pool.Disk[a.addr], a, d)
      && b.addr in pool.Disk && Shows(pool.Disk[b.addr], b, d)
    }

    /** Both pages of a pair are written, and row j of the page above. */
    method WriteNodes(fp: int, fl: int, fr: int, j: nat, pl: IndexPage, up: Rid, pr: IndexPage, ghost t: Tree,
                      ghost x: int, ghost y: int)
      requires Inv() && Points(fp, t) && t.Node? && j < |t.seps| && t.addr in pool.Disk
               && Shows(pool.Disk[t.addr], t, d)
      requires t.addr in Used && x in Used && y in Used && t.addr != x && t.addr != y && x != y
      requires pool.Holds(fl, x) && pool.Holds(fr, y)
      modifies pool`Disk, pool.frames
      ensures Steady() && 0 !in Used && Touched(old(pool.Disk), pool.Disk, t.addr, x, y)
      ensures x in pool.Disk && pool.Disk[x] == pl && y in pool.Disk && pool.Disk[y] == pr
      ensures t.addr in pool.Disk && t.addr in old(pool.Disk) && old(pool.Disk)[t.addr].BNode?
              && j < |old(pool.Disk)[t.addr].row|
      ensures var p := old(pool.Disk)[t.addr]; pool.Disk[t.addr] == p.(row := p.row[j := up])
    {
      hide Store.Valid, Less, Sound, SepBag;
      InUse(t.addr);
      WritePair(fl, fr, pl, pr, x, y);
      LookAt(fp, t.addr);
      Put(fp, t.addr, pool.frames[fp].(row := pool.frames[fp].row[j := up]));
    }

    /** A pair of nodes has shared its kids anew through the separator between them. */
    method ShareNodes(fp: int, fl: int, fr: int, j: nat, pl: IndexPage, up: Rid, pr: IndexPage, ghost disk0: Disk,
                      ghost l0: Ledger, ghost t: Tree, ghost i: nat, ghost e: Entry, ghost k: Tree, ghost a: Tree,
                      ghost b: Tree, ghost p: nat, ghost h: nat, ghost lo: Bound, ghost hi: Bound, ghost end: int)
      returns (ghost w: Tree)
      requires NodePairReady(fp, j, disk0, l0, t, i, e, k, a, b, h, lo, hi, end)
      requires pool.Holds(fl, a.addr) && pool.Holds(fr, b.addr)
      requires d <= p <= 2 * d && d <= |a.seps| + |b.seps| - p <= 2 * d && |a.kids| == |a.seps| + 1
               && |b.kids| == |b.seps| + 1
      requires var all, kids := a.seps + [t.seps[j]] + b.seps, a.kids + b.kids;
               && up == all[p].rid
               && Shows(pl, Node(a.addr, all[..p], kids[..p + 1]), d)
               && Shows(pr, Node(b.addr, all[p + 1..], kids[p + 1..]), d)
      modifies pool`Disk, pool.frames
      ensures Steady() && Deleted(disk0, l0, t, e, -1, NULL_RID, w, h, lo, hi, end)
      ensures Around(t, j, w)
    {
      hide Store.Valid, Less, Sound, SepBag, Thin, Shrunk, Ranged, Turns, NodePairAt, Touched, Around;
      WriteNodes(fp, fl, fr, j, pl, up, pr, t, a.addr, b.addr);
      ThinShape(d, disk0, l0, old(pool.Disk), old(Book()), t, i, e, k, h, lo, hi, end);
      NodePairShared(d, disk0, l0, old(pool.Disk), Book(), pool.Disk, t, i, e, k, j, a.addr, b.addr, a.seps, a.kids,
                     b.seps, b.kids, p, h, lo, hi, end);
      ghost var all, kids := a.seps + [t.seps[j]] + b.seps, a.kids + b.kids;
      w := Node(t.addr, Spliced(t.seps, j, j + 1, [all[p]]),
                Spliced(t.kids, j, j + 2, [Node(a.addr, all[..p], kids[..p + 1]),
                                           Node(b.addr, all[p + 1..], kids[p + 1..])]));
      SplicedAround(t, j, [all[p]], [Node(a.addr, all[..p], kids[..p + 1]), Node(b.addr, all[p + 1..], kids[p + 1..])]);
    }

    lemma {:induction false} ZeroPage()
      requires Inv()
      ensures 0 in pool.Disk && pool.Disk[0].Ctrl? && 0 !in Used
    {
      hide BufferPool.Valid, Store.Valid, FreeList, Conserved, Less;
      UsedNotZero();
    }

    /** The left node of a pair has taken over the right one, with a copy s of the separator in between. */
    method MergeNodes(c: int, fl: int, fr: int, j: nat, y: int, pl: IndexPage, old0: Rid, ghost s: Entry,
                      ghost l1: Ledger, ghost disk0: Disk, ghost l0: Ledger, ghost t: Tree, ghost i: nat,
                      ghost e: Entry, ghost k: Tree, ghost a: Tree, ghost b: Tree, ghost h: nat, ghost lo: Bound,
                      ghost hi: Bound, ghost end: int)
      returns (ghost w: Tree)
      requires Inv() && Controls(c) && Thin(d, disk0, l0, pool.Disk, l1, t, i, e, k, h, lo, hi, end)
      requires t.Node? && a.Node? && b.Node? && b.addr == y && j < |t.seps| && (i == j || i == j + 1)
      requires NodePairAt(t, i, k, j, a.addr, b.addr, a.seps, a.kids, b.seps, b.kids)
      requires t.addr in Used && a.addr in Used && y in Used && t.addr != a.addr && t.addr != y && a.addr != y
      requires Book() == l1.(seps := l1.seps + multiset{s}) && s.key == t.seps[j].key
      requires old0 == t.seps[j].rid && old0.addr != -1 && t.seps[j] in Book().seps && t.seps[j] in l1.seps
      requires pool.Holds(fl, a.addr) && pool.Holds(fr, y) && y in pool.Disk && Shaped(pool.Disk[y], d)
      requires d <= |a.seps| + 1 + |b.seps| <= 2 * d
               && Shows(pl, Node(a.addr, a.seps + [s] + b.seps, a.kids + b.kids), d)
      modifies pool`Disk, pool.frames, `Used, `Free
      ensures Steady() && Deleted(disk0, l0, t, e, j, old0, w, h, lo, hi, end)
      ensures Around(t, j, w)
    {
      hide Store.Valid, Less, Sound, SepBag, Thin, Shrunk, Ranged, Turns, NodePairAt, Shows, Around;
      InUse(t.addr);
      ZeroPage();
      TakeOver(c, fl, fr, pl, a.addr, y);
      ThinShape(d, disk0, l0, old(pool.Disk), l1, t, i, e, k, h, lo, hi, end);
      NodePairMerged(d, disk0, l0, old(pool.Disk), l1, pool.Disk, Rest(t, j), t, i, e, k, j, a.addr, y, a.seps,
                     a.kids, s, b.seps, b.kids, h, lo, hi, end);
      w := Node(t.addr, Spliced(t.seps, j, j + 1, []),
                Spliced(t.kids, j, j + 2, [Node(a.addr, a.seps + [s] + b.seps, a.kids + b.kids)]));
      SplicedAround(t, j, [], [Node(a.addr, a.seps + [s] + b.seps, a.kids + b.kids)]);
    }

    /** What the pages of a pair of nodes and of its parent hold. */
    lemma {:induction false} LookPair(fp: int, j: nat, disk0: Disk, l0: Ledger, t: Tree, i: nat, e: Entry, k: Tree,
                                      a: Tree, b: Tree, h: nat, lo: Bound, hi: Bound, end: int)
      requires NodePairReady(fp, j, disk0, l0, t, i, e, k, a, b, h, lo, hi, end)
      ensures var p, q := pool.Disk[a.addr], pool.Disk[b.addr];
              && Shaped(p, d) && !p.leaf && p.n == |a.seps| && |a.kids| == |a.seps| + 1
                 && Shows(p, Node(a.addr, a.seps, a.kids), d)
              && Shaped(q, d) && !q.leaf && q.n == |b.seps| && |b.kids| == |b.seps| + 1
                 && Shows(q, Node(b.addr, b.seps, b.kids), d)
      ensures Shaped(pool.Disk[t.addr], d) && j < |t.seps| <= 2 * d && pool.Disk[t.addr].row[j] == t.seps[j].rid
      ensures t.addr >= 0 && a.addr >= 0 && b.addr >= 0
    {
      hide Store.Valid, Less, Sound, SepBag, Thin, NodePairAt;
      InUse(t.addr);
      InUse(a.addr);
      InUse(b.addr);
      assert a == Node(a.addr, a.seps, a.kids) && b == Node(b.addr, b.seps, b.kids);
    }

    /** A node one short takes a child from its right sibling. */
    method NodeFromRight(fp: int, fc: int, fs: int, j: nat, ghost disk0: Disk, ghost l0: Ledger, ghost t: Tree,
                         ghost e: Entry, ghost a: Tree, ghost b: Tree, ghost h: nat, ghost lo: Bound, ghost hi: Bound,
                         ghost end: int)
      returns (ghost w: Tree)
      requires NodePairReady(fp, j, disk0, l0, t, j, e, a, a, b, h, lo, hi, end)
      requires pool.Holds(fc, a.addr) && pool.Holds(fs, b.addr)
      requires |a.seps| == d - 1 && d < |b.seps| <= 2 * d && d >= 2
      modifies pool`Disk, pool.frames
      ensures Steady() && Deleted(disk0, l0, t, e, -1, NULL_RID, w, h, lo, hi, end)
      ensures Around(t, j, w)
    {
      hide Store.Valid, Less, Sound, SepBag, Thin, Deleted, NodePairAt, RowsOf, KidsOf, Shows, Around;
      LookPair(fp, j, disk0, l0, t, j, e, a, a, b, h, lo, hi, end);
      LookAt(fp, t.addr);
      LookAt(fc, a.addr);
      LookAt(fs, b.addr);
      ghost var p0, q0 := pool.Disk[a.addr], pool.Disk[b.addr];
      Here();
      var c, up, s := NodeBorrowRight(pool.frames[fc], pool.frames[fs], d, pool.frames[fp].row[j]);
      KidMovedLeft(p0, q0, t.seps[j].rid, c, up, s, d);
      NodePairShown(p0, q0, c, up, s, d, d, a.addr, b.addr, a.seps, a.kids, t.seps[j], b.seps, b.kids);
      w := ShareNodes(fp, fc, fs, j, c, up, s, disk0, l0, t, j, e, a, a, b, d, h, lo, hi, end);
    }

    /** A node one short takes a child from its left sibling. */
    method NodeFromLeft(fp: int, fc: int, fs: int, j: nat, ghost disk0: Disk, ghost l0: Ledger, ghost t: Tree,
                        ghost e: Entry, ghost a: Tree, ghost b: Tree, ghost h: nat, ghost lo: Bound, ghost hi: Bound,
                        ghost end: int)
      returns (ghost w: Tree)
      requires NodePairReady(fp, j, disk0, l0, t, j + 1, e, b, a, b, h, lo, hi, end)
      requires pool.Holds(fc, b.addr) && pool.Holds(fs, a.addr)
      requires |b.seps| == d - 1 && d < |a.seps| <= 2 * d && d >= 2
      modifies pool`Disk, pool.frames
      ensures Steady() && Deleted(disk0, l0, t, e, -1, NULL_RID, w, h, lo, hi, end)
      ensures Around(t, j, w)
    {
      hide Store.Valid, Less, Sound, SepBag, Thin, Deleted, NodePairAt, RowsOf, KidsOf, Shows, Around;
      LookPair(fp, j, disk0, l0, t, j + 1, e, b, a, b, h, lo, hi, end);
      LookAt(fp, t.addr);
      LookAt(fc, b.addr);
      LookAt(fs, a.addr);
      ghost var p0, q0 := pool.Disk[a.addr], pool.Disk[b.addr];
      Here();
      var c, up, s := NodeBorrowLeft(pool.frames[fc], pool.frames[fs], d, pool.frames[fp].row[j]);
      KidMovedRight(p0, q0, t.seps[j].rid, s, up, c, d);
      NodePairShown(p0, q0, s, up, c, d, |a.seps| - 1, a.addr, b.addr, a.seps, a.kids, t.seps[j], b.seps, b.kids);
      w := ShareNodes(fp, fs, fc, j, s, up, c, disk0, l0, t, j + 1, e, b, a, b, |a.seps| - 1, h, lo, hi, end);
    }

    /** A node one short and its minimal right sibling become one, on the left page. */
    method NodeWithRight(c: int, fp: int, fc: int, fs: int, j: nat, y: int, ghost disk0: Disk, ghost l0: Ledger,
                         ghost t: Tree, ghost e: Entry, ghost a: Tree, ghost b: Tree, ghost h: nat, ghost lo: Bound,
                         ghost hi: Bound, ghost end: int)
      returns (old0: Rid, ghost w: Tree)
      requires NodePairReady(fp, j, disk0, l0, t, j, e, a, a, b, h, lo, hi, end) && Controls(c)
      requires pool.Holds(fc, a.addr) && pool.Holds(fs, b.addr) && b.addr == y
      requires a.addr in pool.Pins && b.addr in pool.Pins
      requires |a.seps| == d - 1 && |b.seps| == d && d >= 2
      modifies env.Repr(), pool`Disk, pool.frames, `Used, `Free
      ensures Steady() && Deleted(disk0, l0, t, e, j, old0, w, h, lo, hi, end)
      ensures Around(t, j, w)
    {
      hide Store.Valid, Less, Sound, SepBag, Thin, Deleted, NodePairAt, RowsOf, KidsOf, Shows, Around;
      LookPair(fp, j, disk0, l0, t, j, e, a, a, b, h, lo, hi, end);
      LookAt(fp, t.addr);
      RealSep(t.seps[j]);
      ghost var p0, q0, l1 := pool.Disk[a.addr], pool.Disk[b.addr], Book();
      old0 := pool.frames[fp].row[j];
      ZeroPage();
      var copy := CopyKey(old0, false, t.seps[j].key);
      LookAt(fc, a.addr);
      LookAt(fs, b.addr);
      Here();
      var p := NodeMergeRight(pool.frames[fc], pool.frames[fs], d, copy);
      ghost var s := Entry(copy, t.seps[j].key);
      NodeMergeShown(p0, q0, p, d, a.addr, b.addr, a.seps, a.kids, s, b.seps, b.kids);
      w := MergeNodes(c, fc, fs, j, y, p, old0, s, l1, disk0, l0, t, j, e, a, a, b, h, lo, hi, end);
    }

    /** A node one short and its minimal left sibling become one, on the left page. */
    method NodeWithLeft(c: int, fp: int, fc: int, fs: int, j: nat, y: int, ghost disk0: Disk, ghost l0: Ledger,
                        ghost t: Tree, ghost e: Entry, ghost a: Tree, ghost b: Tree, ghost h: nat, ghost lo: Bound,
                        ghost hi: Bound, ghost end: int)
      returns (old0: Rid, ghost w: Tree)
      requires NodePairReady(fp, j, disk0, l0, t, j + 1, e, b, a, b, h, lo, hi, end) && Controls(c)
      requires pool.Holds(fc, b.addr) && pool.Holds(fs, a.addr) && b.addr == y
      requires a.addr in pool.Pins && b.addr in pool.Pins
      requires |b.seps| == d - 1 && |a.seps| == d && d >= 2
      modifies env.Repr(), pool`Disk, pool.frames, `Used, `Free
      ensures Steady() && Deleted(disk0, l0, t, e, j, old0, w, h, lo, hi, end)
      ensures Around(t, j, w)
    {
      hide Store.Valid, Less, Sound, SepBag, Thin, Deleted, NodePairAt, RowsOf, KidsOf, Shows, Around;
      LookPair(fp, j, disk0, l0, t, j + 1, e, b, a, b, h, lo, hi, end);
      LookAt(fp, t.addr);
      RealSep(t.seps[j]);
      ghost var p0, q0, l1 := pool.Disk[a.addr], pool.Disk[b.addr], Book();
      old0 := pool.frames[fp].row[j];
      ZeroPage();
      var copy := CopyKey(old0, false, t.seps[j].key);
      LookAt(fc, b.addr);
      LookAt(fs, a.addr);
      Here();
      var p := NodeMergeLeft(pool.frames[fc], pool.frames[fs], d, copy);
      ghost var s := Entry(copy, t.seps[j].key);
      NodeMergeShown(p0, q0, p, d, a.addr, b.addr, a.seps, a.kids, s, b.seps, b.kids);
      w := MergeNodes(c, fs, fc, j, y, p, old0, s, l1, disk0, l0, t, j + 1, e, b, a, b, h, lo, hi, end);
    }

    /** fc points to k, the thin node that kid i of t, the node fp points to, has become. */
    ghost predicate ThinKid(fp: int, fc: int, disk0: Disk, l0: Ledger, t: Tree, i: nat, e: Entry, k: Tree,
                            h: nat, lo: Bound, hi: Bound, end: int)
      reads Repr()
    {
      && Inv() && Points(fp, t) && Points(fc, k) && t.Node? && k.Node? && i < |t.kids|
      && Thin(d, disk0, l0, pool.Disk, Book(), t, i, e, k, h, lo, hi, end)
      && |k.seps| == d - 1
      && multiset(t.seps) <= SepBag(env.names.seps) && multiset(Seps(k)) <= SepBag(env.names.seps)
    }

    lemma {:induction false} NodesReady(fp: int, fc: int, j: nat, disk0: Disk, l0: Ledger, t: Tree, i: nat, e: Entry,
                                        k: Tree, a: Tree, b: Tree, h: nat, lo: Bound, hi: Bound, end: int)
      requires ThinKid(fp, fc, disk0, l0, t, i, e, k, h, lo, hi, end)
      requires j < |t.seps| && (i == j || i == j + 1) && j + 1 < |t.kids|
      requires a == t.kids[i := k][j] && b == t.kids[i := k][j + 1]
      ensures NodePairReady(fp, j, disk0, l0, t, i, e, k, a, b, h, lo, hi, end)
      ensures d >= 2 && a.Node? && b.Node? && |t.kids| == |t.seps| + 1 && k.addr == t.kids[i].addr
      ensures t.addr >= 0 && a.addr >= 0 && b.addr >= 0
      ensures t.addr in pool.Disk && Shows(pool.Disk[t.addr], t, d)
      ensures a.addr in pool.Disk && Shows(pool.Disk[a.addr], a, d)
      ensures b.addr in pool.Disk && Shows(pool.Disk[b.addr], b, d)
      ensures i == j ==> d <= |b.seps| <= 2 * d
      ensures i != j ==> d <= |a.seps| <= 2 * d
    {
      hide BufferPool.Valid, Store.Valid, SepBag, Less, FreeList, Linked, Leaves, Pages, Wf, Ranged, Sorted, Known,
           Seps, Turns, Rep;
      UsedNotZero();
      PairPages(d, disk0, l0, pool.Disk, Book(), t, i, e, k, j, h, lo, hi, end);
      ThinTop(d, disk0, l0, pool.Disk, Book(), t, i, e, k, h, lo, hi, end);
      assert t.seps[j] in multiset(t.seps);
      InUse(t.addr);
      InUse(a.addr);
      InUse(b.addr);
      assert a == Node(a.addr, a.seps, a.kids) && b == Node(b.addr, b.seps, b.kids);
    }

    static lemma {:induction false} ThinTop(d: nat, disk0: Disk, l0: Ledger, disk1: Disk, l1: Ledger, t: Tree, i: nat,
                                            e: Entry, k: Tree, h: nat, lo: Bound, hi: Bound, end: int)
      requires Thin(d, disk0, l0, disk1, l1, t, i, e, k, h, lo, hi, end)
      ensures t.addr in disk0 && t.addr in disk1 && disk1[t.addr] == disk0[t.addr] && k.addr == t.kids[i].addr
      ensures h > 1 && Ranged(t.seps, t.kids, d, h - 1, lo, hi, d)
      ensures Wf(k, d, h - 1, From(t.seps, i, lo), To(t.seps, i, hi), d - 1)
      ensures k.addr in disk1 && Shows(disk1[k.addr], k, d) && Shows(disk1[t.addr], With(t, i, k), d)
    {
      RepKids(disk1, With(t, i, k), d);
      assert Below1(With(t, i, k))[i] == k;
      ShownTop(disk1, k, d);
    }

    method PinBesideNode(c: int, fp: int, fc: int, x: nat, ghost j: nat, ghost disk0: Disk, ghost l0: Ledger,
                         ghost t: Tree, ghost i: nat, ghost e: Entry, ghost k: Tree, ghost h: nat, ghost lo: Bound,
                         ghost hi: Bound, ghost end: int)
      returns (sib: int, fs: int)
      requires ThinKid(fp, fc, disk0, l0, t, i, e, k, h, lo, hi, end) && Controls(c)
      requires j < |t.seps| && j + 1 < |t.kids| && ((i == j && x == j + 1) || (i == j + 1 && x == j))
      requires |PinSet(pool.Pins)| + 1 <= CACHE_PAGE
      modifies pool.Repr()
      ensures ThinKid(fp, fc, disk0, l0, t, i, e, k, h, lo, hi, end) && Controls(c) && FramesStay()
      ensures pool.Disk == old(pool.Disk) && pool.Pins == old(pool.Pins) + multiset{sib}
      ensures sib == t.kids[x].addr && pool.Holds(fs, sib) && SameRoot()
    {
      hide Store.Valid, Less, Sound, SepBag, Thin, NodePairReady, Seps;
      NodesReady(fp, fc, j, disk0, l0, t, i, e, k, t.kids[i := k][j], t.kids[i := k][j + 1], h, lo, hi, end);
      ZeroPage();
      LookAt(fp, t.addr);
      sib := pool.frames[fp].child[x];
      PinOne(pool.Pins, sib);
      fs := Pin(sib);
    }

    /** A node one short and its right sibling, which is in frame fs. */
    method NodeRightPair(c: int, fp: int, fc: int, fs: int, sib: int, i: nat,
                         ghost disk0: Disk, ghost l0: Ledger, ghost t: Tree, ghost e: Entry, ghost k: Tree,
                         ghost h: nat, ghost lo: Bound, ghost hi: Bound, ghost end: int)
      returns (old0: Rid, ghost pend: int, ghost w: Tree)
      requires ThinKid(fp, fc, disk0, l0, t, i, e, k, h, lo, hi, end) && Controls(c)
      requires i < |t.seps| && i + 1 < |t.kids| && sib == t.kids[i + 1].addr && pool.Holds(fs, sib) && sib in pool.Pins
      modifies env.Repr(), pool`Disk, pool.frames, `Used, `Free
      ensures Steady() && Deleted(disk0, l0, t, e, pend, old0, w, h, lo, hi, end)
      ensures Around(t, i, w)
    {
      hide Store.Valid, Less, Sound, SepBag, Thin, Deleted, NodePairReady, Shows, Around;
      ghost var b := t.kids[i + 1];
      NodesReady(fp, fc, i, disk0, l0, t, i, e, k, k, b, h, lo, hi, end);
      LookAt(fs, sib);
      ShownSize(pool.frames[fs], b, d);
      if pool.frames[fs].n > d {
        w := NodeFromRight(fp, fc, fs, i, disk0, l0, t, e, k, b, h, lo, hi, end);
        old0, pend := NULL_RID, -1;
      } else {
        old0, w := NodeWithRight(c, fp, fc, fs, i, sib, disk0, l0, t, e, k, b, h, lo, hi, end);
        pend := i;
      }
    }

    method RebalanceWithRight(c: int, fp: int, fc: int, i: nat,
                              ghost disk0: Disk, ghost l0: Ledger, ghost t: Tree, ghost e: Entry, ghost k: Tree,
                              ghost h: nat, ghost lo: Bound, ghost hi: Bound, ghost end: int)
      returns (old0: Rid, ghost pend: int, ghost w: Tree)
      requires ThinKid(fp, fc, disk0, l0, t, i, e, k, h, lo, hi, end) && Controls(c)
      requires i < |t.seps| && i + 1 < |t.kids|
      requires |PinSet(pool.Pins)| + 1 <= CACHE_PAGE
      modifies pool.Repr(), env.Repr(), `Used, `Free
      ensures Steady() && Deleted(disk0, l0, t, e, pend, old0, w, h, lo, hi, end)
      ensures Around(t, i, w)
    {
      hide Store.Valid, Less, Sound, SepBag, Thin, Deleted, Shows, ThinKid, Around;
      var sib, fs := PinBesideNode(c, fp, fc, i + 1, i, disk0, l0, t, i, e, k, h, lo, hi, end);
      old0, pend, w := NodeRightPair(c, fp, fc, fs, sib, i, disk0, l0, t, e, k, h, lo, hi, end);
      Unpin(sib);
      assert SameRoot() && FramesStay();
    }

    /** A node one short and its left sibling, which is in frame fs. */
    method NodeLeftPair(c: int, fp: int, fc: int, fs: int, sib: int, i: nat,
                         ghost disk0: Disk, ghost l0: Ledger, ghost t: Tree, ghost e: Entry, ghost k: Tree,
                         ghost h: nat, ghost lo: Bound, ghost hi: Bound, ghost end: int)
      returns (old0: Rid, ghost pend: int, ghost w: Tree)
      requires ThinKid(fp, fc, disk0, l0, t, i, e, k, h, lo, hi, end) && Controls(c)
      requires 1 <= i <= |t.seps| && i < |t.kids| && sib == t.kids[i - 1].addr && pool.Holds(fs, sib)
               && sib in pool.Pins
      modifies env.Repr(), pool`Disk, pool.frames, `Used, `Free
      ensures Steady() && Deleted(disk0, l0, t, e, pend, old0, w, h, lo, hi, end)
      ensures Around(t, i - 1, w)
    {
      hide Store.Valid, Less, Sound, SepBag, Thin, Deleted, NodePairReady, Shows, Around;
      ghost var b := t.kids[i - 1];
      NodesReady(fp, fc, i - 1, disk0, l0, t, i, e, k, b, k, h, lo, hi, end);
      LookAt(fs, sib);
      ShownSize(pool.frames[fs], b, d);
      if pool.frames[fs].n > d {
        w := NodeFromLeft(fp, fc, fs, i - 1, disk0, l0, t, e, b, k, h, lo, hi, end);
        old0, pend := NULL_RID, -1;
      } else {
        LookAt(fp, t.addr);
        ShownSize(pool.frames[fp], t, d);
        old0, w := NodeWithLeft(c, fp, fc, fs, i - 1, pool.frames[fp].child[i], disk0, l0, t, e, b, k, h, lo, hi, end);
        pend := i - 1;
      }
    }

    method RebalanceWithLeft(c: int, fp: int, fc: int, i: nat,
                              ghost disk0: Disk, ghost l0: Ledger, ghost t: Tree, ghost e: Entry, ghost k: Tree,
                              ghost h: nat, ghost lo: Bound, ghost hi: Bound, ghost end: int)
      returns (old0: Rid, ghost pend: int, ghost w: Tree)
      requires ThinKid(fp, fc, disk0, l0, t, i, e, k, h, lo, hi, end) && Controls(c)
      requires 1 <= i <= |t.seps| && i < |t.kids|
      requires |PinSet(pool.Pins)| + 1 <= CACHE_PAGE
      modifies pool.Repr(), env.Repr(), `Used, `Free
      ensures Steady() && Deleted(disk0, l0, t, e, pend, old0, w, h, lo, hi, end)
      ensures Around(t, i - 1, w)
    {
      hide Store.Valid, Less, Sound, SepBag, Thin, Deleted, Shows, ThinKid, Around;
      var sib, fs := PinBesideNode(c, fp, fc, i - 1, i - 1, disk0, l0, t, i, e, k, h, lo, hi, end);
      old0, pend, w := NodeLeftPair(c, fp, fc, fs, sib, i, disk0, l0, t, e, k, h, lo, hi, end);
      Unpin(sib);
      assert SameRoot() && FramesStay();
    }

    /** find_index(parent, child->row_ptr[0], child->leaf) for an inner node. */
    method NodeSlot(c: int, fp: int, fc: int, ghost disk0: Disk, ghost l0: Ledger, ghost t: Tree, ghost i: nat,
                    ghost e: Entry, ghost k: Tree, ghost h: nat, ghost lo: Bound, ghost hi: Bound, ghost end: int)
      returns (j: nat)
      requires ThinKid(fp, fc, disk0, l0, t, i, e, k, h, lo, hi, end) && Controls(c)
      modifies env.Repr()
      ensures ThinKid(fp, fc, disk0, l0, t, i, e, k, h, lo, hi, end) && Controls(c) && Undisturbed() && FramesStay()
      ensures Book() == old(Book()) && j == i && SameRoot()
      ensures 0 <= fp < pool.frames.Length && pool.frames[fp].BNode? && pool.frames[fp].n == |t.seps|
      ensures |t.kids| == |t.seps| + 1 && d >= 2
    {
      hide Store.Valid, Less, Sound, SepBag, Known, Thin, Wf, Ranged, UpperBound, Shows, Seps, Separating;
      ThinTop(d, disk0, l0, pool.Disk, Book(), t, i, e, k, h, lo, hi, end);
      RangedSizes(t.seps, t.kids, d, h - 1, lo, hi, d);
      ZeroPage();
      LookAt(fp, t.addr);
      LookAt(fc, k.addr);
      ShownSize(pool.frames[fp], With(t, i, k), d);
      ShownSize(pool.frames[fc], k, d);
      WithShown(pool.frames[fp], t, i, k, d);
      NodeFirst(k, d, h - 1, From(t.seps, i, lo), To(t.seps, i, hi));
      FirstSep(k);
      RealSep(k.seps[0]);
      j := SlotOf(fp, pool.frames[fc].row[0], false, t, i, k.seps[0].key, lo, hi);
    }

    static lemma {:induction false} WithShown(p: IndexPage, t: Tree, i: nat, k: Tree, d: nat)
      requires t.Node? && i < |t.kids| && k.addr == t.kids[i].addr && Shows(p, With(t, i, k), d)
      ensures Shows(p, t, d)
    {
      var w := With(t, i, k);
      assert forall x :: 0 <= x < |t.kids| ==> t.kids[x].addr == w.kids[x].addr;
    }

    static lemma {:induction false} NodeFirst(k: Tree, d: nat, h: nat, lo: Bound, hi: Bound)
      requires d >= 2 && k.Node? && Wf(k, d, h, lo, hi, d - 1)
      ensures |k.seps| >= 1 && AtLeast(lo, k.seps[0].key) && Below(k.seps[0].key, hi)
    {
      hide Store.Valid, Less;
      TotalOrder();
      assert Separating(k.seps, lo, hi);
    }

    lemma {:induction false} FirstSep(k: Tree)
      requires k.Node? && |k.seps| >= 1 && multiset(Seps(k)) <= SepBag(env.names.seps)
      ensures k.seps[0] in SepBag(env.names.seps)
    {
      TopSep(k, 0);
    }

    /** An inner node has become one entry short. */
    method Rebalance(c: int, fp: int, fc: int, ghost disk0: Disk, ghost l0: Ledger, ghost t: Tree, ghost i: nat,
                     ghost e: Entry, ghost k: Tree, ghost h: nat, ghost lo: Bound, ghost hi: Bound, ghost end: int)
      returns (old0: Rid, ghost pend: int, ghost w: Tree)
      requires ThinKid(fp, fc, disk0, l0, t, i, e, k, h, lo, hi, end) && Controls(c) && |t.seps| >= 1
      requires |PinSet(pool.Pins)| + 1 <= CACHE_PAGE
      modifies pool.Repr(), env.Repr(), `Used, `Free
      ensures Steady() && Deleted(disk0, l0, t, e, pend, old0, w, h, lo, hi, end)
      ensures Beside(t, i, w)
    {
      hide Store.Valid, Less, Sound, SepBag, Thin, Deleted, Seps, Around;
      var j := NodeSlot(c, fp, fc, disk0, l0, t, i, e, k, h, lo, hi, end);
      if j != pool.frames[fp].n {
        old0, pend, w := RebalanceWithRight(c, fp, fc, j, disk0, l0, t, e, k, h, lo, hi, end);
      } else {
        old0, pend, w := RebalanceWithLeft(c, fp, fc, j, disk0, l0, t, e, k, h, lo, hi, end);
      }
    }

    // ----- tree_delete -----

    /** What was known of t when the deletion below its kid i, an inner node, began. */
    ghost predicate Before(disk0: Disk, l0: Ledger, t: Tree, i: nat, h: nat, lo: Bound, hi: Bound, m: nat, end: int) {
      && d >= 2 && t.Node? && i < |t.kids| && |t.kids| == |t.seps| + 1 && t.kids[i].Node? && |t.seps| >= 1
      && Wf(t, d, h, lo, hi, m) && Rep(disk0, t, d)
      && multiset(Pages(t)) <= l0.pages && Once(l0.pages) && Linked(Leaves(t), end)
      && multiset(Seps(t)) <= l0.seps
    }

    lemma {:induction false} AtStart(fp: int, fc: int, t: Tree, i: nat, e: Entry, h: nat, lo: Bound, hi: Bound,
                                     m: nat, end: int)
      requires Deleting(fp, fc, t, i, e, h, lo, hi, m, end) && t.kids[i].Node? && m >= 1
      ensures Before(pool.Disk, Book(), t, i, h, lo, hi, m, end)
    {
      hide Store.Valid, Less, SepBag, Known, Linked, Rep, Rows, Leaves, Pages, Seps;
      RangedOfNode(t, d, h, lo, hi, m);
      OnceUsed();
    }

    /** The end of the leaf chain of kid i. */
    static ghost function EndOf(t: Tree, i: nat, end: int): int
      requires t.Node? && i < |t.kids|
    {
      First(ForestLeaves(t.kids[i + 1..]), end)
    }

    /** Nothing has to be taken off the page of kid i. */
    lemma {:induction false} DeletedKept(disk0: Disk, l0: Ledger, t: Tree, i: nat, e: Entry, old0: Rid, w0: Tree,
                                         h: nat, lo: Bound, hi: Bound, m: nat, end: int)
      requires Inv() && Before(disk0, l0, t, i, h, lo, hi, m, end) && h >= 1
      requires Deleted(disk0, l0, t.kids[i], e, -1, old0, w0, h - 1, From(t.seps, i, lo), To(t.seps, i, hi),
                       EndOf(t, i, end))
      ensures Deleted(disk0, l0, t, e, -1, old0, With(t, i, w0), h, lo, hi, end)
    {
      hide Store.Valid, Less, Sound, SepBag, Linked, Rep, Rows, Leaves, Pages, Seps, Ranged, Turns, ForestLeaves;
      OnceUsed();
      RangedOfNode(t, d, h, lo, hi, m);
      KidNode(t, i, d, h, lo, hi, m);
      ThinNode(d, disk0, l0, pool.Disk, pool.Disk, Book(), t, i, e, -1, w0, h, lo, hi, m, end);
      ThinEnough(d, disk0, l0, pool.Disk, Book(), t, i, e, w0, h, lo, hi, end);
    }

    static lemma {:induction false} KidNode(t: Tree, i: nat, d: nat, h: nat, lo: Bound, hi: Bound, m: nat)
      requires t.Node? && i < |t.kids| && Wf(t, d, h, lo, hi, m) && t.kids[i].Node?
      ensures d <= |t.kids[i].seps| <= 2 * d && h > 2 && Increasing(t.kids[i].seps)
    {
      hide Store.Valid, Less, Sorted, Increasing, Separating;
      RangedOfNode(t, d, h, lo, hi, m);
      RangedSizes(t.seps, t.kids, d, h - 1, lo, hi, d);
      var k := t.kids[i];
      RangedOfNode(k, d, h - 1, From(t.seps, i, lo), To(t.seps, i, hi), d);
      RangedSizes(k.seps, k.kids, d, h - 2, From(t.seps, i, lo), To(t.seps, i, hi), d);
    }

    /** The pending separator and kid are taken off the page of t, in frame f. */
    method TakeOff(f: int, old0: Rid, ghost disk0: Disk, ghost l0: Ledger, ghost t: Tree, ghost e: Entry,
                   ghost pend: int, ghost w: Tree, ghost h: nat, ghost lo: Bound, ghost hi: Bound, ghost end: int)
      requires Inv() && Points(f, t) && t.addr in Used && t.Node? && Increasing(t.seps)
      requires t.addr in disk0 && Shows(disk0[t.addr], t, d) && multiset(Seps(t)) <= l0.seps
      requires Deleted(disk0, l0, t, e, pend, old0, w, h, lo, hi, end) && pend != -1
      modifies env.Repr(), pool`Disk, pool.frames
      ensures Steady() && Book() == old(Rest(t, pend)) && w.addr == t.addr && w.Node? && |w.seps| == |t.seps| - 1
      ensures t.addr in pool.Disk && Shows(pool.Disk[t.addr], w, d)
      ensures pool.Disk == old(pool.Disk)[t.addr := pool.Disk[t.addr]]
    {
      hide Store.Valid, Less, Sound, SepBag, Known, Turns, Linked, Rep, Ranged, Seps, UpperBound, Shows;
      InUse(t.addr);
      ShrunkSeps(t, w, pend, l0, Rest(t, pend), Book().seps, end);
      var index := DropPending(f, old0, t, pend);
      CloseSlot(f, index, t, w, pend);
    }

    /** The pending separator of t, found by find_index on the page in frame f, is given up. */
    method DropPending(f: int, old0: Rid, ghost t: Tree, ghost pend: nat) returns (index: nat)
      requires Inv() && Points(f, t) && t.addr in pool.Disk && Shows(pool.Disk[t.addr], t, d) && t.Node?
      requires pend < |t.seps| && Increasing(t.seps) && multiset(t.seps) <= Book().seps && old0 == t.seps[pend].rid
      modifies env.Repr()
      ensures Steady() && pool.Disk == old(pool.Disk) && Book() == old(Rest(t, pend)) && index == pend + 1
    {
      hide Store.Valid, Less, Sound, SepBag, Known, UpperBound;
      LookAt(f, t.addr);
      ghost var s := t.seps[pend];
      assert s in multiset(t.seps);
      RealSep(s);
      StoreValid();
      SepsKnown(t.seps);
      index := FindIndex(pool.frames[f], old0, false, t.seps, s.key);
      SepBefore(t.seps, pend, index);
      DropKey(old0, s);
    }

    /** Separator index - 1 and child index leave the page of t, in frame f. */
    method CloseSlot(f: int, index: nat, ghost t: Tree, ghost w: Tree, ghost pend: nat)
      requires Inv() && Points(f, t) && t.addr in Used && t.addr in pool.Disk && Shows(pool.Disk[t.addr], t, d)
               && t.Node?
      requires index == pend + 1 && pend < |t.seps| && |t.kids| == |t.seps| + 1 && w.Node?
      requires w.seps == RemoveAt(t.seps, pend) && |w.kids| == |t.kids| - 1
      requires forall x :: 0 <= x < |w.kids| ==> w.kids[x].addr == RemoveAt(t.kids, pend + 1)[x].addr
      modifies pool`Disk, pool.frames
      ensures Steady() && Book() == old(Book()) && pool.Disk == old(pool.Disk)[t.addr := pool.Disk[t.addr]]
      ensures t.addr in pool.Disk && Shows(pool.Disk[t.addr], w, d)
    {
      hide Store.Valid, Sound, SepBag, RemoveAt;
      LookAt(f, t.addr);
      ZeroPage();
      Here();
      ghost var p0 := pool.frames[f];
      var page := RemoveChild(pool.frames[f], d, index);
      ShrunkShown(p0, page, t, w, pend, d);
      Put(f, t.addr, page);
    }

    /** The state after TakeOff: kid i of t is w0 now, possibly one entry short. */
    lemma {:induction false} TakenOff(disk0: Disk, l0: Ledger, diskM: Disk, t: Tree, i: nat, e: Entry, pend: int,
                                      w0: Tree, h: nat, lo: Bound, hi: Bound, m: nat, end: int)
      requires Inv() && Before(disk0, l0, t, i, h, lo, hi, m, end) && h >= 1
      requires Shrunk(d, disk0, l0, diskM, Book(), t.kids[i], e, pend, w0, h - 1, From(t.seps, i, lo),
                      To(t.seps, i, hi), EndOf(t, i, end))
      requires w0.addr in pool.Disk && Shows(pool.Disk[w0.addr], w0, d)
               && pool.Disk == diskM[w0.addr := pool.Disk[w0.addr]]
      ensures Thin(d, disk0, l0, pool.Disk, Book(), t, i, e, w0, h, lo, hi, end)
      ensures multiset(t.seps) <= SepBag(env.names.seps) && multiset(Seps(w0)) <= SepBag(env.names.seps)
    {
      hide Store.Valid, Less, Sound, SepBag, Linked, Rep, Rows, Leaves, Pages, Seps, Ranged, ForestLeaves;
      OnceUsed();
      ThinNode(d, disk0, l0, diskM, pool.Disk, Book(), t, i, e, pend, w0, h, lo, hi, m, end);
      ThinSeps(t, i, w0, l0, Book(), end);
    }

    /** kid i of t is in the books, and its page shows it as before. */
    lemma {:induction false} KidStart(fc: int, disk0: Disk, l0: Ledger, t: Tree, i: nat, e: Entry, pend: int,
                                      old0: Rid, w0: Tree, h: nat, lo: Bound, hi: Bound, m: nat, end: int)
      requires Inv() && Before(disk0, l0, t, i, h, lo, hi, m, end) && h >= 1
      requires Deleted(disk0, l0, t.kids[i], e, pend, old0, w0, h - 1, From(t.seps, i, lo), To(t.seps, i, hi),
                       EndOf(t, i, end))
      ensures var k := t.kids[i];
              k.addr in Used && k.addr in disk0 && Shows(disk0[k.addr], k, d) && multiset(Seps(k)) <= l0.seps
                  && Increasing(k.seps)
              && d <= |k.seps| <= 2 * d
    {
      hide Store.Valid, Less, Sound, SepBag, Linked, Rows, Leaves, Pages, Seps, Ranged, ForestLeaves, Turns;
      OnceUsed();
      KidNode(t, i, d, h, lo, hi, m);
      RepKids(disk0, t, d);
      KidPart(t.kids, i);
      assert multiset(Seps(t)) == multiset(t.seps) + multiset(ForestSeps(t.kids)) by { SepsOf(t); }
      KidUsed(t, i, l0.pages);
      TopApart(t.kids[i], l0.pages);
      ShrunkApart(t.kids[i], w0, l0, Rest(t.kids[i], pend), EndOf(t, i, end));
    }

    static lemma {:induction false} SepsOf(t: Tree)
      requires t.Node?
      ensures multiset(Seps(t)) == multiset(t.seps) + multiset(ForestSeps(t.kids))
    {
    }

    /** Kid i loses the pending separator; it may be one entry short then. */
    method Shorten(fc: int, below: Rid, ghost disk0: Disk, ghost l0: Ledger, ghost t: Tree, ghost i: nat,
                   ghost e: Entry, ghost pend0: nat, ghost w0: Tree, ghost h: nat, ghost lo: Bound, ghost hi: Bound,
                   ghost m: nat, ghost end: int)
      requires t.Node? && i < |t.kids| && i <= |t.seps| && t.kids[i].Node?
      requires Inv() && Before(disk0, l0, t, i, h, lo, hi, m, end) && h >= 1 && Points(fc, t.kids[i])
      requires Deleted(disk0, l0, t.kids[i], e, pend0, below, w0, h - 1, From(t.seps, i, lo), To(t.seps, i, hi),
                       EndOf(t, i, end))
      modifies env.Repr(), pool`Disk, pool.frames
      ensures Steady() && Thin(d, disk0, l0, pool.Disk, Book(), t, i, e, w0, h, lo, hi, end)
      ensures multiset(t.seps) <= SepBag(env.names.seps) && multiset(Seps(w0)) <= SepBag(env.names.seps)
      ensures w0.Node? && w0.addr == t.kids[i].addr && d - 1 <= |w0.seps| < 2 * d
      ensures w0.addr in pool.Disk && Shows(pool.Disk[w0.addr], w0, d)
    {
      hide Store.Valid, Less, Sound, SepBag, Deleted, Shrunk, Thin, Before, Shows, Seps, Increasing, EndOf;
      ZeroPage();
      Pending(t.kids[i], e, pend0, below, disk0, l0, w0, h - 1, From(t.seps, i, lo), To(t.seps, i, hi),
              EndOf(t, i, end));
      KidStart(fc, disk0, l0, t, i, e, pend0, below, w0, h, lo, hi, m, end);
      TakeOff(fc, below, disk0, l0, t.kids[i], e, pend0, w0, h - 1, From(t.seps, i, lo), To(t.seps, i, hi),
              EndOf(t, i, end));
      TakenOff(disk0, l0, old(pool.Disk), t, i, e, pend0, w0, h, lo, hi, m, end);
    }

    /** tree_delete, back from below an inner node. */
    method DeleteAbove(c: int, fp: int, fc: int, below: Rid, ghost disk0: Disk, ghost l0: Ledger, ghost t: Tree,
                       ghost i: nat, ghost e: Entry, ghost pend0: int, ghost w0: Tree, ghost h: nat, ghost lo: Bound,
                       ghost hi: Bound, ghost m: nat, ghost end: int)
      returns (old0: Rid, ghost pend: int, ghost w: Tree)
      requires t.Node? && i < |t.kids| && i <= |t.seps| && t.kids[i].Node? && |t.seps| >= 1
      requires Inv() && Before(disk0, l0, t, i, h, lo, hi, m, end) && h >= 1
      requires Controls(c) && Points(fp, t) && Points(fc, t.kids[i])
      requires Deleted(disk0, l0, t.kids[i], e, pend0, below, w0, h - 1, From(t.seps, i, lo), To(t.seps, i, hi),
                       EndOf(t, i, end))
      requires |PinSet(pool.Pins)| + 1 <= CACHE_PAGE
      modifies pool.Repr(), env.Repr(), `Used, `Free
      ensures Steady() && Deleted(disk0, l0, t, e, pend, old0, w, h, lo, hi, end)
      ensures Beside(t, i, w)
    {
      hide Store.Valid, Less, Sound, SepBag, Deleted, Shrunk, Thin, Before, Shows, Seps, EndOf, Beside;
      ZeroPage();
      BeforeShape(disk0, l0, t, i, h, lo, hi, m, end);
      Pending(t.kids[i], e, pend0, below, disk0, l0, w0, h - 1, From(t.seps, i, lo), To(t.seps, i, hi),
              EndOf(t, i, end));
      if below.addr == -1 {
        DeletedKept(disk0, l0, t, i, e, below, w0, h, lo, hi, m, end);
        old0, pend, w := below, -1, With(t, i, w0);
        WithBeside(t, i, w0);
        return;
      }
      Shorten(fc, below, disk0, l0, t, i, e, pend0, w0, h, lo, hi, m, end);
      LookAt(fc, w0.addr);
      ShownSize(pool.frames[fc], w0, d);
      if pool.frames[fc].n >= d {
        ThinEnough(d, disk0, l0, pool.Disk, Book(), t, i, e, w0, h, lo, hi, end);
        old0, pend, w := NULL_RID, -1, With(t, i, w0);
        WithBeside(t, i, w0);
        Nothing(disk0, l0, t, e, w, h, lo, hi, end);
      } else {
        old0, pend, w := Rebalance(c, fp, fc, disk0, l0, t, i, e, w0, h, lo, hi, end);
      }
    }

    lemma {:induction false} Nothing(disk0: Disk, l0: Ledger, t: Tree, e: Entry, w: Tree, h: nat, lo: Bound,
                                     hi: Bound, end: int)
      requires Shrunk(d, disk0, l0, pool.Disk, Book(), t, e, -1, w, h, lo, hi, end)
      ensures Deleted(disk0, l0, t, e, -1, NULL_RID, w, h, lo, hi, end)
    {
    }

    lemma {:induction false} Pending(t: Tree, e: Entry, pend: int, old0: Rid, disk0: Disk, l0: Ledger, w: Tree,
                                     h: nat, lo: Bound, hi: Bound, end: int)
      requires Deleted(disk0, l0, t, e, pend, old0, w, h, lo, hi, end)
      ensures old0.addr == -1 <==> pend == -1
      ensures pend != -1 ==> t.Node? && 0 <= pend < |t.seps|
      ensures t.Node? && w.Node? && w.addr == t.addr
      ensures Shrunk(d, disk0, l0, pool.Disk, Rest(t, pend), t, e, pend, w, h, lo, hi, end)
    {
    }

    /** tree_delete, on the way down from an inner node: get_page, the recursive call, release. */
    method DeleteBelow(c: int, fp: int, fc: int, rid: Rid, index: nat, ghost t: Tree, ghost i: nat, ghost e: Entry,
                       ghost h: nat, ghost lo: Bound, ghost hi: Bound, ghost m: nat, ghost end: int)
      returns (old0: Rid, ghost pend: int, ghost w: Tree)
      requires Deleting(fp, fc, t, i, e, h, lo, hi, m, end) && Controls(c) && m >= 1
      requires t.kids[i].Node? && UpperBound(t.kids[i].seps, e.key, index) && env.names.KeyIs(rid, true, e.key)
      requires h > 2 && i <= |t.seps| && |PinSet(pool.Pins)| + h - 1 <= CACHE_PAGE
      modifies pool.Repr(), env.Repr(), `Used, `Free, `Stored
      ensures Steady()
      ensures Deleted(old(pool.Disk), old(Book()), t.kids[i], e, pend, old0, w, h - 1, From(t.seps, i, lo),
                      To(t.seps, i, hi), EndOf(t, i, end))
      ensures Beside(t.kids[i], index, w)
      decreases h, 0
    {
      hide Store.Valid, Less, Sound, SepBag, Deleted, Deleting, UpperBound, EndOf, Beside;
      Pointed(fp, fc, t, i, e, h, lo, hi, m, end);
      var gson, g := PinKid(c, fp, fc, index, t, i, e, h, lo, hi, m, end);
      old0, pend, w := TreeDelete(fc, g, rid, t.kids[i], index, e, h - 1, From(t.seps, i, lo), To(t.seps, i, hi), d,
                                  EndOf(t, i, end));
      Unpin(gson);
    }

    method PinKid(c: int, fp: int, fc: int, index: nat, ghost t: Tree, ghost i: nat, ghost e: Entry,
                  ghost h: nat, ghost lo: Bound, ghost hi: Bound, ghost m: nat, ghost end: int)
      returns (gson: int, g: int)
      requires Deleting(fp, fc, t, i, e, h, lo, hi, m, end) && Controls(c)
      requires t.kids[i].Node? && UpperBound(t.kids[i].seps, e.key, index)
      requires |PinSet(pool.Pins)| + 1 <= CACHE_PAGE
      modifies pool.Repr()
      ensures Controls(c) && FramesStay() && SameRoot() && h > 2 && i <= |t.seps| && index < |t.kids[i].kids|
      ensures Deleting(fc, g, t.kids[i], index, e, h - 1, From(t.seps, i, lo), To(t.seps, i, hi), d, EndOf(t, i, end))
      ensures pool.Disk == old(pool.Disk) && pool.Pins == old(pool.Pins) + multiset{gson}
      ensures |PinSet(pool.Pins)| <= |PinSet(old(pool.Pins))| + 1
    {
      hide Store.Valid, Less, Sound, SepBag, Known, Linked, Rep, Wf, Rows, Leaves, Pages, Seps, UpperBound, EndOf;
      KidAsPart(c, fp, fc, t, i, e, h, lo, hi, m, end);
      ZeroPage();
      LeadsBelow(t.kids[i], index, e, d, h - 1, From(t.seps, i, lo), To(t.seps, i, hi), d);
      KidPlaced(c, fc, t.kids[i], index, h - 1, From(t.seps, i, lo), To(t.seps, i, hi), d, EndOf(t, i, end));
      LookAt(fc, t.kids[i].addr);
      gson := pool.frames[fc].child[index];
      PinOne(pool.Pins, gson);
      g := Pin(gson);
    }

    /** Kid i as the part of the tree below which the deletion goes on. */
    lemma {:induction false} KidAsPart(c: int, fp: int, fc: int, t: Tree, i: nat, e: Entry,
                                       h: nat, lo: Bound, hi: Bound, m: nat, end: int)
      requires Deleting(fp, fc, t, i, e, h, lo, hi, m, end) && Controls(c)
      ensures h > 1 && i <= |t.seps| && d >= 2
      ensures Placed(c, fc, t.kids[i], h - 1, From(t.seps, i, lo), To(t.seps, i, hi), d, EndOf(t, i, end))
      ensures env.names.KeyIs(e.rid, true, e.key)
    {
      hide Store.Valid, Less, Sound, SepBag, Linked, Rep, Wf, Leaves, Pages, Seps;
      KidPlaced(c, fp, t, i, h, lo, hi, m, end);
    }

    static lemma {:induction false} LeadsBelow(k: Tree, index: nat, e: Entry, d: nat, h: nat, lo: Bound, hi: Bound,
                                               m: nat)
      requires k.Node? && Wf(k, d, h, lo, hi, m) && UpperBound(k.seps, e.key, index) && e in Rows(k)
      ensures h > 1 && index < |k.kids| && e in Rows(k.kids[index])
    {
      hide Store.Valid, Less, Separating;
      OnlyBelow(k.seps, k.kids, index, e, d, h - 1, lo, hi, d);
    }

    method PinControl(ghost fp: int, ghost fc: int, ghost t: Tree, ghost i: nat, ghost e: Entry,
                      ghost h: nat, ghost lo: Bound, ghost hi: Bound, ghost m: nat, ghost end: int)
      returns (c: int)
      requires Deleting(fp, fc, t, i, e, h, lo, hi, m, end) && 0 in pool.Pins && |PinSet(pool.Pins)| <= CACHE_PAGE
      modifies pool.Repr()
      ensures Deleting(fp, fc, t, i, e, h, lo, hi, m, end) && Controls(c) && FramesStay() && SameRoot()
      ensures pool.Disk == old(pool.Disk) && pool.Pins == old(pool.Pins) + multiset{0}
              && PinSet(pool.Pins) == PinSet(old(pool.Pins))
    {
      hide Store.Valid, Less, Sound, SepBag, Known, Linked, Wf, Rep, Rows, Leaves, Pages, Seps;
      c := PinTop(fp, t, h, lo, hi, m, end);
    }

    /** tree_delete: the row e goes from below kid i of t, the node that fp points to. */
    method TreeDelete(fp: int, fc: int, rid: Rid, ghost t: Tree, ghost i: nat, ghost e: Entry,
                      ghost h: nat, ghost lo: Bound, ghost hi: Bound, ghost m: nat, ghost end: int)
      returns (old0: Rid, ghost pend: int, ghost w: Tree)
      requires Deleting(fp, fc, t, i, e, h, lo, hi, m, end) && 0 in pool.Pins && m >= 1 && h >= 1
      requires env.names.KeyIs(rid, true, e.key)
      requires |PinSet(pool.Pins)| + h - 1 <= CACHE_PAGE
      modifies pool.Repr(), env.Repr(), `Used, `Free, `Stored
      ensures Steady() && Deleted(old(pool.Disk), old(Book()), t, e, pend, old0, w, h, lo, hi, end)
      ensures Beside(t, i, w)
      decreases h, 2
    {
      hide Store.Valid, Less, Sound, SepBag, Deleted, Deleting, Beside;
      Pointed(fp, fc, t, i, e, h, lo, hi, m, end);
      Zero();
      var c := PinControl(fp, fc, t, i, e, h, lo, hi, m, end);
      old0, pend, w := DeleteHere(c, fp, fc, rid, t, i, e, h, lo, hi, m, end);
      Unpin(0);
    }

    /** find_index in the child, for the key to delete. */
    method PlaceBelow(c: int, fp: int, fc: int, rid: Rid, ghost t: Tree, ghost i: nat, ghost e: Entry,
                      ghost h: nat, ghost lo: Bound, ghost hi: Bound, ghost m: nat, ghost end: int)
      returns (index: nat)
      requires Deleting(fp, fc, t, i, e, h, lo, hi, m, end) && Controls(c)
      requires env.names.KeyIs(rid, true, e.key)
      modifies env.Repr()
      ensures Deleting(fp, fc, t, i, e, h, lo, hi, m, end) && Controls(c) && Undisturbed() && FramesStay() && SameRoot()
      ensures Book() == old(Book()) && UpperBound(Entries(t.kids[i]), e.key, index)
      ensures 0 <= fc < pool.frames.Length && pool.frames[fc].BNode? && pool.frames[fc].leaf == t.kids[i].Leaf?
      ensures h > 1 && i <= |t.seps| && (t.kids[i].Node? ==> h > 2)
    {
      hide Store.Valid, Less, Sound, SepBag, Known, Linked, Wf, Rep, Rows, Leaves, Pages, Seps, EndOf;
      KidAsPart(c, fp, fc, t, i, e, h, lo, hi, m, end);
      index := PlaceOf(c, fc, rid, t.kids[i], e.key, h - 1, From(t.seps, i, lo), To(t.seps, i, hi), d,
                       EndOf(t, i, end));
    }

    lemma {:induction false} NodeAbove(disk0: Disk, l0: Ledger, t: Tree, i: nat, h: nat, lo: Bound, hi: Bound, m: nat,
                                       end: int)
      requires Before(disk0, l0, t, i, h, lo, hi, m, end)
      ensures t.Node? && i < |t.kids| && t.kids[i].Node? && |t.seps| >= 1
    {
    }

    method DeleteHere(c: int, fp: int, fc: int, rid: Rid, ghost t: Tree, ghost i: nat, ghost e: Entry,
                      ghost h: nat, ghost lo: Bound, ghost hi: Bound, ghost m: nat, ghost end: int)
      returns (old0: Rid, ghost pend: int, ghost w: Tree)
      requires Deleting(fp, fc, t, i, e, h, lo, hi, m, end) && Controls(c) && m >= 1 && h >= 1
      requires env.names.KeyIs(rid, true, e.key)
      requires |PinSet(pool.Pins)| + h - 1 <= CACHE_PAGE
      modifies pool.Repr(), env.Repr(), `Used, `Free, `Stored
      ensures Steady() && Deleted(old(pool.Disk), old(Book()), t, e, pend, old0, w, h, lo, hi, end)
      ensures Beside(t, i, w)
      decreases h, 1
    {
      hide Store.Valid, Less, Sound, SepBag, Deleted, Part, Before, EndOf, Beside;
      var index := PlaceBelow(c, fp, fc, rid, t, i, e, h, lo, hi, m, end);
      if pool.frames[fc].leaf {
        old0, pend, w := DeleteFromLeaf(c, fp, fc, index, t, i, e, h, lo, hi, m, end);
        return;
      }
      AtStart(fp, fc, t, i, e, h, lo, hi, m, end);
      Pointed(fp, fc, t, i, e, h, lo, hi, m, end);
      NodeAbove(pool.Disk, Book(), t, i, h, lo, hi, m, end);
      ghost var pend0, w0;
      old0, pend0, w0 := DeleteBelow(c, fp, fc, rid, index, t, i, e, h, lo, hi, m, end);
      old0, pend, w := DeleteAbove(c, fp, fc, old0, old(pool.Disk), old(Book()), t, i, e, pend0, w0, h, lo, hi, m, end);
    }

    // ----- The index as a whole -----

    static ghost function RootMin(t: Tree): nat {
      if t.Leaf? then 0 else 1
    }

    /** The pages are a well-formed tree with the given contents, and nothing is lost or kept twice. */
    ghost predicate Valid()
      reads Repr()
    {
      Settled() && pool.Pins == multiset{}
    }

    ghost predicate Settled()
      reads Repr()
    {
      && Inv()
      && pool.Disk[0].root == Root.addr
      && Rep(pool.Disk, Root, d)
      && Wf(Root, d, Height, Open, Open, RootMin(Root))
      && Linked(Leaves(Root), -1)
      && Booked(Root, Book())
      && Known(env.names, Rows(Root), true)
      && Lists(Contents, Rows(Root))
    }

    /** With fewer rows than that, get_page always finds a frame. */
    lemma {:induction false} Low()
      requires Valid() && |Contents| < Capacity(d)
      ensures 1 <= Height <= 14
    {
      hide BufferPool.Valid, Store.Valid, FreeList, SepBag, Less, Capacity;
      Ordered();
      ListedSize(Contents, Rows(Root));
      HeightBound(Root, d, Height, Open, Open);
    }

    lemma {:induction false} Ordered()
      requires Valid()
      ensures Height >= 1 && Increasing(Rows(Root)) && d >= 2
    {
      hide BufferPool.Valid, Store.Valid, FreeList, SepBag, Less;
      RowsSorted(Root, d, Height, Open, Open, RootMin(Root));
    }

    /** The entry points: get_page on the control page and on the root. */
    method PinRoot() returns (c: int, f: int, root: int)
      requires Valid()
      modifies pool.Repr()
      ensures Inv() && Part(f, Root, Height, Open, Open, RootMin(Root), -1) && Controls(c)
      ensures pool.Disk == old(pool.Disk) && pool.Pins == multiset{0, Root.addr} && root == Root.addr
      ensures |PinSet(pool.Pins)| <= 2 && Height >= 1 && Increasing(Rows(Root))
    {
      hide Store.Valid, Less, Sound, SepBag, Known, Linked, Wf, Rows, Seps, Pages, Leaves, Rep;
      Ordered();
      RootPages();
      PinOne(pool.Pins, 0);
      c := Pin(0);
      PinOne(pool.Pins, Root.addr);
      root := pool.frames[c].root;
      f := Pin(root);
    }

    lemma {:induction false} RootPages()
      requires Valid()
      ensures 0 in pool.Disk && pool.Disk[0].Ctrl?
      ensures Root.addr in pool.Disk && Root.addr > 0
      ensures PinSet(pool.Pins) == {}
    {
      pool.Addresses();
      assert Root.addr in Pages(Root);
      TopInUse(Root);
    }

    method UnpinRoot(root: int)
      requires Inv() && pool.Pins == multiset{0, root}
      modifies pool`Pins, pool.refs
      ensures Inv() && pool.Pins == multiset{}
    {
      hide Store.Valid, Sound;
      Unpin(root);
      Unpin(0);
    }

    /** The path to a leaf and the control page are pinned at the same time. */
    method Search(key: Text) returns (rid: Rid)
      requires Valid() && Height <= 15
      modifies pool.Repr(), env.Repr()
      ensures Valid() && env.Untouched()
      ensures if key in Contents then rid == Contents[key] && rid != NULL_RID else rid == NULL_RID
    {
      hide Store.Valid, Less, Sound, SepBag, Known, Linked, Wf, Rows, Seps, Pages, Leaves, Rep;
      var c, f, root := PinRoot();
      rid := TreeSearch(f, key, Root, Height, Open, Open, RootMin(Root));
      UnpinRoot(root);
      Found(rid, key);
    }

    lemma {:induction false} Found(rid: Rid, key: Text)
      requires Inv() && Known(env.names, Rows(Root), true) && Lists(Contents, Rows(Root))
      requires Entry(rid, key) in Rows(Root) || (rid == NULL_RID && forall e :: e in Rows(Root) ==> e.key != key)
      ensures if key in Contents then rid == Contents[key] && rid != NULL_RID else rid == NULL_RID
    {
      hide BufferPool.Valid, Store.Valid, FreeList, SepBag, Less;
      env.RealRids();
      if key in Contents {
        assert Entry(Contents[key], key) in Rows(Root);
      }
    }

    /** ctrl->root_node = a; */
    method SetRoot(c: int, a: int)
      requires Inv() && Controls(c)
      modifies pool`Disk, pool.frames
      ensures Inv() && 0 in pool.Disk && pool.Disk[0].Ctrl? && pool.Disk[0].root == a
      ensures pool.Disk == old(pool.Disk)[0 := pool.Disk[0]]
    {
      hide BufferPool.Valid, Store.Valid, SepBag, Less, Conserved;
      pool.Frame(c, 0);
      FreeDistinct(Used, Free, pool.Disk.Keys);
      pool.Store(c, pool.frames[c].(root := a));
      assert pool.Disk.Keys == old(pool.Disk).Keys;
      FreeFrame(old(pool.Disk), pool.Disk, Free, d);
    }

    /** b_tree_insert, after the root has been split. */
    method GrowRoot(c: int, left: int, up: Rid, right: int) returns (b: int)
      requires Inv() && Controls(c) && |PinSet(pool.Pins)| + 1 <= CACHE_PAGE
      modifies pool.Repr(), `Used, `Free
      ensures Inv() && FramesStay() && pool.Pins == old(pool.Pins)
      ensures b > 0 && b !in old(Used) && Book() == old(Book()).(pages := old(Used) + multiset{b})
      ensures 0 in pool.Disk && pool.Disk[0].Ctrl? && pool.Disk[0].root == b
      ensures b in pool.Disk && Shaped(pool.Disk[b], d) && !pool.Disk[b].leaf
      ensures RowsOf(pool.Disk[b]) == [up] && KidsOf(pool.Disk[b]) == [left, right]
      ensures forall a :: a in old(Used) && a in old(pool.Disk) ==> a in pool.Disk && pool.Disk[a] == old(pool.Disk)[a]
    {
      hide Store.Valid, Less, Sound, SepBag;
      Look0(c);
      Here();
      b := if pool.frames[c].freeHead == -1 then pool.file.length else pool.frames[c].freeHead;
      var page := NewRoot(d, left, up, right);
      UsedNotZero();
      AddPage(c, page);
      SetRoot(c, b);
    }

    lemma {:induction false} UsedNotZero()
      requires Inv()
      ensures 0 !in Used && Once(Used)
    {
      FreeDistinct(Used, Free, pool.Disk.Keys);
    }

    /** The tree is another one from now on. */
    ghost method Become(t: Tree, h: nat, contents: map<Text, Rid>)
      requires Inv()
      modifies `Root, `Height, `Contents
      ensures Inv() && Root == t && Height == h && Contents == contents
    {
      hide BufferPool.Valid, Store.Valid, FreeList, Conserved, SepBag;
      Root, Height, Contents := t, h, contents;
    }

    /**
     b_tree_insert: the record rid, whose key is new, becomes one of the contents.
     Besides the path and the control page, the page of a new node may be pinned.
     */
    method Insert(rid: Rid, ghost key: Text)
      requires Valid() && Height <= 14
      requires env.names.KeyIs(rid, true, key) && |key| <= MAX_KEY && key !in Contents
      modifies Repr()
      ensures Valid() && Contents == old(Contents)[key := rid]
      ensures env.names.recs == old(env.names.recs) && env.names.loose == old(env.names.loose)
      ensures Height == old(Height) || (Height == old(Height) + 1 && Root.Node? && |Root.kids| == 2)
    {
      hide Store.Valid, Less, Sound, SepBag, Known, Linked, Wf, Rows, Seps, Pages, Leaves, Rep, Booked, Lists,
           CanTake, Ranged;
      NewKey(env.names, Entry(rid, key), Contents, Rows(Root));
      var c, f, root := PinRoot();
      InsertEntry(c, f, rid, Entry(rid, key));
      UnpinRoot(root);
    }

    /** tree_insert from the root on, and a new root if this one has been split. */
    method InsertEntry(c: int, f: int, rid: Rid, ghost e: Entry)
      requires Part(f, Root, Height, Open, Open, RootMin(Root), -1) && Controls(c) && Settled() && Height >= 1
      requires rid == e.rid && CanTake(env.names, e, Rows(Root), Open, Open) && e.key !in Contents
      requires |PinSet(pool.Pins)| + Height <= CACHE_PAGE
      modifies Repr()
      ensures Settled() && pool.Pins == old(pool.Pins) && Contents == old(Contents)[e.key := e.rid]
      ensures env.names.recs == old(env.names.recs) && env.names.loose == old(env.names.loose)
      ensures Height == old(Height) || (Height == old(Height) + 1 && Root.Node? && |Root.kids| == 2)
    {
      hide Store.Valid, Less, Sound, SepBag, Known, Linked, Wf, Rows, Seps, Pages, Leaves, Rep, Grew, Booked, Lists,
           Ranged;
      ghost var disk0, l0, names0 := pool.Disk, Book(), env.names;
      UsedNotZero();
      var addr, up;
      ghost var mid, out;
      addr, up, mid, out := TreeInsert(f, rid, Root, e, Height, Open, Open, RootMin(Root), -1);
      EndInsert(c, addr, up, disk0, l0, names0, e, mid, out);
    }

    static lemma {:induction false} NewKey(names: Names, e: Entry, contents: map<Text, Rid>, rows: seq<Entry>)
      requires names.KeyIs(e.rid, true, e.key) && |e.key| <= MAX_KEY && e.key !in contents && Lists(contents, rows)
      ensures CanTake(names, e, rows, Open, Open)
    {
    }

    /** Rows that were known stay known while records and their strings stay. */
    static lemma {:induction false} KnownRows(names0: Names, names1: Names, rows0: seq<Entry>, rows1: seq<Entry>,
                                              e: Entry)
      requires Known(names0, rows0, true) && names0.KeyIs(e.rid, true, e.key) && |e.key| <= MAX_KEY
      requires names1.recs == names0.recs && names1.loose == names0.loose
      requires multiset(rows1) <= multiset(rows0) + multiset{e}
      ensures Known(names1, rows1, true)
    {
      forall r | r in rows1
        ensures names1.KeyIs(r.rid, true, r.key) && |r.key| <= MAX_KEY
      {
        assert r in multiset(rows1);
        assert r in multiset(rows0) || r == e;
      }
    }

    /** The books and the contents after an insertion. */
    static lemma {:induction false} RowsAfterInsert(t0: Tree, l0: Ledger, t1: Tree, l1: Ledger, e: Entry)
      requires Booked(t0, l0) && Booked(t1, l1) && l1.rows == l0.rows + multiset{e}
      ensures multiset(Rows(t1)) == multiset(Rows(t0)) + multiset{e}
    {
    }

    method EndInsert(c: int, addr: int, up: Rid, ghost disk0: Disk, ghost l0: Ledger, ghost names0: Names,
                     ghost e: Entry, ghost mid: seq<Entry>, ghost out: seq<Tree>)
      requires Inv() && Controls(c) && pool.Disk[0].root == Root.addr
      requires Booked(Root, l0) && Linked(Leaves(Root), -1) && Height >= 1
      requires Wf(Root, d, Height, Open, Open, RootMin(Root))
      requires Grew(d, disk0, l0, pool.Disk, Book(), Root, e, mid, out, Height, Open, Open, RootMin(Root), -1)
      requires if addr == -1 then |out| == 1
               else |out| == 2 && |mid| == 1 && out[1].addr == addr && mid[0].rid == up
      requires Known(names0, Rows(Root), true) && names0.KeyIs(e.rid, true, e.key) && |e.key| <= MAX_KEY
      requires env.names.recs == names0.recs && env.names.loose == names0.loose
      requires Lists(Contents, Rows(Root)) && e.key !in Contents
      requires |PinSet(pool.Pins)| + 1 <= CACHE_PAGE
      modifies pool.Repr(), `Used, `Free, `Root, `Height, `Contents
      ensures Settled() && pool.Pins == old(pool.Pins) && env.names == old(env.names)
      ensures Contents == old(Contents)[e.key := e.rid]
      ensures Height == old(Height) || (Height == old(Height) + 1 && Root.Node? && |Root.kids| == 2)
    {
      hide Store.Valid, Less, Sound, SepBag, Known, Linked, Wf, Rows, Seps, Pages, Leaves, Rep, Booked, Lists, Turns,
           Ranged;
      ghost var t, h := Root, Height;
      Look0(c);
      ghost var r;
      if addr == -1 {
        r := out[0];
        RootKept(d, disk0, l0, pool.Disk, Book(), t, e, mid, out, h, RootMin(t));
        SameKind(t, RootMin(t), r, RootMin(t), d, h);
      } else {
        UsedNotZero();
        var b := GrowRoot(c, pool.frames[c].root, up, addr);
        r, h := Node(b, mid, out), h + 1;
        RootGrew(d, disk0, l0, old(pool.Disk), old(Book()), pool.Disk, Book(), t, e, mid, out, b, Height, RootMin(t));
      }
      RowsAfterInsert(t, l0, r, Book(), e);
      KnownRows(names0, env.names, Rows(t), Rows(r), e);
      ListedAfterInsert(Contents, Rows(t), Rows(r), e);
      Become(r, h, Contents[e.key := e.rid]);
    }

    static lemma {:induction false} SameKind(t: Tree, m0: nat, r: Tree, m1: nat, d: nat, h: nat)
      requires Wf(t, d, h, Open, Open, m0) && Wf(r, d, h, Open, Open, m1)
      ensures t.Leaf? == r.Leaf?
    {
    }

    // ----- b_tree_delete -----

    /** The pages are the tree r, and the books are right. */
    ghost predicate Represents(r: Tree, h: nat)
      reads this`Stored, this`Used, pool`Disk, env
    {
      && 0 in pool.Disk && pool.Disk[0].Ctrl? && pool.Disk[0].root == r.addr
      && Rep(pool.Disk, r, d)
      && Wf(r, d, h, Open, Open, RootMin(r))
      && Linked(Leaves(r), -1)
      && Booked(r, Book())
    }

    /** Row index - 1, e, goes from the page of the leaf t. */
    method TakeRow(f: int, index: nat, ghost t: Tree, ghost e: Entry)
      requires Inv() && Points(f, t) && t.Leaf? && t.addr in Used && t.addr in pool.Disk
               && Shows(pool.Disk[t.addr], t, d)
      requires 1 <= index <= |t.rows| && e in Stored
      modifies pool`Disk, pool.frames, `Stored
      ensures Steady() && Book() == old(Book()).(rows := old(Stored) - multiset{e})
      ensures t.addr in pool.Disk && Shows(pool.Disk[t.addr], Without(t, index - 1), d)
      ensures pool.Disk == old(pool.Disk)[t.addr := pool.Disk[t.addr]]
    {
      hide Store.Valid, Less, Sound, SepBag, Shows, Without;
      LookAt(f, t.addr);
      InUse(t.addr);
      ZeroPage();
      ShownSize(pool.frames[f], t, d);
      Here();
      ghost var p0 := pool.frames[f];
      var page := RemoveRow(pool.frames[f], d, index);
      WithoutShown(p0, page, t, index - 1, d);
      Put(f, t.addr, page);
      Leave(e);
    }

    /** The root is a leaf: only rows move. */
    method DeleteAtRootLeaf(f: int, index: nat, ghost e: Entry) returns (ghost r: Tree)
      requires Part(f, Root, Height, Open, Open, RootMin(Root), -1)
      requires Represents(Root, Height) && Root.Leaf? && UpperBound(Root.rows, e.key, index) && e in Root.rows
      modifies pool`Disk, pool.frames, `Stored
      ensures Steady() && Represents(r, Height) && Stored + multiset{e} == old(Stored)
    {
      hide Store.Valid, Less, Sound, SepBag, Known, Linked, Leaves, Pages, Seps, UpperBound, Sorted, Shows, Booked, Wf;
      PresentBefore(Root.rows, Open, Open, e, index) by {
        IncreasingRows(Root, Height, Open, Open, RootMin(Root));
      }
      TopInUse(Root);
      LeafRows(Root, Book());
      assert e in multiset(Root.rows);
      TakeRow(f, index, Root, e);
      r := Without(Root, index - 1);
      RootLeafShrunk(d, old(Book()), pool.Disk, Book(), Root, index - 1, Height);
    }

    lemma {:induction false} IncreasingRows(t: Tree, h: nat, lo: Bound, hi: Bound, m: nat)
      requires t.Leaf? && Wf(t, d, h, lo, hi, m)
      ensures Increasing(t.rows)
    {
    }

    /** The page of the root becomes free and its first kid the root; separator s goes. */
    method StepDown(c: int, f: int, old0: Rid, ghost t: Tree, ghost s: Entry)
      requires Inv() && Controls(c) && Points(f, t) && t.addr in Used && t.Node? && |t.kids| >= 1
      requires t.addr in pool.Disk && Shows(pool.Disk[t.addr], t, d) && pool.Disk[t.addr].n >= 1
      requires 0 in pool.Disk && pool.Disk[0].Ctrl? && pool.Disk[0].root == t.addr
      requires old0 == s.rid && s in Book().seps
      modifies env.Repr(), pool`Disk, pool.frames, `Used, `Free
      ensures Inv() && FramesStay() && pool.Pins == old(pool.Pins)
      ensures env.names.recs == old(env.names.recs) && env.names.loose == old(env.names.loose)
      ensures Stored == old(Stored) && Used + multiset{t.addr} == old(Used)
              && Book().seps == old(Book()).seps - multiset{s}
      ensures 0 in pool.Disk && pool.Disk[0].Ctrl? && pool.Disk[0].root == t.kids[0].addr
      ensures forall a :: a in old(pool.Disk) && a != 0 && a != t.addr ==>
                a in pool.Disk && pool.Disk[a] == old(pool.Disk)[a]
    {
      hide Store.Valid, Less, Sound, SepBag, Known, Linked, Rep, Wf;
      LookAt(f, t.addr);
      InUse(t.addr);
      DropKey(old0, s);
      GiveUpRoot(c, f, t.addr);
      assert FramesStay();
    }

    /** The page at a, in frame f, is the root: it becomes free and its first child the root. */
    method GiveUpRoot(c: int, f: int, ghost a: int)
      requires Inv() && Controls(c) && pool.Holds(f, a) && a in pool.Pins && a in Used && a > 0
      requires a in pool.Disk && Shaped(pool.Disk[a], d) && pool.Disk[a].n >= 1
      requires 0 in pool.Disk && pool.Disk[0].Ctrl? && pool.Disk[0].root == a
      modifies pool`Disk, pool.frames, `Used, `Free
      ensures Inv() && Used + multiset{a} == old(Used)
      ensures 0 in pool.Disk && pool.Disk[0].Ctrl? && pool.Disk[0].root == old(pool.Disk)[a].child[0]
      ensures forall x :: x in old(pool.Disk) && x != 0 && x != a ==>
                x in pool.Disk && pool.Disk[x] == old(pool.Disk)[x]
    {
      hide Store.Valid, Less, Sound, SepBag;
      LookAt(f, a);
      Put(f, a, pool.frames[f].(n := pool.frames[f].n - 1));
      Look0(c);
      PushFree(c, f, pool.frames[c].root);
      LookAt(f, a);
      SetRoot(c, pool.frames[f].child[0]);
    }

    /** A root with a single separator, which has to go, gives way to its first kid. */
    method Collapse(c: int, f: int, old0: Rid, ghost disk0: Disk, ghost l0: Ledger, ghost e: Entry, ghost pend: int,
                    ghost w: Tree)
      requires Inv() && Controls(c) && Points(f, Root) && Root.addr in Used && Root.Node? && |Root.seps| == 1
      requires Booked(Root, l0) && Linked(Leaves(Root), -1) && Once(l0.pages)
      requires Root.addr in disk0 && Shows(disk0[Root.addr], Root, d)
      requires 0 in pool.Disk && pool.Disk[0].Ctrl? && pool.Disk[0].root == Root.addr
      requires Deleted(disk0, l0, Root, e, pend, old0, w, Height, Open, Open, -1) && pend != -1
      modifies env.Repr(), pool`Disk, pool.frames, `Used, `Free
      ensures Inv() && FramesStay() && pool.Pins == old(pool.Pins)
      ensures env.names.recs == old(env.names.recs) && env.names.loose == old(env.names.loose)
      ensures |w.kids| == 1 && Height > 1 && Represents(w.kids[0], Height - 1) && Stored == old(Stored)
    {
      hide Store.Valid, Less, Sound, SepBag, Known, Turns, Linked, Ranged, Seps, Leaves, Booked, Wf, Rep;
      ZeroPage();
      UsedNotZero();
      StepDown(c, f, old0, Root, Root.seps[pend]);
      UsedNotZero();
      RootCollapsed(d, disk0, l0, old(pool.Disk), old(Rest(Root, pend)), pool.Disk, Book(), Root, e, pend, w, Height);
      LessNeeded(w.kids[0], Height - 1);
    }

    lemma {:induction false} LessNeeded(t: Tree, h: nat)
      requires d >= 1 && Wf(t, d, h, Open, Open, d)
      ensures Wf(t, d, h, Open, Open, RootMin(t))
    {
    }

    /** The root after tree_delete below it. */
    method SettleRoot(c: int, f: int, old0: Rid, ghost disk0: Disk, ghost l0: Ledger, ghost e: Entry, ghost pend: int,
                      ghost w: Tree)
      returns (ghost r: Tree, ghost h: nat)
      requires Inv() && Controls(c) && Points(f, Root) && Root.Node?
      requires Booked(Root, l0) && Linked(Leaves(Root), -1) && Once(l0.pages) && Wf(Root, d, Height, Open, Open, 1)
      requires Rep(disk0, Root, d)
      requires 0 in pool.Disk && pool.Disk[0].Ctrl? && pool.Disk[0].root == Root.addr
      requires Deleted(disk0, l0, Root, e, pend, old0, w, Height, Open, Open, -1)
      modifies env.Repr(), pool`Disk, pool.frames, `Used, `Free
      ensures Inv() && FramesStay() && pool.Pins == old(pool.Pins)
      ensures env.names.recs == old(env.names.recs) && env.names.loose == old(env.names.loose)
      ensures Represents(r, h) && Stored + multiset{e} == l0.rows
      ensures h == Height || h == Height - 1
    {
      hide Store.Valid, Less, Sound, SepBag, Known, Turns, Linked, Ranged, Seps, Leaves, Booked, Wf, Rep, Deleted,
           Shrunk, Shows, Increasing;
      Pending(Root, e, pend, old0, disk0, l0, w, Height, Open, Open, -1);
      RootFacts(Root, disk0, l0, Height);
      StillRoot(Root, e, pend, old0, disk0, l0, w, Height);
      if old0.addr == -1 {
        NothingPending(Root, e, pend, old0, disk0, l0, w, Height);
        r, h := w, Height;
        return;
      }
      PendingPage(Root, e, pend, old0, disk0, l0, w, Height);
      LookAt(f, Root.addr);
      ShownSize(pool.frames[f], Root, d);
      if pool.frames[f].n > 1 {
        UsedNotZero();
        TakeOff(f, old0, disk0, l0, Root, e, pend, w, Height, Open, Open, -1);
        UsedNotZero();
        RootShrunk(d, disk0, l0, old(pool.Disk), pool.Disk, Book(), Root, e, pend, w, Height);
        r, h := w, Height;
      } else {
        Collapse(c, f, old0, disk0, l0, e, pend, w);
        r, h := w.kids[0], Height - 1;
      }
    }

    lemma {:induction false} RootFacts(t: Tree, disk0: Disk, l0: Ledger, h: nat)
      requires t.Node? && Wf(t, d, h, Open, Open, 1) && Rep(disk0, t, d) && Booked(t, l0)
      ensures |t.seps| >= 1 && Increasing(t.seps) && t.addr in disk0 && Shows(disk0[t.addr], t, d)
      ensures multiset(Seps(t)) <= l0.seps
    {
      hide Store.Valid, Less, Seps, Rows, Pages;
    }

    lemma {:induction false} StillRoot(t: Tree, e: Entry, pend: int, old0: Rid, disk0: Disk, l0: Ledger, w: Tree,
                                       h: nat)
      requires Inv() && t.Node? && Booked(t, l0) && Once(l0.pages)
      requires Deleted(disk0, l0, t, e, pend, old0, w, h, Open, Open, -1)
      ensures t.addr in Used && Stored + multiset{e} == l0.rows
    {
      hide Store.Valid, Less, Sound, SepBag, Turns, Linked, Leaves, Seps, Rows, Pages;
      OnceUsed();
      TopApart(t, l0.pages);
      ShrunkApart(t, w, l0, Rest(t, pend), -1);
    }

    lemma {:induction false} PendingPage(t: Tree, e: Entry, pend: int, old0: Rid, disk0: Disk, l0: Ledger, w: Tree,
                                         h: nat)
      requires Inv() && t.addr in disk0 && Shows(disk0[t.addr], t, d) && pend != -1
      requires Deleted(disk0, l0, t, e, pend, old0, w, h, Open, Open, -1)
      ensures t.addr in pool.Disk && Shows(pool.Disk[t.addr], t, d)
    {
    }

    lemma {:induction false} NothingPending(t: Tree, e: Entry, pend: int, old0: Rid, disk0: Disk, l0: Ledger, w: Tree,
                                            h: nat)
      requires Inv() && t.Node? && Booked(t, l0) && Linked(Leaves(t), -1) && Once(l0.pages)
               && Wf(t, d, h, Open, Open, 1)
      requires 0 in pool.Disk && pool.Disk[0].Ctrl? && pool.Disk[0].root == t.addr && |t.seps| >= 1
      requires Deleted(disk0, l0, t, e, pend, old0, w, h, Open, Open, -1) && pend == -1
      ensures Represents(w, h)
    {
      hide Store.Valid, Less, Sound, SepBag, Turns, Linked, Ranged, Leaves, Booked, Wf;
      OnceUsed();
      RootShrunk(d, disk0, l0, pool.Disk, pool.Disk, Book(), t, e, pend, w, h);
    }

    lemma {:induction false} AtRoot(f: int, e: Entry)
      requires Part(f, Root, Height, Open, Open, RootMin(Root), -1) && Represents(Root, Height) && Root.Node?
      ensures Inv() && Points(f, Root) && Root.addr in Used && Wf(Root, d, Height, Open, Open, 1)
      ensures Rep(pool.Disk, Root, d) && Booked(Root, Book()) && Linked(Leaves(Root), -1) && Once(Used)
      ensures 0 in pool.Disk && pool.Disk[0].Ctrl? && pool.Disk[0].root == Root.addr
    {
      hide Store.Valid, Less, Sound, SepBag, Linked, Leaves, Seps, Rows;
      OnceUsed();
      TopInUse(Root);
    }

    method PinBelowRoot(c: int, f: int, index: nat, ghost e: Entry) returns (child: int, fc: int)
      requires Part(f, Root, Height, Open, Open, RootMin(Root), -1) && Controls(c) && Represents(Root, Height)
               && Root.Node?
      requires UpperBound(Root.seps, e.key, index) && e in Rows(Root) && |PinSet(pool.Pins)| + 1 <= CACHE_PAGE
      modifies pool.Repr()
      ensures index < |Root.kids| && Deleting(f, fc, Root, index, e, Height, Open, Open, 1, -1)
      ensures Controls(c) && FramesStay()
      ensures pool.Disk == old(pool.Disk) && pool.Pins == old(pool.Pins) + multiset{child}
      ensures |PinSet(pool.Pins)| <= |PinSet(old(pool.Pins))| + 1
    {
      hide Store.Valid, Less, Sound, SepBag, Known, Linked, Rep, Wf, Rows, Leaves, Pages, Seps, UpperBound, Represents;
      LeadsBelow(Root, index, e, d, Height, Open, Open, 1);
      KidPlaced(c, f, Root, index, Height, Open, Open, 1, -1);
      StoredRow(Root, Height, e);
      LookAt(f, Root.addr);
      child := pool.frames[f].child[index];
      PinOne(pool.Pins, child);
      fc := Pin(child);
    }

    lemma {:induction false} StoredRow(t: Tree, h: nat, e: Entry)
      requires Represents(t, h) && e in Rows(t)
      ensures e in Stored
    {
      hide Store.Valid, Less, SepBag, Linked, Rep, Wf, Leaves, Pages, Seps, Rows;
      assert e in multiset(Rows(t));
    }

    /** tree_delete on a kid of the root, in frame fc, and what follows from it for the root. */
    method DeleteThrough(c: int, f: int, fc: int, rid: Rid, ghost index: nat, ghost e: Entry)
        returns (ghost r: Tree, ghost h: nat)
      requires Deleting(f, fc, Root, index, e, Height, Open, Open, 1, -1) && Controls(c) && Height >= 1
      requires Root.Node? && Wf(Root, d, Height, Open, Open, 1) && Rep(pool.Disk, Root, d)
      requires Booked(Root, Book()) && Linked(Leaves(Root), -1) && Once(Used)
      requires 0 in pool.Disk && pool.Disk[0].Ctrl? && pool.Disk[0].root == Root.addr
      requires env.names.KeyIs(rid, true, e.key)
      requires |PinSet(pool.Pins)| + Height - 1 <= CACHE_PAGE
      modifies pool.Repr(), env.Repr(), `Used, `Free, `Stored
      ensures Inv() && FramesStay() && pool.Pins == old(pool.Pins)
      ensures env.names.recs == old(env.names.recs) && env.names.loose == old(env.names.loose)
      ensures Represents(r, h) && Stored + multiset{e} == old(Stored)
      ensures h == Height || h == Height - 1
    {
      hide Store.Valid, Less, Sound, SepBag, Deleted, Deleting, Represents, Booked, Wf, Rep, Linked, Leaves;
      Pointed(f, fc, Root, index, e, Height, Open, Open, 1, -1);
      ghost var pend, w;
      var old0;
      old0, pend, w := TreeDelete(f, fc, rid, Root, index, e, Height, Open, Open, 1, -1);
      r, h := SettleRoot(c, f, old0, old(pool.Disk), old(Book()), e, pend, w);
    }

    /** The root is an inner node. */
    method DeleteBelowRoot(c: int, f: int, index: nat, rid: Rid, ghost e: Entry) returns (ghost r: Tree, ghost h: nat)
      requires Part(f, Root, Height, Open, Open, RootMin(Root), -1) && Controls(c) && Represents(Root, Height)
               && Root.Node?
      requires UpperBound(Root.seps, e.key, index) && e in Rows(Root) && env.names.KeyIs(rid, true, e.key)
      requires |PinSet(pool.Pins)| + Height <= CACHE_PAGE && Height >= 1
      modifies pool.Repr(), env.Repr(), `Used, `Free, `Stored
      ensures Inv() && FramesStay() && pool.Pins == old(pool.Pins)
      ensures env.names.recs == old(env.names.recs) && env.names.loose == old(env.names.loose)
      ensures Represents(r, h) && Stored + multiset{e} == old(Stored)
      ensures h == Height || h == Height - 1
    {
      hide Store.Valid, Less, Sound, SepBag, Deleting, Part, Represents, UpperBound, Booked, Wf, Rep, Linked, Leaves;
      AtRoot(f, e);
      var child, fc := PinBelowRoot(c, f, index, e);
      r, h := DeleteThrough(c, f, fc, rid, index, e);
      Unpin(child);
    }

    /**
     b_tree_delete: the key behind rid, which is present, goes.
     Besides the path and the control page, a sibling may be pinned.
     */
    method Delete(rid: Rid, ghost key: Text)
      requires Valid() && Height <= 14
      requires env.names.KeyIs(rid, true, key) && key in Contents
      modifies Repr()
      ensures Valid() && Contents == old(Contents) - {key}
      ensures env.names.recs == old(env.names.recs) && env.names.loose == old(env.names.loose)
      ensures Height == old(Height) || Height == old(Height) - 1
    {
      hide Store.Valid, Less, Sound, SepBag, Known, Linked, Wf, Rows, Seps, Pages, Leaves, Rep, Booked, Lists,
           Represents;
      PresentRow(key);
      ghost var e, l0, names0 := Entry(Contents[key], key), Book(), env.names;
      var c, f, root := PinRoot();
      ghost var r, h := DeleteRow(c, f, rid, e);
      EndDelete(r, h, e, l0, names0);
      UnpinRoot(root);
    }

    /** Row e goes; the pages are the tree r then. */
    method DeleteRow(c: int, f: int, rid: Rid, ghost e: Entry) returns (ghost r: Tree, ghost h: nat)
      requires Part(f, Root, Height, Open, Open, RootMin(Root), -1) && Controls(c) && Settled()
      requires env.names.KeyIs(rid, true, e.key) && e in Rows(Root)
      requires |PinSet(pool.Pins)| + Height <= CACHE_PAGE && Height >= 1
      modifies pool.Repr(), env.Repr(), `Used, `Free, `Stored
      ensures Inv() && FramesStay() && pool.Pins == old(pool.Pins)
      ensures env.names.recs == old(env.names.recs) && env.names.loose == old(env.names.loose)
      ensures Represents(r, h) && Stored + multiset{e} == old(Stored)
      ensures h == Height || h == Height - 1
    {
      hide Store.Valid, Less, Sound, SepBag, Known, Linked, Wf, Rows, Seps, Pages, Leaves, Rep, Booked, Lists,
           Represents;
      var index := PlaceOf(c, f, rid, Root, e.key, Height, Open, Open, RootMin(Root), -1);
      IsRepresented(f);
      r, h := Root, Height;
      if pool.frames[f].leaf {
        LeafRow(Root, e);
        r := DeleteAtRootLeaf(f, index, e);
      } else {
        r, h := DeleteBelowRoot(c, f, index, rid, e);
      }
    }

    ghost method EndDelete(r: Tree, h: nat, e: Entry, l0: Ledger, names0: Names)
      requires Inv() && Represents(r, h) && Stored + multiset{e} == l0.rows && Booked(Root, l0)
      requires Known(names0, Rows(Root), true) && Increasing(Rows(Root)) && Lists(Contents, Rows(Root))
      requires env.names.recs == names0.recs && env.names.loose == names0.loose && e in Rows(Root)
      modifies `Root, `Height, `Contents
      ensures Settled() && Contents == old(Contents) - {e.key} && Height == h
    {
      hide Store.Valid, Less, Sound, SepBag, Known, Linked, Wf, Rows, Seps, Pages, Leaves, Rep, Lists;
      KnownRows(names0, env.names, Rows(Root), Rows(r), e) by {
        KnownOne(names0, Rows(Root), e);
      }
      ListedAfterDelete(Contents, Rows(Root), Rows(r), e);
      Become(r, h, Contents - {e.key});
    }

    static lemma {:induction false} KnownOne(names: Names, rows: seq<Entry>, e: Entry)
      requires Known(names, rows, true) && e in rows
      ensures names.KeyIs(e.rid, true, e.key) && |e.key| <= MAX_KEY
    {
    }

    static lemma {:induction false} LeafRow(t: Tree, e: Entry)
      requires t.Leaf? && e in Rows(t)
      ensures e in t.rows
    {
    }

    lemma {:induction false} PresentRow(key: Text)
      requires Lists(Contents, Rows(Root)) && key in Contents
      ensures Entry(Contents[key], key) in Rows(Root)
    {
    }

    lemma {:induction false} IsRepresented(f: int)
      requires Part(f, Root, Height, Open, Open, RootMin(Root), -1) && Booked(Root, Book())
      requires 0 in pool.Disk && pool.Disk[0].Ctrl? && pool.Disk[0].root == Root.addr
      ensures Represents(Root, Height)
    {
    }

    // ----- Changes of the store between two operations -----

    /** What holds of the index apart from the records and the strings of its rows. */
    ghost predicate Standing(seps: map<Rid, Text>)
      reads this, pool.Repr()
    {
      && Apart() && pool.Valid() && pool.Pins == multiset{}
      && 0 in pool.Disk && pool.Disk[0] == Ctrl(Root.addr, Head(Free))
      && FreeList(pool.Disk, Free, d)
      && Conserved(Used, Free, pool.Disk.Keys)
      && Rep(pool.Disk, Root, d)
      && Wf(Root, d, Height, Open, Open, RootMin(Root))
      && Linked(Leaves(Root), -1)
      && Booked(Root, Ledger(Stored, SepBag(seps), Used))
      && Lists(Contents, Rows(Root))
    }

    /** Every row names a record with its key. */
    ghost predicate Named(names: Names)
      reads `Contents
    {
      forall k :: k in Contents ==> names.KeyIs(Contents[k], true, k) && |k| <= MAX_KEY
    }

    lemma {:induction false} Stands()
      requires Valid()
      ensures Standing(env.names.seps) && env.Valid() && Named(env.names)
    {
      hide BufferPool.Valid, Store.Valid, FreeList, SepBag, Less, Rows, Leaves, Pages, Seps, Rep, Wf;
      forall k | k in Contents
        ensures env.names.KeyIs(Contents[k], true, k) && |k| <= MAX_KEY
      {
        assert Entry(Contents[k], k) in Rows(Root);
      }
    }

    lemma {:induction false} StandsAgain()
      requires Standing(env.names.seps) && env.Valid() && Named(env.names)
      ensures Valid()
    {
      hide BufferPool.Valid, Store.Valid, FreeList, SepBag, Less, Rows, Leaves, Pages, Seps, Rep, Wf;
    }

    // ----- What Valid says about the pages -----

    /**
     Going down from the root to the leftmost leaf, and then along next, one finds exactly the rows of the tree,
     with strictly increasing keys.
     */
    lemma {:induction false} LeafChain(n: nat)
      requires Valid() && n >= |Leaves(Root)|
      ensures 0 in pool.Disk && pool.Disk[0].Ctrl?
      ensures Walk(pool.Disk, Leftmost(pool.Disk, pool.Disk[0].root, Height), n) == RidsIn(Rows(Root))
      ensures Increasing(Rows(Root)) && |Rows(Root)| == |Contents|
      ensures forall i :: 0 <= i < |Rows(Root)| ==>
                Rows(Root)[i].key in Contents && Contents[Rows(Root)[i].key] == Rows(Root)[i].rid
    {
      hide BufferPool.Valid, Store.Valid, FreeList, SepBag, Less, Pages, Seps;
      pool.Addresses();
      LeftmostLeaf(pool.Disk, Root, d, Height, Open, Open, RootMin(Root));
      LeavesShown(pool.Disk, Root, d);
      RowsOfLeaves(Root);
      WalkLeaves(pool.Disk, Leaves(Root), d, n);
      RowsSorted(Root, d, Height, Open, Open, RootMin(Root));
      ListedSize(Contents, Rows(Root));
      assert forall i :: 0 <= i < |Rows(Root)| ==> Rows(Root)[i] in Rows(Root);
    }

    /** Every page of the file is the control page, a node of the tree, once, or on the free list, once. */
    lemma {:induction false} PagesConserved(a: int)
      requires Valid() && a in pool.Disk
      ensures a == 0 ==> a !in Pages(Root) && a !in Free
      ensures a != 0 ==> multiset(Pages(Root))[a] + multiset(Free)[a] == 1
    {
      hide BufferPool.Valid, Store.Valid, FreeList, SepBag, Less, Rows, Seps;
      OnePlace(Root, Book(), Free, pool.Disk.Keys, a);
    }

    /** Every live separator string belongs to exactly one separator in the tree, with the same key, and vice versa. */
    lemma {:induction false} SeparatorsOwned(r: Rid)
      requires Valid()
      ensures r in env.names.seps ==> multiset(Seps(Root))[Entry(r, env.names.seps[r])] == 1
      ensures forall e :: e in Seps(Root) ==> e.rid in env.names.seps && env.names.seps[e.rid] == e.key
    {
      hide BufferPool.Valid, Store.Valid, FreeList, Less, Rows, Pages;
      forall e | e in Seps(Root)
        ensures e.rid in env.names.seps && env.names.seps[e.rid] == e.key
      {
        InSepBag(env.names.seps, Seps(Root), e);
      }
    }
  }
}
