/** The free-space map: a multimap from the free space of a block to its address, in a file of its own. */
module HashMaps {
  import opened BufferPools
  import Loops
  import opened MapPages
  import opened Seqs

  class HashMap {
    const dirs: nat
    const pool: BufferPool<MapPage>
    ghost var Bags: seq<multiset<int>>
    ghost var Lists: seq<seq<int>>
    ghost var Owner: map<int, nat>

    ghost function Repr(): set<object> {
      {this} + pool.Repr()
    }

    ghost predicate Shape() {
      pool.Shape() && this !in pool.Repr() && dirs >= 1
    }

    ghost predicate Inv()
      reads Repr()
    {
      && Shape() && pool.Valid()
      && |Bags| == DIR_SIZE * dirs && |Lists| == |Bags| + 1
      && Mapped(pool.Disk, dirs, Lists, Bags, Owner)
      && (forall b, x :: 0 <= b < |Bags| && x in Bags[b] ==> x >= 0)
    }

    ghost predicate Valid()
      reads Repr()
    {
      Inv() && pool.Pins == multiset{}
    }

    /** get_page: pages that are pinned stay where they are, and so does the page used last. */
    method Get(addr: int) returns (f: int)
      requires Shape() && pool.Valid() && addr in pool.Disk && |PinSet(pool.Pins)| < 8
      modifies pool.Repr()
      ensures pool.Valid() && pool.Disk == old(pool.Disk) && pool.file.length == old(pool.file.length)
      ensures pool.Pins == old(pool.Pins) + multiset{addr} && |PinSet(pool.Pins)| <= |PinSet(old(pool.Pins))| + 1
      ensures 0 <= f < CACHE_PAGE && pool.Holds(f, addr) && pool.frames[f] == pool.Disk[addr] && pool.lru[0] == addr
      ensures forall g :: 0 <= g < CACHE_PAGE && old(pool.addrs[g]) in old(pool.Pins) ==>
                pool.addrs[g] == old(pool.addrs[g])
      ensures forall g :: 0 <= g < CACHE_PAGE && old(pool.addrs[g]) == old(pool.lru[0]) != NO_PAGE
                ==> pool.addrs[g] == old(pool.addrs[g])
    {
      hide BufferPool.Valid;
      PinOne(pool.Pins, addr);
      LruCount(pool.Pins, pool.lru[0]);
      f := pool.GetPage(addr);
      forall g | 0 <= g < CACHE_PAGE && g != f
        ensures pool.addrs[g] == old(pool.addrs[g])
      {
        assert pool.addrs[..][g] == old(pool.addrs[..])[f := addr][g];
      }
    }

    static lemma {:induction false} LruCount(pins: multiset<int>, a: int)
      ensures |PinSet(pins) + {a}| <= |PinSet(pins)| + 1
    {
      PinOne(pins, a);
    }

    /** The frame that holds a page shows it. */
    lemma {:induction false} Look(f: int, a: int)
      requires Shape() && pool.Valid() && pool.Holds(f, a) && a >= 0
      ensures 0 <= f < pool.frames.Length && a in pool.Disk && pool.frames[f] == pool.Disk[a]
    {
      pool.Frame(f, a);
    }

    /** hash_table_init on an empty file. */
    constructor (nDirs: nat)
      requires nDirs >= 1
      ensures dirs == nDirs && Shape() && Valid() && fresh(Repr()) && this in Repr()
      ensures Bags == seq(DIR_SIZE * nDirs, _ => multiset{})
    {
      dirs := nDirs;
      pool := new BufferPool(File(map[], 0), MapCtrl(0, 0, 0));
      Bags := seq(DIR_SIZE * nDirs, _ => multiset{});
      Lists := seq(DIR_SIZE * nDirs + 1, _ => []);
      Owner := map[];
      new;
      hide BufferPool.Valid;
      Format(pool, nDirs);
      EmptyMap(pool.Disk, nDirs);
    }

    static method Format(p: BufferPool<MapPage>, nDirs: nat)
      requires p.Valid() && p.file.length == 0 && p.Disk == map[] && nDirs >= 1
      modifies p`file, p`Disk
      ensures p.Valid() && p.Disk.Keys == Reserved(nDirs) && p.Pins == old(p.Pins)
      ensures 0 in p.Disk && p.Disk[0] == MapCtrl(-1, nDirs, DIR_SIZE * nDirs)
      ensures forall i: nat :: i < nDirs ==> DirAt(i) in p.Disk && p.Disk[DirAt(i)] == Dir(seq(DIR_SIZE, _ => -1))
    {
      hide BufferPool.Valid;
      p.Addresses();
      p.Append(MapCtrl(-1, nDirs, DIR_SIZE * nDirs));
      ReservedStep(0);
      var i := 0;
      while i < nDirs
        invariant 0 <= i <= nDirs
        invariant p.Valid() && p.file.length == PAGE_SIZE * (i + 1) && p.Disk.Keys == Reserved(i)
        invariant 0 in p.Disk && p.Disk[0] == MapCtrl(-1, nDirs, DIR_SIZE * nDirs)
        invariant forall j: nat :: j < i ==> DirAt(j) in p.Disk && p.Disk[DirAt(j)] == Dir(seq(DIR_SIZE, _ => -1))
      {
        ReservedStep(i);
        p.Append(Dir(seq(DIR_SIZE, _ => -1)));
        i := i + 1;
      }
    }

    // ----- hash_table_insert -----

    static ghost predicate NewBlock(p: MapPage, addr: int) {
      p.Bucket? && p.next == -1 && p.n == 1 && |p.table| == TABLE_SIZE && p.table[0] == addr
    }

    /** A block with the single item addr: a page at the end of the file, or the first free page. */
    method Allocate(c: int, addr: int, ghost free: seq<int>) returns (ghost p: MapPage)
      requires Shape() && pool.Valid() && pool.Holds(c, 0) && 0 in pool.Pins && |PinSet(pool.Pins)| < 8
      requires 0 in pool.Disk && pool.Disk[0].MapCtrl? && pool.Disk[0].freeHead == First(free)
      requires free != [] ==> IsBlock(pool.Disk, free[0]) && free[0] != 0 && pool.Disk[free[0]].next == First(free[1..])
      modifies pool.Repr()
      ensures pool.Valid() && pool.Pins == old(pool.Pins) && NewBlock(p, addr)
      ensures forall g :: 0 <= g < CACHE_PAGE && old(pool.addrs[g]) in old(pool.Pins) ==>
                pool.addrs[g] == old(pool.addrs[g])
      ensures if free == [] then old(pool.file.length) !in old(pool.Disk)
              && pool.Disk == old(pool.Disk)[old(pool.file.length) := p]
              else pool.Disk == old(pool.Disk)[0 := old(pool.Disk)[0].(freeHead := First(free[1..]))][free[0] := p]
    {
      hide BufferPool.Valid;
      Look(c, 0);
      pool.Addresses();
      if pool.frames[c].freeHead == -1 {
        var block := Bucket(-1, 1, [addr] + seq(TABLE_SIZE - 1, _ => -1));
        pool.Append(block);
        p := block;
      } else {
        p := Reuse(c, addr, free);
      }
    }

    method Reuse(c: int, addr: int, ghost free: seq<int>) returns (ghost p: MapPage)
      requires Shape() && pool.Valid() && pool.Holds(c, 0) && 0 in pool.Pins && |PinSet(pool.Pins)| < 8
      requires 0 in pool.Disk && pool.Disk[0].MapCtrl? && pool.Disk[0].freeHead == First(free)
      requires free != [] && IsBlock(pool.Disk, free[0]) && free[0] != 0 && pool.Disk[free[0]].next == First(free[1..])
      modifies pool.Repr()
      ensures pool.Valid() && pool.Pins == old(pool.Pins) && NewBlock(p, addr)
      ensures forall g :: 0 <= g < CACHE_PAGE && old(pool.addrs[g]) in old(pool.Pins) ==>
                pool.addrs[g] == old(pool.addrs[g])
      ensures pool.Disk == old(pool.Disk)[0 := old(pool.Disk)[0].(freeHead := First(free[1..]))][free[0] := p]
    {
      hide BufferPool.Valid;
      Look(c, 0);
      pool.Addresses();
      var temp := pool.frames[c].freeHead;
      var g := Get(temp);
      Look(c, 0);
      pool.Store(c, pool.frames[c].(freeHead := pool.frames[g].next));
      Look(g, temp);
      var block := pool.frames[g];
      block := block.(n := 1, next := -1, table := block.table[0 := addr]);
      pool.Store(g, block);
      p := block;
      pool.Release(temp);
    }

    /** A bucket has got a new block. */
    ghost method Attach(disk0: MapDisk, b: nat, a: int, p: MapPage, free: seq<int>, addr: int)
      requires Shape() && pool.Valid() && (forall b, x :: 0 <= b < |Bags| && x in Bags[b] ==> x >= 0)
      requires |Bags| == DIR_SIZE * dirs && |Lists| == |Bags| + 1
      requires Attaching(disk0, pool.Disk, dirs, Lists, Bags, Owner, b, a, p, free) && NewBlock(p, addr) && addr >= 0
      modifies `Bags, `Lists, `Owner
      ensures Inv() && Bags == old(Bags)[b := old(Bags)[b] + multiset{addr}]
      ensures Lists == old(Lists)[b := old(Lists)[b] + [a]][|Bags| := free]
      ensures pool.Disk.Keys == disk0.Keys + {a} && TableOf(pool.Disk, a) == [addr] && OneTable(disk0, pool.Disk, a)
    {
      hide BufferPool.Valid, Mapped, Attached, TableOf, OneTable;
      AttachedTables(disk0, pool.Disk, dirs, Lists, Bags, Owner, b, a, p, free, addr);
      Extended(disk0, pool.Disk, dirs, Lists, Bags, Owner, b, a, p, free);
      assert p.table[..1] == [addr];
      assert Items(p) == multiset{addr};
      Lists, Bags, Owner := Lists[b := Lists[b] + [a]][|Bags| := free], Bags[b := Bags[b] + Items(p)], Owner[a := b];
    }

    /** The first block of an empty bucket. */
    method StartChain(c: int, f: int, b: nat, addr: int)
      requires Inv() && pool.Holds(c, 0) && 0 in pool.Pins && b < |Bags| && pool.Holds(f, DirPage(b)) && Lists[b] == []
      requires |PinSet(pool.Pins)| < 8 && addr >= 0
      modifies Repr()
      ensures Inv() && pool.Pins == old(pool.Pins) && Bags == old(Bags)[b := old(Bags)[b] + multiset{addr}]
      ensures PutAfter(old(pool.Disk), old(Lists), old(pool.file.length), pool.Disk, Lists, b, addr)
    {
      hide BufferPool.Valid, Mapped, TableOf, OneTable;
      Heads(pool.Disk, dirs, Lists, Bags, Owner, b);
      Look(c, 0);
      pool.Addresses();
      Look(f, DirPage(b));
      var a := if pool.frames[c].freeHead == -1 then pool.file.length else pool.frames[c].freeHead;
      pool.Store(f, pool.frames[f].(directory := pool.frames[f].directory[b % DIR_SIZE := a]));
      ghost var free := Lists[|Bags|];
      ghost var p := Allocate(c, addr, free);
      AttachingBlock(old(pool.Disk), old(pool.file.length), b, a, addr, p, free);
      Attach(old(pool.Disk), b, a, p, if free == [] then [] else free[1..], addr);
    }

    /** One more block after the last one of a bucket, which is in frame g. */
    method ExtendChain(c: int, g: int, b: nat, addr: int)
      requires Inv() && pool.Holds(c, 0) && 0 in pool.Pins && b < |Bags| && Lists[b] != []
      requires pool.Holds(g, Lists[b][|Lists[b]| - 1])
      requires |PinSet(pool.Pins)| < 8 && addr >= 0
      modifies Repr()
      ensures Inv() && pool.Pins == old(pool.Pins) && Bags == old(Bags)[b := old(Bags)[b] + multiset{addr}]
      ensures PutAfter(old(pool.Disk), old(Lists), old(pool.file.length), pool.Disk, Lists, b, addr)
    {
      hide BufferPool.Valid, Mapped, TableOf, OneTable;
      Heads(pool.Disk, dirs, Lists, Bags, Owner, b);
      Look(c, 0);
      pool.Addresses();
      ghost var last := Lists[b][|Lists[b]| - 1];
      Look(g, last);
      var a := if pool.frames[c].freeHead == -1 then pool.file.length else pool.frames[c].freeHead;
      pool.Store(g, pool.frames[g].(next := a));
      ghost var free := Lists[|Bags|];
      ghost var p := Allocate(c, addr, free);
      AttachingBlock(old(pool.Disk), old(pool.file.length), b, a, addr, p, free);
      Attach(old(pool.Disk), b, a, p, if free == [] then [] else free[1..], addr);
    }

    lemma {:induction false} AttachingBlock(disk0: MapDisk, end: int, b: nat, a: int, addr: int, p: MapPage,
                                            free: seq<int>)
      requires Mapped(disk0, dirs, Lists, Bags, Owner) && b < |Bags| && free == Lists[|Bags|]
      requires end !in disk0 && NewBlock(p, addr) && a == (if free == [] then end else free[0])
      requires Layout(disk0, dirs) && b < DIR_SIZE * dirs
               && (Lists[b] != [] ==> IsBlock(disk0, Lists[b][|Lists[b]| - 1]))
      requires var disk1 := Attached(disk0, dirs, b, Lists[b], a);
               pool.Disk == if free == [] then disk1[end := p]
                            else disk1[0 := disk0[0].(freeHead := First(free[1..]))][free[0] := p]
      ensures Attaching(disk0, pool.Disk, dirs, Lists, Bags, Owner, b, a, p, if free == [] then [] else free[1..])
    {
      hide Mapped, Layout, Reserved;
      Heads(disk0, dirs, Lists, Bags, Owner, b);
      Spare(disk0, dirs, Lists, Bags, Owner);
    }

    static lemma {:induction false} OneMore(block: MapPage, page: MapPage, x: int)
      requires block.Bucket? && 0 <= block.n < |block.table|
      requires page == block.(table := block.table[block.n := x], n := block.n + 1)
      ensures page.table[..page.n] == block.table[..block.n] + [x] && Items(page) == Items(block) + multiset{x}
    {
    }

    static lemma {:induction false} IsPutInto(disk: MapDisk, lists: seq<seq<int>>, b: nat, k: nat, page: MapPage,
                                              x: int)
      requires b < |lists| && k < |lists[b]| && IsBlock(disk, lists[b][k]) && 0 <= disk[lists[b][k]].n < TABLE_SIZE
      requires var block := disk[lists[b][k]]; page == block.(table := block.table[block.n := x], n := block.n + 1)
      ensures PutInto(disk, lists, disk[lists[b][k] := page], lists, b, k, x)
    {
      OneMore(disk[lists[b][k]], page, x);
    }

    /** The block in frame g has room. */
    method AddItem(g: int, b: nat, ghost k: nat, addr: int)
      requires Inv() && b < |Bags| && k < |Lists[b]| && pool.Holds(g, Lists[b][k]) && addr >= 0
      requires Lists[b][k] in pool.Disk && pool.Disk[Lists[b][k]].Bucket? && pool.Disk[Lists[b][k]].n != TABLE_SIZE
      modifies pool`Disk, pool.frames, `Bags
      ensures Inv() && Bags == old(Bags)[b := old(Bags)[b] + multiset{addr}]
      ensures PutInto(old(pool.Disk), old(Lists), pool.Disk, Lists, b, k, addr)
    {
      hide BufferPool.Valid, Mapped, Items, PutInto;
      Heads(pool.Disk, dirs, Lists, Bags, Owner, b);
      pool.Addresses();
      Look(g, Lists[b][k]);
      var block := pool.frames[g];
      var page := block.(table := block.table[block.n := addr], n := block.n + 1);
      OneMore(block, page, addr);
      IsPutInto(pool.Disk, Lists, b, k, page, addr);
      pool.Store(g, page);
      Changed(old(pool.Disk), pool.Disk, dirs, Lists, Bags, Owner, b, k, page);
      ItemsWithin(old(pool.Disk), dirs, Lists, Bags, Owner, b, k);
      assert Bags[b] - Items(block) + Items(page) == Bags[b] + multiset{addr};
      Bags := Bags[b := Bags[b] + multiset{addr}];
    }

    /** The blocks on the lists. */
    lemma {:induction false} BlockAt(b: nat, k: nat)
      requires Inv() && b < |Bags| && k < |Lists[b]|
      ensures Lists[b][k] in pool.Disk && Lists[b][k] > 0 && IsBlock(pool.Disk, Lists[b][k])
      ensures 1 <= pool.Disk[Lists[b][k]].n <= TABLE_SIZE && pool.Disk[Lists[b][k]].next == First(Lists[b][k + 1..])
      ensures pool.Disk[Lists[b][k]].next == -1 <==> k == |Lists[b]| - 1
      ensures k < |Lists[b]| - 1 ==> pool.Disk[Lists[b][k]].next == Lists[b][k + 1] && Lists[b][k + 1] in pool.Disk
    {
      hide BufferPool.Valid, Mapped;
      Heads(pool.Disk, dirs, Lists, Bags, Owner, b);
      EndOfChain(b, k + 1);
      pool.Addresses();
      assert IsBlock(pool.Disk, Lists[b][k]);
      assert k < |Lists[b]| - 1 ==> IsBlock(pool.Disk, Lists[b][k + 1]);
    }

    method ReleaseBoth(blockAddr: int)
      requires Inv() && pool.Pins == multiset{0, blockAddr}
      modifies pool`Pins, pool.refs
      ensures Valid()
    {
      hide BufferPool.Valid, Mapped;
      pool.Release(blockAddr);
      pool.Release(0);
      assert pool.Pins == multiset{};
    }

    /**
     In a walk along bucket b, g points to its block k; besides the control page and the first block, more is pinned.
     */
    ghost predicate Walking(c: int, g: int, b: nat, k: nat, blockAddr: int, more: multiset<int>)
      reads Repr()
    {
      && Inv() && b < |Bags| && k < |Lists[b]| && blockAddr == Lists[b][0]
      && pool.Holds(c, 0) && pool.Holds(g, Lists[b][k])
      && 0 <= g < pool.frames.Length && Lists[b][k] in pool.Disk && pool.frames[g] == pool.Disk[Lists[b][k]]
      && pool.frames[g].Bucket?
      && pool.Pins == multiset{0, blockAddr} + more
    }

    method LetGo(c: int, g: int, b: nat, ghost k: nat, blockAddr: int, temp: int)
      requires Walking(c, g, b, k, blockAddr, multiset{temp})
      modifies pool`Pins, pool.refs
      ensures Walking(c, g, b, k, blockAddr, multiset{})
    {
      hide BufferPool.Valid, Mapped, First, PinSet;
      pool.Release(temp);
    }

    /** block = get_page(block->next); */
    method Advance(c: int, g: int, b: nat, ghost k: nat, blockAddr: int) returns (temp: int, r: int)
      requires Walking(c, g, b, k, blockAddr, multiset{}) && pool.frames[g].next != -1
      modifies pool.Repr()
      ensures k + 1 < |Lists[b]| && temp == Lists[b][k + 1] && Walking(c, r, b, k + 1, blockAddr, multiset{temp})
      ensures pool.Disk == old(pool.Disk) && pool.file.length == old(pool.file.length)
    {
      hide BufferPool.Valid, Mapped, First, PinSet;
      BlockAt(b, k);
      BlockAt(b, k + 1);
      PinCount(pool.Pins);
      temp := pool.frames[g].next;
      r := Get(temp);
    }

    method ExtendWalk(c: int, g: int, b: nat, ghost k: nat, blockAddr: int, addr: int)
      requires Walking(c, g, b, k, blockAddr, multiset{}) && pool.frames[g].next == -1 && addr >= 0
      modifies Repr()
      ensures Valid() && Bags == old(Bags)[b := old(Bags)[b] + multiset{addr}]
      ensures PutAfter(old(pool.Disk), old(Lists), old(pool.file.length), pool.Disk, Lists, b, addr)
    {
      hide BufferPool.Valid, Mapped, First, PinSet, PutAfter;
      BlockAt(b, k);
      PinCount(pool.Pins);
      ExtendChain(c, g, b, addr);
      ReleaseBoth(blockAddr);
    }

    /** The block that the walk has come to has room. */
    method FinishInsert(c: int, g: int, b: nat, ghost k: nat, blockAddr: int, flag: int, temp: int, addr: int)
      requires Walking(c, g, b, k, blockAddr, if k == 0 then multiset{} else multiset{temp})
      requires pool.frames[g].n != TABLE_SIZE && addr >= 0 && flag == (if k == 0 then 0 else 1)
      modifies Repr()
      ensures Valid() && Bags == old(Bags)[b := old(Bags)[b] + multiset{addr}]
      ensures PutInto(old(pool.Disk), old(Lists), pool.Disk, Lists, b, k, addr)
    {
      hide BufferPool.Valid, Mapped, First, PinSet, PutInto;
      AddItem(g, b, k, addr);
      if flag == 1 {
        pool.Release(temp);
      }
      assert pool.Pins == multiset{0, blockAddr};
      ReleaseBoth(blockAddr);
    }

    lemma {:induction false} InWalk(c: int, g: int, b: nat, k: nat, blockAddr: int, more: multiset<int>)
      requires Walking(c, g, b, k, blockAddr, more)
      ensures Inv() && 0 <= g < pool.frames.Length && pool.frames[g].Bucket? && b < |Bags| && k < |Lists[b]|
      ensures |TableOf(pool.Disk, Lists[b][k])| == pool.frames[g].n <= TABLE_SIZE
      ensures pool.frames[g].next == -1 <==> k == |Lists[b]| - 1
    {
      hide BufferPool.Valid, Mapped, First, PinSet;
      BlockAt(b, k);
    }

    /** The walk along a bucket to its first block with room, or to its end. */
    method InsertInChain(c: int, b: nat, blockAddr: int, addr: int)
      requires Inv() && pool.Holds(c, 0) && pool.Pins == multiset{0} && b < |Bags| && addr >= 0
      requires Lists[b] != [] && blockAddr == Lists[b][0]
      modifies Repr()
      ensures Valid() && Bags == old(Bags)[b := old(Bags)[b] + multiset{addr}]
      ensures PutIn(old(pool.Disk), old(Lists), old(pool.file.length), pool.Disk, Lists, b, addr)
    {
      hide Walking, Valid, Mapped, PutInto, PutAfter, TableOf, FullBlocks;
      var count, flag, temp := 0, 0, -1;
      ghost var k := 0;
      var g := EnterChain(c, b, blockAddr);
      InWalk(c, g, b, k, blockAddr, multiset{});
      while pool.frames[g].n == TABLE_SIZE
        invariant Lists == old(Lists) && Bags == old(Bags) && k < |Lists[b]|
        invariant pool.Disk == old(pool.Disk) && pool.file.length == old(pool.file.length)
        invariant 0 <= g < pool.frames.Length && pool.frames[g].Bucket?
        invariant |TableOf(pool.Disk, Lists[b][k])| == pool.frames[g].n <= TABLE_SIZE
        invariant pool.frames[g].next == -1 <==> k == |Lists[b]| - 1
        invariant Walking(c, g, b, k, blockAddr, if k == 0 then multiset{} else multiset{temp})
        invariant count == k && flag == (if k == 0 then 0 else 1) && AllFull(pool.Disk, Lists[b], k)
        decreases |Lists[b]| - k
      {
        count := count + 1;
        if count != 1 {
          LetGo(c, g, b, k, blockAddr, temp);
        } else {
          flag := 1;
        }
        assert AllFull(pool.Disk, Lists[b], k + 1);
        if pool.frames[g].next == -1 {
          FullBlocksAre(pool.Disk, Lists[b], k + 1);
          ExtendWalk(c, g, b, k, blockAddr, addr);
          return;
        }
        temp, g := Advance(c, g, b, k, blockAddr);
        k := k + 1;
        InWalk(c, g, b, k, blockAddr, multiset{temp});
      }
      FullBlocksAre(pool.Disk, Lists[b], k);
      FinishInsert(c, g, b, k, blockAddr, flag, temp, addr);
    }

    method EnterChain(c: int, b: nat, blockAddr: int) returns (g: int)
      requires Inv() && pool.Holds(c, 0) && pool.Pins == multiset{0} && b < |Bags|
      requires Lists[b] != [] && blockAddr == Lists[b][0]
      modifies pool.Repr()
      ensures Walking(c, g, b, 0, blockAddr, multiset{})
      ensures pool.Disk == old(pool.Disk) && pool.file.length == old(pool.file.length)
    {
      hide BufferPool.Valid, Mapped, First, PinSet;
      BlockAt(b, 0);
      PinCount(pool.Pins);
      g := Get(blockAddr);
    }

    static lemma {:induction false} PinCount(pins: multiset<int>)
      ensures |PinSet(pins)| <= |pins|
      decreases |pins|
    {
      if x :| x in pins {
        PinCount(pins - multiset{x});
        PinOne(pins - multiset{x}, x);
        assert pins - multiset{x} + multiset{x} == pins;
      } else {
        assert forall x :: x !in PinSet(pins);
        assert PinSet(pins) == {};
      }
    }

    /** The address -1 stands for the end of a chain. */
    lemma {:induction false} EndOfChain(b: nat, k: nat)
      requires Inv() && b < |Lists| && k <= |Lists[b]|
      ensures First(Lists[b][k..]) == -1 <==> k == |Lists[b]|
    {
      pool.Addresses();
      assert k < |Lists[b]| ==> IsBlock(pool.Disk, Lists[b][k]);
    }

    method Insert(size: int, addr: int)
      requires Valid() && 0 <= size < DIR_SIZE * dirs && addr >= 0
      modifies Repr()
      ensures Valid() && Bags == old(Bags)[size := old(Bags)[size] + multiset{addr}]
      ensures PutIn(old(pool.Disk), old(Lists), old(pool.file.length), pool.Disk, Lists, size, addr)
    {
      hide BufferPool.Valid, Mapped, PinSet, PutInto, PutAfter;
      var c, f, blockAddr := FirstBlockOf(size);
      if blockAddr == -1 {
        FullBlocksAre(pool.Disk, Lists[size], 0);
        PinCount(pool.Pins);
        StartChain(c, f, size, addr);
        pool.Release(0);
      } else {
        InsertInChain(c, size, blockAddr, addr);
      }
    }

    /** The entry of bucket b in its directory page, which is in frame f and released. */
    method FirstBlockOf(b: nat) returns (c: int, f: int, blockAddr: int)
      requires Valid() && b < DIR_SIZE * dirs
      modifies pool.Repr()
      ensures Inv() && pool.Pins == multiset{0} && pool.Holds(c, 0) && b < |Bags| && pool.Holds(f, DirPage(b))
      ensures if blockAddr == -1 then Lists[b] == [] else Lists[b] != [] && blockAddr == Lists[b][0]
      ensures pool.Disk == old(pool.Disk) && pool.file.length == old(pool.file.length)
    {
      hide BufferPool.Valid, Mapped, PinSet;
      Heads(pool.Disk, dirs, Lists, Bags, Owner, b);
      PinCount(pool.Pins);
      c := Get(0);
      var dirAddr := (b / DIR_SIZE + 1) * PAGE_SIZE;
      PinCount(pool.Pins);
      f := Get(dirAddr);
      blockAddr := pool.frames[f].directory[b % DIR_SIZE];
      pool.Release(dirAddr);
      EndOfChain(b, 0);
    }

    // ----- Removal -----

    /** page is block k of bucket b after entry i, which is x, has been taken out. */
    ghost predicate Without(b: nat, k: nat, page: MapPage, i: nat, x: int)
      requires pool.Shape()
      reads Repr()
    {
      && b < |Bags| && b < |Lists| && k < |Lists[b]| && IsBlock(pool.Disk, Lists[b][k])
      && var block := pool.Disk[Lists[b][k]];
      && page.Bucket? && |page.table| == TABLE_SIZE && page.next == block.next && page.n == block.n - 1 && 0 <= page.n
      && i < block.n <= TABLE_SIZE && block.table[i] == x
      && page.table[..page.n] == RemoveAt(block.table[..block.n], i)
    }

    /** The items in the page. */
    static lemma {:induction false} OneLess(block: MapPage, page: MapPage, i: nat)
      requires block.Bucket? && page.Bucket? && i < block.n <= |block.table|
               && 0 <= page.n == block.n - 1 <= |page.table|
      requires page.table[..page.n] == RemoveAt(block.table[..block.n], i)
      ensures Items(page) + multiset{block.table[i]} == Items(block)
    {
      RemovedBag(block.table[..block.n], i);
    }

    /** The block stays in its bucket. */
    method Shrink(g: int, b: nat, ghost k: nat, page: MapPage, ghost i: nat, ghost x: int)
      requires Inv() && Without(b, k, page, i, x) && pool.Holds(g, Lists[b][k]) && page.n != 0
      modifies pool`Disk, pool.frames, `Bags
      ensures Inv() && Bags == old(Bags)[b := old(Bags)[b] - multiset{x}]
      ensures TakenFrom(old(pool.Disk), old(Lists), pool.Disk, Lists, b, k, i)
    {
      hide BufferPool.Valid, Mapped, Items;
      Heads(pool.Disk, dirs, Lists, Bags, Owner, b);
      pool.Addresses();
      Look(g, Lists[b][k]);
      ghost var block := pool.frames[g];
      OneLess(block, page, i);
      pool.Store(g, page);
      Changed(old(pool.Disk), pool.Disk, dirs, Lists, Bags, Owner, b, k, page);
      ItemsWithin(old(pool.Disk), dirs, Lists, Bags, Owner, b, k);
      assert Bags[b] - Items(block) + Items(page) == Bags[b] - multiset{x};
      Bags := Bags[b := Bags[b] - multiset{x}];
    }

    /** The block is empty and goes to the free list; f points to what points to it. */
    method Discard(c: int, f: int, g: int, b: nat, ghost k: nat, a: int, first: bool, page: MapPage, ghost i: nat,
                   ghost x: int)
      requires Inv() && Without(b, k, page, i, x) && pool.Holds(c, 0) && pool.Holds(g, Lists[b][k]) && page.n == 0
      requires a == Lists[b][k] && first == (k == 0)
      requires pool.Holds(f, if k == 0 then DirPage(b) else Lists[b][k - 1])
      modifies pool`Disk, pool.frames, `Bags, `Lists, `Owner
      ensures Inv() && Bags == old(Bags)[b := old(Bags)[b] - multiset{x}]
      ensures TakenFrom(old(pool.Disk), old(Lists), pool.Disk, Lists, b, k, i)
    {
      hide BufferPool.Valid, Mapped, Items, Bridged, TableOf, OneTable;
      Sites(b, k);
      OneLess(pool.Disk[a], page, i);
      OnlyEntry(pool.Disk, a, i);
      Relink(c, f, g, b, k, a, first, page);
      UnlinkedTables(old(pool.Disk), pool.Disk, dirs, b, Lists[b], k, page.(next := old(pool.Disk)[0].freeHead));
      Detached(old(pool.Disk), b, k, a, page, x);
    }

    /** The stores that unlink the empty block. */
    method Relink(c: int, f: int, g: int, b: nat, ghost k: nat, a: int, first: bool, page: MapPage)
      requires Inv() && b < |Bags| && k < |Lists[b]| && pool.Holds(c, 0) && pool.Holds(g, Lists[b][k])
      requires a == Lists[b][k] && first == (k == 0) && IsBlock(pool.Disk, a)
      requires page.Bucket? && page.next == pool.Disk[a].next
      requires pool.Holds(f, if k == 0 then DirPage(b) else Lists[b][k - 1])
      modifies pool`Disk, pool.frames
      ensures pool.Valid() && Layout(old(pool.Disk), dirs) && 0 in old(pool.Disk) && old(pool.Disk)[0].MapCtrl?
      ensures k > 0 ==> IsBlock(old(pool.Disk), Lists[b][k - 1])
      ensures pool.Disk == Bridged(old(pool.Disk), dirs, b, Lists[b], k)
                           [a := page.(next := old(pool.Disk)[0].freeHead)][0 := old(pool.Disk)[0].(freeHead := a)]
    {
      hide BufferPool.Valid, Mapped;
      Sites(b, k);
      Look(c, 0);
      Look(g, a);
      Look(f, if k == 0 then DirPage(b) else Lists[b][k - 1]);
      pool.Store(g, page);
      if first {
        pool.Store(f, pool.frames[f].(directory := pool.frames[f].directory[b % DIR_SIZE := pool.frames[g].next]));
      } else {
        pool.Store(f, pool.frames[f].(next := pool.frames[g].next));
      }
      pool.Store(g, pool.frames[g].(next := pool.frames[c].freeHead));
      pool.Store(c, pool.frames[c].(freeHead := a));
      Detour(old(pool.Disk), dirs, b, Lists[b], k, page, pool.Disk);
    }

    /** What the stores of Relink make of the disk. */
    static lemma {:induction false} Detour(disk0: MapDisk, dirs: nat, b: nat, chain: seq<int>, k: nat, page: MapPage,
                                           disk1: MapDisk)
      requires Layout(disk0, dirs) && b < DIR_SIZE * dirs && k < |chain| && IsBlock(disk0, chain[k])
               && (k > 0 ==> IsBlock(disk0, chain[k - 1]))
      requires 0 in disk0 && disk0[0].MapCtrl? && DirPage(b) in disk0 && disk0[DirPage(b)].Dir?
               && |disk0[DirPage(b)].directory| == DIR_SIZE
      requires chain[k] != 0 && DirPage(b) != 0 && chain[k] != DirPage(b)
               && (k > 0 ==> chain[k - 1] != 0 && chain[k - 1] != chain[k])
      requires page.Bucket? && page.next == disk0[chain[k]].next
      requires var a := chain[k];
               var dir := disk0[DirPage(b)];
               var past := if k == 0 then dir.(directory := dir.directory[b % DIR_SIZE := page.next])
                           else disk0[chain[k - 1]].(next := page.next);
               disk1 == disk0[a := page][(if k == 0 then DirPage(b) else chain[k - 1]) := past]
                             [a := page.(next := disk0[0].freeHead)][0 := disk0[0].(freeHead := a)]
      ensures disk1 == Bridged(disk0, dirs, b, chain, k)
                       [chain[k] := page.(next := disk0[0].freeHead)][0 := disk0[0].(freeHead := chain[k])]
    {
    }

    /** The pages that the removal of block k writes to. */
    lemma {:induction false} Sites(b: nat, k: nat)
      requires Inv() && b < |Bags| && k < |Lists[b]|
      ensures Layout(pool.Disk, dirs) && 0 in pool.Disk && pool.Disk[0].MapCtrl?
      ensures DirPage(b) in pool.Disk && pool.Disk[DirPage(b)].Dir? && |pool.Disk[DirPage(b)].directory| == DIR_SIZE
      ensures DirPage(b) > 0 && Lists[b][k] > 0 && Lists[b][k] != DirPage(b) && IsBlock(pool.Disk, Lists[b][k])
      ensures k > 0 ==> var y := Lists[b][k - 1]; IsBlock(pool.Disk, y) && y > 0 && y != DirPage(b) && y != Lists[b][k]
    {
      hide BufferPool.Valid, Bag, Items, Linked, Filled;
      Heads(pool.Disk, dirs, Lists, Bags, Owner, b);
      BlockAt(b, k);
      pool.Addresses();
      assert k > 0 ==> IsBlock(pool.Disk, Lists[b][k - 1]);
    }

    static lemma {:induction false} NoItems(page: MapPage)
      requires page.Bucket? && page.n == 0
      ensures Items(page) == multiset{}
    {
      assert page.table[..0] == [];
    }

    static lemma {:induction false} OnlyEntry(disk: MapDisk, a: int, i: nat)
      requires IsBlock(disk, a) && disk[a].n == 1 && i < 1
      ensures |TableOf(disk, a)| == 1 && RemoveAt(TableOf(disk, a), i) == []
    {
    }

    ghost method Detached(disk0: MapDisk, b: nat, k: nat, a: int, page: MapPage, x: int)
      requires Shape() && pool.Valid() && (forall b, x :: 0 <= b < |Bags| && x in Bags[b] ==> x >= 0)
      requires |Bags| == DIR_SIZE * dirs && |Lists| == |Bags| + 1 && page.Bucket? && page.n == 0
               && |page.table| == TABLE_SIZE
      requires Mapped(disk0, dirs, Lists, Bags, Owner) && b < |Bags| && k < |Lists[b]| && a == Lists[b][k]
      requires Layout(disk0, dirs) && IsBlock(disk0, a) && (k > 0 ==> IsBlock(disk0, Lists[b][k - 1]))
      requires 0 in disk0 && disk0[0].MapCtrl? && Items(page) + multiset{x} == Items(disk0[a])
      requires pool.Disk == Bridged(disk0, dirs, b, Lists[b], k)
                            [a := page.(next := disk0[0].freeHead)][0 := disk0[0].(freeHead := a)]
      modifies `Bags, `Lists, `Owner
      ensures Inv() && Bags == old(Bags)[b := old(Bags)[b] - multiset{x}]
      ensures Lists == old(Lists)[b := RemoveAt(old(Lists)[b], k)][|Bags| := [a] + old(Lists)[|Bags|]]
    {
      hide BufferPool.Valid, Mapped, Bridged, Items, Layout;
      ghost var q := page.(next := disk0[0].freeHead);
      Heads(disk0, dirs, Lists, Bags, Owner, b);
      NoItems(page);
      Unlinked(disk0, pool.Disk, dirs, Lists, Bags, Owner, b, k, q);
      assert Items(disk0[a]) == multiset{x};
      Lists, Bags, Owner := Lists[b := RemoveAt(Lists[b], k)][|Bags| := [a] + Lists[|Bags|]],
                            Bags[b := Bags[b] - multiset{x}],
                            Owner[a := |Bags|];
    }

    /** Item x leaves block k of bucket b; the block goes to the free list if it was the only one. */
    method TakeOut(c: int, f: int, g: int, b: nat, ghost k: nat, a: int, first: bool, page: MapPage, ghost i: nat,
                   ghost x: int)
      requires Inv() && Without(b, k, page, i, x) && pool.Holds(c, 0) && pool.Holds(g, Lists[b][k])
      requires a == Lists[b][k] && first == (k == 0)
      requires pool.Holds(f, if k == 0 then DirPage(b) else Lists[b][k - 1])
      modifies pool`Disk, pool.frames, `Bags, `Lists, `Owner
      ensures Inv() && x in old(Bags)[b] && Bags == old(Bags)[b := old(Bags)[b] - multiset{x}]
      ensures TakenFrom(old(pool.Disk), old(Lists), pool.Disk, Lists, b, k, i)
    {
      hide BufferPool.Valid, Mapped, Items, TakenFrom;
      OneLess(pool.Disk[Lists[b][k]], page, i);
      ItemsWithin(pool.Disk, dirs, Lists, Bags, Owner, b, k);
      assert x in Items(pool.Disk[Lists[b][k]]);
      if page.n == 0 {
        Discard(c, f, g, b, k, a, first, page, i, x);
      } else {
        Shrink(g, b, k, page, i, x);
      }
    }

    // ----- What the map amounts to -----

    /**
     Walking a bucket, or the free list, ends; it visits the blocks on that list, which hold the items of the bucket.
     */
    lemma {:induction false} ChainWalk(b: nat, n: nat)
      requires Valid() && b <= DIR_SIZE * dirs && b < |Lists| && n >= |Lists[b]|
      ensures Layout(pool.Disk, dirs) && b <= |Bags|
      ensures Walk(pool.Disk, if b < |Bags| then Slot(pool.Disk, dirs, b) else pool.Disk[0].freeHead, n) == Lists[b]
      ensures b < |Bags| ==> Bag(pool.Disk, Lists[b]) == Bags[b]
      ensures b < |Bags| ==> forall a :: a in Lists[b] ==> a in pool.Disk && 1 <= |Items(pool.Disk[a])| <= TABLE_SIZE
    {
      hide BufferPool.Valid, Bag, Items, Linked, Filled, Owned, Layout, Slot;
      pool.Addresses();
      Walked(pool.Disk, Lists[b], n);
      if b < |Bags| {
        BlockSizes(pool.Disk, Lists[b]);
      }
    }

    /** Every page past the directory is on exactly one of the lists, at one place. */
    lemma {:induction false} PagesConserved(a: int)
      requires Valid() && a in pool.Disk && a !in Reserved(dirs)
      ensures a in Owner && Owner[a] < |Lists| && multiset(Lists[Owner[a]])[a] == 1
      ensures forall b :: 0 <= b < |Lists| && b != Owner[a] ==> a !in Lists[b]
    {
      hide BufferPool.Valid, Bag, Items, Linked, Filled, Layout, Slot;
      OneOf(Lists[Owner[a]], a);
    }

    // ----- hash_table_pop_lower_bound -----

    /** The last item of the first block of bucket b. */
    method PopFirst(c: int, f: int, b: nat, blockAddr: int) returns (ans: int)
      requires Inv() && b < |Bags| && pool.Pins == multiset{0, DirPage(b)} && pool.Holds(c, 0)
               && pool.Holds(f, DirPage(b))
      requires Lists[b] != [] && blockAddr == Lists[b][0]
      modifies Repr()
      ensures Valid() && ans in old(Bags)[b] && Bags == old(Bags)[b := old(Bags)[b] - multiset{ans}]
      ensures LastTaken(old(pool.Disk), old(Lists), pool.Disk, Lists, b, ans)
    {
      hide BufferPool.Valid, Mapped, PinSet, Items, First, RemoveAt, TakenFrom, LastTaken;
      Sites(b, 0);
      BlockAt(b, 0);
      PinCount(pool.Pins);
      var g := Get(blockAddr);
      var block := pool.frames[g];
      ans := block.table[block.n - 1];
      var page := block.(n := block.n - 1, table := block.table[block.n - 1 := -1]);
      LastItem(block, page);
      TakeOut(c, f, g, b, 0, blockAddr, true, page, block.n - 1, ans);
      ReleaseAll(blockAddr, DirPage(b));
      IsLastTaken(old(pool.Disk), old(Lists), pool.Disk, Lists, b, ans);
    }

    method ReleaseAll(blockAddr: int, dirAddr: int)
      requires Inv() && pool.Pins == multiset{0, dirAddr} + multiset{blockAddr}
      modifies pool`Pins, pool.refs
      ensures Valid()
    {
      hide BufferPool.Valid, Mapped;
      pool.Release(blockAddr);
      assert pool.Pins == multiset{0, dirAddr};
      ReleaseBoth(dirAddr);
    }

    static lemma {:induction false} IsLastTaken(disk0: MapDisk, lists0: seq<seq<int>>, disk1: MapDisk,
                                                lists1: seq<seq<int>>, b: nat, x: int)
      requires b < |lists0| && lists0[b] != [] && IsBlock(disk0, lists0[b][0])
      requires var block := disk0[lists0[b][0]];
               && 1 <= block.n <= TABLE_SIZE && x == block.table[block.n - 1]
               && TakenFrom(disk0, lists0, disk1, lists1, b, 0, block.n - 1)
      ensures LastTaken(disk0, lists0, disk1, lists1, b, x)
    {
      hide TakenFrom;
    }

    static lemma {:induction false} LastItem(block: MapPage, page: MapPage)
      requires block.Bucket? && 1 <= block.n <= |block.table|
      requires page == block.(n := block.n - 1, table := block.table[block.n - 1 := -1])
      ensures page.table[..page.n] == RemoveAt(block.table[..block.n], block.n - 1)
    {
    }

    /** Looking into one bucket: get_page on its directory page, and release if the bucket is empty. */
    method TryPop(c: int, b: nat) returns (found: bool, ans: int)
      requires Inv() && b < |Bags| && pool.Pins == multiset{0} && pool.Holds(c, 0)
      modifies Repr()
      ensures if found then Valid() && ans in old(Bags)[b] && Bags == old(Bags)[b := old(Bags)[b] - multiset{ans}]
              else Inv() && pool.Pins == multiset{0} && pool.Holds(c, 0) && Bags == old(Bags) && Bags[b] == multiset{}
      ensures if found then LastTaken(old(pool.Disk), old(Lists), pool.Disk, Lists, b, ans)
              else pool.Disk == old(pool.Disk) && Lists == old(Lists)
    {
      hide BufferPool.Valid, Mapped, PinSet, First, LastTaken;
      Heads(pool.Disk, dirs, Lists, Bags, Owner, b);
      PinCount(pool.Pins);
      var f := Get(DirPage(b));
      var blockAddr := pool.frames[f].directory[b % DIR_SIZE];
      EndOfChain(b, 0);
      assert Lists[b][0..] == Lists[b];
      if blockAddr != -1 {
        FirstBlock(Lists[b]);
        found := true;
        ans := PopFirst(c, f, b, blockAddr);
        return;
      }
      pool.Release(DirPage(b));
      EmptyBag(b);
      found, ans := false, -1;
    }

    static lemma {:induction false} FirstBlock(chain: seq<int>)
      requires chain != []
      ensures First(chain) == chain[0]
    {
    }

    lemma {:induction false} EmptyBag(b: nat)
      requires Inv() && b < |Bags| && Lists[b] == []
      ensures Bags[b] == multiset{}
    {
    }

    /** The buckets from first on, n of them, which are in one directory page. */
    method PopInGroup(c: int, first: nat, n: nat) returns (found: bool, ans: int, ghost b: int)
      requires Inv() && first + n <= |Bags| && pool.Pins == multiset{0} && pool.Holds(c, 0)
      modifies Repr()
      ensures if found then Valid() && first <= b < first + n && ans in old(Bags)[b]
              && Bags == old(Bags)[b := old(Bags)[b] - multiset{ans}]
                            && (forall x :: first <= x < b ==> old(Bags)[x] == multiset{})
              else Inv() && pool.Pins == multiset{0} && pool.Holds(c, 0) && Bags == old(Bags)
                   && (forall x :: first <= x < first + n ==> Bags[x] == multiset{})
      ensures if found then LastTaken(old(pool.Disk), old(Lists), pool.Disk, Lists, b, ans)
              else pool.Disk == old(pool.Disk) && Lists == old(Lists)
    {
      hide BufferPool.Valid, Mapped, LastTaken;
      b := first;
      var j := 0;
      while j < n
        invariant 0 <= j <= n && b == first + j && pool.Disk == old(pool.Disk) && Lists == old(Lists)
        invariant Inv() && pool.Pins == multiset{0} && pool.Holds(c, 0) && Bags == old(Bags)
        invariant forall x :: first <= x < b ==> Bags[x] == multiset{}
      {
        found, ans := TryPop(c, first + j);
        if found {
          return;
        }
        j := j + 1;
        b := b + 1;
      }
      found, ans := false, -1;
    }

    /** The answer comes from the first bucket from size on that is not empty; -1 if all of them are. */
    method PopLowerBound(size: int) returns (ans: int, ghost b: int)
      requires Valid() && 0 <= size < DIR_SIZE * dirs
      modifies Repr()
      ensures Valid() && |Bags| == DIR_SIZE * dirs
      ensures ans == -1 ==> Bags == old(Bags) && forall x :: size <= x < |Bags| ==> Bags[x] == multiset{}
      ensures ans != -1 ==> size <= b < |Bags| && ans >= 0 && ans in old(Bags)[b]
      ensures ans != -1 ==> Bags == old(Bags)[b := old(Bags)[b] - multiset{ans}]
      ensures ans != -1 ==> forall x :: size <= x < b ==> old(Bags)[x] == multiset{}
      ensures if ans == -1 then pool.Disk == old(pool.Disk) && Lists == old(Lists)
              else LastTaken(old(pool.Disk), old(Lists), pool.Disk, Lists, b, ans)
    {
      hide BufferPool.Valid, Mapped, PinSet, LastTaken;
      Control();
      PinCount(pool.Pins);
      var c := Get(0);
      var nDirs := pool.frames[c].nDirs;
      var i := 0;
      b := size;
      while i < nDirs - size / DIR_SIZE
        invariant 0 <= i <= nDirs - size / DIR_SIZE
        invariant b == if i == 0 then size else (size / DIR_SIZE + i) * DIR_SIZE
        invariant size <= b <= |Bags| && pool.Disk == old(pool.Disk) && Lists == old(Lists)
        invariant Inv() && pool.Pins == multiset{0} && pool.Holds(c, 0) && Bags == old(Bags)
        invariant forall x :: size <= x < b ==> Bags[x] == multiset{}
      {
        var found;
        if i == 0 {
          found, ans, b := PopInGroup(c, size, DIR_SIZE - size % DIR_SIZE);
        } else {
          found, ans, b := PopInGroup(c, (size / DIR_SIZE + i) * DIR_SIZE, DIR_SIZE);
        }
        if found {
          return;
        }
        i := i + 1;
        b := (size / DIR_SIZE + i) * DIR_SIZE;
      }
      pool.Release(0);
      ans := -1;
    }

    lemma {:induction false} Control()
      requires Inv()
      ensures 0 in pool.Disk && pool.Disk[0].MapCtrl? && pool.Disk[0].nDirs == dirs
    {
    }

    // ----- hash_table_pop -----

    /**
     The search for an item has come to block k, in frame g. Beyond the first block nothing pins
     this frame: that it still holds the block relies on the block having been used last.
     */
    ghost predicate Searching(c: int, f: int, g: int, b: nat, k: nat, blockAddr: int)
      reads Repr()
    {
      && Inv() && b < |Bags| && k < |Lists[b]| && blockAddr == Lists[b][0]
      && pool.Holds(c, 0) && pool.Holds(f, DirPage(b)) && pool.Holds(g, Lists[b][k])
      && 0 <= g < pool.frames.Length && Lists[b][k] in pool.Disk && pool.frames[g] == pool.Disk[Lists[b][k]]
      && pool.frames[g].Bucket? && 1 <= pool.frames[g].n <= |pool.frames[g].table| == TABLE_SIZE
      && pool.Pins == multiset{0, DirPage(b)} + multiset{blockAddr}
      && (k == 0 || pool.lru[0] == Lists[b][k])
    }

    /** The first position of addr in the table, or n. */
    static method FindItem(block: MapPage, addr: int) returns (i: nat)
      requires block.Bucket? && 0 <= block.n <= |block.table|
      ensures i <= block.n && (i < block.n ==> block.table[i] == addr)
      ensures i == block.n <==> addr !in Items(block)
      ensures forall j :: 0 <= j < i ==> block.table[j] != addr
    {
      i := 0;
      while i < block.n
        invariant 0 <= i <= block.n && forall x :: 0 <= x < i ==> block.table[x] != addr
      {
        if block.table[i] == addr {
          assert block.table[..block.n][i] == addr;
          return;
        }
        i := i + 1;
      }
    }

    /** The items after position i move down. */
    static method TakeItem(block: MapPage, i: nat) returns (page: MapPage)
      requires block.Bucket? && i < block.n <= |block.table|
      ensures page.Bucket? && page.next == block.next && page.n == block.n - 1 && |page.table| == |block.table|
      ensures page.table[..page.n] == RemoveAt(block.table[..block.n], i) && page.table[page.n] == -1
      ensures page.table[block.n..] == block.table[block.n..]
    {
      var table := Loops.ShiftedOut(block.table, block.n, i, -1);
      page := block.(table := table, n := block.n - 1);
    }

    /** The next block comes into another frame than that of the block before it. */
    method NextBlock(c: int, f: int, g: int, b: nat, ghost k: nat, blockAddr: int) returns (temp: int, h: int)
      requires Searching(c, f, g, b, k, blockAddr) && pool.frames[g].next != -1
      modifies pool.Repr()
      ensures k + 1 < |Lists[b]| && temp == Lists[b][k + 1] && Inv() && pool.Disk == old(pool.Disk)
      ensures pool.Holds(c, 0) && pool.Holds(f, DirPage(b)) && pool.Holds(g, Lists[b][k])
      ensures 0 <= h < pool.frames.Length && pool.Holds(h, temp) && temp in pool.Disk
              && pool.frames[h] == pool.Disk[temp]
      ensures pool.frames[h].Bucket? && 1 <= pool.frames[h].n <= |pool.frames[h].table| == TABLE_SIZE
      ensures pool.Pins == multiset{0, DirPage(b)} + multiset{blockAddr} + multiset{temp} && pool.lru[0] == temp
    {
      hide BufferPool.Valid, Mapped, First, PinSet;
      BlockAt(b, k);
      BlockAt(b, k + 1);
      PinCount(pool.Pins);
      temp := pool.frames[g].next;
      h := Get(temp);
    }

    /** get_page on the control page, the directory page and the first block of a bucket. */
    method EnterBucket(b: nat) returns (c: int, f: int, g: int, blockAddr: int)
      requires Valid() && b < |Bags| && Lists[b] != []
      modifies pool.Repr()
      ensures Searching(c, f, g, b, 0, blockAddr) && pool.Disk == old(pool.Disk)
    {
      hide BufferPool.Valid, Mapped, PinSet;
      Sites(b, 0);
      BlockAt(b, 0);
      FirstOf(b);
      PinCount(pool.Pins);
      c := Get(0);
      f := Get(DirPage(b));
      blockAddr := pool.frames[f].directory[b % DIR_SIZE];
      g := Get(blockAddr);
    }

    lemma {:induction false} FirstOf(b: nat)
      requires Inv() && b < |Bags| && Lists[b] != [] && DirPage(b) in pool.Disk && pool.Disk[DirPage(b)].Dir?
      requires |pool.Disk[DirPage(b)].directory| == DIR_SIZE
      ensures pool.Disk[DirPage(b)].directory[b % DIR_SIZE] == Lists[b][0]
    {
      Heads(pool.Disk, dirs, Lists, Bags, Owner, b);
    }

    /** The item is in the first block. */
    method PopHere(c: int, f: int, g: int, b: nat, blockAddr: int, i: nat)
      requires Searching(c, f, g, b, 0, blockAddr) && i < pool.frames[g].n
      modifies Repr()
      ensures Valid() && Bags == old(Bags)[b := old(Bags)[b] - multiset{old(pool.frames[g].table[i])}]
      ensures TakenFrom(old(pool.Disk), old(Lists), pool.Disk, Lists, b, 0, i)
    {
      hide BufferPool.Valid, Mapped, PinSet, First, Items, TakenFrom;
      BlockAt(b, 0);
      Here();
      ghost var x := pool.frames[g].table[i];
      var page := TakeItem(pool.frames[g], i);
      TakeOut(c, f, g, b, 0, blockAddr, true, page, i, x);
      ReleaseAll(blockAddr, DirPage(b));
    }

    /** The item is in block k + 1, in frame h; what points to the block is in frame g. */
    method PopNext(c: int, g: int, h: int, b: nat, ghost k: nat, blockAddr: int, temp: int, i: nat)
      requires Inv() && b < |Bags| && k + 1 < |Lists[b]| && temp == Lists[b][k + 1]
      requires pool.Holds(c, 0) && pool.Holds(g, Lists[b][k]) && 0 <= h < pool.frames.Length && pool.Holds(h, temp)
      requires temp in pool.Disk && pool.frames[h] == pool.Disk[temp] && pool.frames[h].Bucket?
      requires i < pool.frames[h].n <= |pool.frames[h].table| == TABLE_SIZE
      requires pool.Pins == multiset{0, DirPage(b)} + multiset{blockAddr} + multiset{temp}
      modifies Repr()
      ensures Valid() && Bags == old(Bags)[b := old(Bags)[b] - multiset{old(pool.frames[h].table[i])}]
      ensures TakenFrom(old(pool.Disk), old(Lists), pool.Disk, Lists, b, k + 1, i)
    {
      hide BufferPool.Valid, Mapped, PinSet, First, Items, TakenFrom;
      BlockAt(b, k + 1);
      Here();
      ghost var x := pool.frames[h].table[i];
      var page := TakeItem(pool.frames[h], i);
      TakeOut(c, g, h, b, k + 1, temp, false, page, i, x);
      pool.Release(temp);
      ReleaseAll(blockAddr, DirPage(b));
    }

    /** The same where i is the first position of addr. */
    method PopInFirst(c: int, f: int, g: int, b: nat, blockAddr: int, i: nat, ghost addr: int)
      requires Searching(c, f, g, b, 0, blockAddr) && i < pool.frames[g].n && pool.frames[g].table[i] == addr
      requires forall j :: 0 <= j < i ==> pool.frames[g].table[j] != addr
      modifies Repr()
      ensures Valid() && |Bags| == |old(Bags)| > b && Bags == old(Bags)[b := old(Bags)[b] - multiset{addr}]
      ensures FirstTaken(old(pool.Disk), old(Lists), pool.Disk, Lists, b, addr)
    {
      hide BufferPool.Valid, Mapped, PinSet, First, Items, Missed, TakenFrom, FirstTaken, FirstAt;
      InSearch(c, f, g, b, 0, blockAddr);
      AtFirst(pool.Disk, Lists[b], 0, i, addr);
      PopHere(c, f, g, b, blockAddr, i);
      IsFirstTaken(old(pool.Disk), old(Lists), pool.Disk, Lists, b, 0, i, addr);
    }

    /** The same in a block after the first one, where the blocks before have none. */
    method PopFound(c: int, g: int, h: int, b: nat, ghost k: nat, blockAddr: int, temp: int, i: nat, ghost addr: int)
      requires Inv() && b < |Bags| && k + 1 < |Lists[b]| && temp == Lists[b][k + 1]
      requires pool.Holds(c, 0) && pool.Holds(g, Lists[b][k]) && 0 <= h < pool.frames.Length && pool.Holds(h, temp)
      requires temp in pool.Disk && pool.frames[h] == pool.Disk[temp] && pool.frames[h].Bucket?
      requires i < pool.frames[h].n <= |pool.frames[h].table| == TABLE_SIZE && pool.frames[h].table[i] == addr
      requires pool.Pins == multiset{0, DirPage(b)} + multiset{blockAddr} + multiset{temp}
      requires Missed(pool.Disk, Lists[b], k, addr) && forall j :: 0 <= j < i ==> pool.frames[h].table[j] != addr
      modifies Repr()
      ensures Valid() && Bags == old(Bags)[b := old(Bags)[b] - multiset{addr}] && b < |Lists| == |old(Lists)|
      ensures FirstTaken(old(pool.Disk), old(Lists), pool.Disk, Lists, b, addr)
    {
      hide BufferPool.Valid, Mapped, PinSet, First, Items, Missed, TakenFrom, FirstTaken, FirstAt;
      AtFirst(pool.Disk, Lists[b], k + 1, i, addr);
      PopNext(c, g, h, b, k, blockAddr, temp, i);
      IsFirstTaken(old(pool.Disk), old(Lists), pool.Disk, Lists, b, k + 1, i, addr);
    }

    lemma {:induction false} Here()
      ensures forall o :: o in Repr() ==> allocated(o)
    {
    }

    lemma {:induction false} InSearch(c: int, f: int, g: int, b: nat, k: nat, blockAddr: int)
      requires Searching(c, f, g, b, k, blockAddr)
      ensures Inv() && 0 <= g < pool.frames.Length && b < |Bags| && b < |Lists| && k < |Lists[b]|
              && blockAddr == Lists[b][0]
      ensures pool.frames[g].Bucket? && 1 <= pool.frames[g].n <= |pool.frames[g].table|
      ensures Lists[b][k] in pool.Disk && pool.frames[g] == pool.Disk[Lists[b][k]]
      ensures pool.frames[g].next == -1 <==> k == |Lists[b]| - 1
    {
      hide BufferPool.Valid, Mapped, PinSet, First;
      BlockAt(b, k);
    }

    /** None of the blocks up to k has the item. */
    static ghost predicate Missed(disk: MapDisk, chain: seq<int>, k: nat, addr: int) {
      forall m :: 0 <= m <= k && m < |chain| && chain[m] in disk ==> addr !in Items(disk[chain[m]])
    }

    static lemma {:induction false} MissedHere(disk: MapDisk, chain: seq<int>, k: nat, addr: int)
      requires k < |chain| && chain[k] in disk && addr !in Items(disk[chain[k]])
      requires k > 0 ==> Missed(disk, chain, k - 1, addr)
      ensures Missed(disk, chain, k, addr)
    {
      hide Items;
    }

    /** What has been passed over and what has been found. */
    static lemma {:induction false} AtFirst(disk: MapDisk, chain: seq<int>, k: nat, i: nat, x: int)
      requires k < |chain| && chain[k] in disk && disk[chain[k]].Bucket?
               && i < disk[chain[k]].n <= |disk[chain[k]].table|
      requires disk[chain[k]].table[i] == x && forall j :: 0 <= j < i ==> disk[chain[k]].table[j] != x
      requires k > 0 ==> Missed(disk, chain, k - 1, x)
      ensures FirstAt(disk, chain, x, k, i)
    {
      forall m | 0 <= m < k
        ensures x !in TableOf(disk, chain[m])
      {
        InTable(disk, chain[m], x);
      }
    }

    static lemma {:induction false} InTable(disk: MapDisk, a: int, x: int)
      ensures x in TableOf(disk, a) <==> a in disk && x in Items(disk[a])
    {
    }

    static lemma {:induction false} IsFirstTaken(disk0: MapDisk, lists0: seq<seq<int>>, disk1: MapDisk,
                                                 lists1: seq<seq<int>>, b: nat, k: nat, i: nat, x: int)
      requires b < |lists0| && FirstAt(disk0, lists0[b], x, k, i) && TakenFrom(disk0, lists0, disk1, lists1, b, k, i)
      ensures FirstTaken(disk0, lists0, disk1, lists1, b, x)
    {
      hide TakenFrom, TableOf;
      assert x in TableOf(disk0, lists0[b][k]);
    }

    static lemma {:induction false} NoneTaken(disk: MapDisk, lists: seq<seq<int>>, b: nat, k: nat, x: int)
      requires b < |lists| && Missed(disk, lists[b], k, x) && k == |lists[b]| - 1
      ensures FirstTaken(disk, lists, disk, lists, b, x)
    {
      hide TableOf, Items;
      forall m | 0 <= m < |lists[b]|
        ensures x !in TableOf(disk, lists[b][m])
      {
        InTable(disk, lists[b][m], x);
      }
    }

    lemma {:induction false} NotThere(b: nat, k: nat, addr: int)
      requires Inv() && b < |Bags| && Missed(pool.Disk, Lists[b], k, addr) && k == |Lists[b]| - 1
      ensures addr !in Bags[b]
    {
      hide BufferPool.Valid, Bag, Items;
      Absent(pool.Disk, Lists[b], addr);
    }

    /** The bucket must not be empty: the source asks for the page at -1 then. */
    method Pop(size: int, addr: int)
      requires Valid() && 0 <= size < DIR_SIZE * dirs && Bags[size] != multiset{}
      modifies Repr()
      ensures Valid() && Bags == old(Bags)[size := old(Bags)[size] - multiset{addr}]
      ensures FirstTaken(old(pool.Disk), old(Lists), pool.Disk, Lists, size, addr)
    {
      hide BufferPool.Valid, Mapped, PinSet, First, Items, Searching, Inv, Missed, TakenFrom, FirstTaken;
      NotEmpty(size);
      var c, f, g, blockAddr := EnterBucket(size);
      InSearch(c, f, g, size, 0, blockAddr);
      var i := FindItem(pool.frames[g], addr);
      if i < pool.frames[g].n {
        PopInFirst(c, f, g, size, blockAddr, i, addr);
      } else {
        MissedHere(pool.Disk, Lists[size], 0, addr);
        PopBeyond(c, f, g, size, blockAddr, addr);
      }
    }

    /** The item is not in the first block, in frame first. */
    method PopBeyond(c: int, f: int, first: int, size: nat, blockAddr: int, addr: int)
      requires Searching(c, f, first, size, 0, blockAddr) && size < |Lists| && Missed(pool.Disk, Lists[size], 0, addr)
      modifies Repr()
      ensures Valid() && |Bags| == |old(Bags)| > size && Bags == old(Bags)[size := old(Bags)[size] - multiset{addr}]
      ensures FirstTaken(old(pool.Disk), old(Lists), pool.Disk, Lists, size, addr)
    {
      hide BufferPool.Valid, Mapped, PinSet, First, Items, Searching, Missed, Inv, TakenFrom, FirstTaken;
      var g := first;
      ghost var k := 0;
      InSearch(c, f, g, size, k, blockAddr);
      while pool.frames[g].next != -1
        invariant Lists == old(Lists) && Bags == old(Bags) && 0 <= k < |Lists[size]| && blockAddr == Lists[size][0]
        invariant 0 <= g < pool.frames.Length && pool.frames[g].Bucket?
        invariant pool.Disk == old(pool.Disk) && (pool.frames[g].next == -1 <==> k == |Lists[size]| - 1)
        invariant Searching(c, f, g, size, k, blockAddr) && Missed(pool.Disk, Lists[size], k, addr)
        decreases |Lists[size]| - k
      {
        var temp, h := NextBlock(c, f, g, size, k, blockAddr);
        var i := FindItem(pool.frames[h], addr);
        if i < pool.frames[h].n {
          PopFound(c, g, h, size, k, blockAddr, temp, i, addr);
          return;
        }
        MissedHere(pool.Disk, Lists[size], k + 1, addr);
        Step(c, f, h, size, k, blockAddr, temp);
        g, k := h, k + 1;
        InSearch(c, f, g, size, k, blockAddr);
      }
      NoneTaken(pool.Disk, Lists, size, k, addr);
      EndSearch(c, f, g, size, k, blockAddr, addr);
    }

    lemma {:induction false} NotEmpty(b: nat)
      requires Inv() && b < DIR_SIZE * dirs
      ensures b < |Bags| < |Lists| && (Bags[b] != multiset{} ==> Lists[b] != [])
    {
    }

    /** block = next_block; release(pool, temp); */
    method Step(c: int, f: int, h: int, b: nat, ghost k: nat, blockAddr: int, temp: int)
      requires Inv() && b < |Bags| && k + 1 < |Lists[b]| && temp == Lists[b][k + 1] && blockAddr == Lists[b][0]
      requires pool.Holds(c, 0) && pool.Holds(f, DirPage(b)) && 0 <= h < pool.frames.Length && pool.Holds(h, temp)
      requires temp in pool.Disk && pool.frames[h] == pool.Disk[temp] && pool.frames[h].Bucket?
      requires 1 <= pool.frames[h].n <= |pool.frames[h].table| == TABLE_SIZE
      requires pool.Pins == multiset{0, DirPage(b)} + multiset{blockAddr} + multiset{temp} && pool.lru[0] == temp
      modifies pool`Pins, pool.refs
      ensures Searching(c, f, h, b, k + 1, blockAddr)
    {
      hide BufferPool.Valid, Mapped, PinSet, First;
      pool.Release(temp);
    }

    method EndSearch(c: int, f: int, g: int, b: nat, ghost k: nat, blockAddr: int, ghost addr: int)
      requires Searching(c, f, g, b, k, blockAddr) && pool.frames[g].next == -1 && b < |Lists|
               && Missed(pool.Disk, Lists[b], k, addr)
      modifies pool`Pins, pool.refs
      ensures Valid() && Bags == Bags[b := Bags[b] - multiset{addr}]
    {
      hide BufferPool.Valid, Mapped, PinSet, First, Items;
      InSearch(c, f, g, b, k, blockAddr);
      NotThere(b, k, addr);
      assert Bags[b] - multiset{addr} == Bags[b];
      ReleaseAll(blockAddr, DirPage(b));
    }
  }
}
