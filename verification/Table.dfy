/** A table: items of up to 118 bytes in slotted pages, addressed by record identifiers. */
module Tables {
  import opened Rids
  import opened Cells
  import opened Blocks
  import opened BufferPools
  import opened HashMaps
  import MapPages

  const BUCKETS: nat := 128
  const MAX_ITEM: nat := 118

  type DataDisk = map<int, Block>

  /** The live items of all blocks. */
  ghost predicate Lives(live: map<Rid, seq<Cell>>, disk: DataDisk) {
    && (forall a :: a in disk ==> Ok(disk[a]))
    && (forall r :: r in live <==> r.addr in disk && r.idx in Items(disk[r.addr]))
    && (forall r :: r in live ==> live[r] == Items(disk[r.addr])[r.idx])
  }

  /** Every block is in the bucket of its free space, once, and nowhere else. */
  ghost predicate Filed(bags: seq<multiset<int>>, disk: DataDisk) {
    && |bags| == BUCKETS
    && (forall a :: a in disk ==> Fits(disk[a]) && 0 <= FreeSpace(disk[a]) < BUCKETS)
    && (forall s, a :: 0 <= s < BUCKETS ==> bags[s][a] == if a in disk && FreeSpace(disk[a]) == s then 1 else 0)
  }

  // ----- Where an item goes -----

  ghost predicate Takes(b: Block, size: int) {
    Ok(b) && Room(b, size)
  }

  /** No block with room has less of it than block a, which has room. */
  ghost predicate Tightest(disk: DataDisk, a: int, size: int) {
    && a in disk && Takes(disk[a], size)
    && forall x :: x in disk && Takes(disk[x], size) ==> FreeSpace(disk[a]) <= FreeSpace(disk[x])
  }

  /**
   The item is at the first free index of a tightest block or, if no block has room, the first one of a new page at
   end.
   */
  ghost predicate WellPlaced(disk0: DataDisk, end: int, disk1: DataDisk, rid: Rid, size: int) {
    if exists a :: a in disk0 && Takes(disk0[a], size) then
      && Tightest(disk0, rid.addr, size) && disk1.Keys == disk0.Keys
      && rid.idx >= 0 && forall i :: 0 <= i < rid.idx ==> i in Items(disk0[rid.addr])
    else
      rid == Rid(end, 0) && disk1.Keys == disk0.Keys + {end}
  }

  /** All buckets from size on are empty: no block has room. */
  lemma {:induction false} NoneTakes(bags: seq<multiset<int>>, disk: DataDisk, size: int)
    requires Filed(bags, disk) && 0 < size
    requires forall s :: size <= s < BUCKETS ==> bags[s] == multiset{}
    ensures forall a :: a in disk ==> !Takes(disk[a], size)
  {
    hide FreeSpace, Room, Ok;
    forall a | a in disk && Ok(disk[a])
      ensures !Room(disk[a], size)
    {
      SpaceIsRoom(disk[a], size);
      assert bags[FreeSpace(disk[a])][a] == 1;
    }
  }

  /** The first bucket from size on that is not empty has the tightest blocks. */
  lemma {:induction false} TightestTakes(bags: seq<multiset<int>>, disk: DataDisk, size: int, b: int, a: int)
    requires Filed(bags, disk) && 0 < size <= b < BUCKETS && a in bags[b] && a in disk && Ok(disk[a])
    requires forall s :: size <= s < b ==> bags[s] == multiset{}
    ensures Tightest(disk, a, size) && Fits(disk[a]) && FreeSpace(disk[a]) == b
  {
    hide FreeSpace, Room, Ok;
    assert bags[b][a] > 0;
    SpaceIsRoom(disk[a], size);
    forall x | x in disk && Takes(disk[x], size)
      ensures FreeSpace(disk[a]) <= FreeSpace(disk[x])
    {
      SpaceIsRoom(disk[x], size);
      assert bags[FreeSpace(disk[x])][x] == 1;
    }
  }

  /** Index rid.idx of its block is free now; the other items have moved up, and other blocks have not changed. */
  ghost predicate Vacated(disk0: DataDisk, disk1: DataDisk, rid: Rid) {
    && disk1.Keys == disk0.Keys && rid.addr in disk0 && disk1 == disk0[rid.addr := disk1[rid.addr]]
    && SlotClosed(disk0[rid.addr], rid.idx, disk1[rid.addr])
  }

  /** A block has come into a bucket, or back into one. */
  lemma {:induction false} FiledAgain(bags: seq<multiset<int>>, disk0: DataDisk, s0: int, disk1: DataDisk, a: int,
                                      bags1: seq<multiset<int>>)
    requires |bags| == BUCKETS && disk1.Keys == disk0.Keys + {a} && a in disk1
    requires forall x :: x in disk0 && x != a ==> disk1[x] == disk0[x]
    requires (a in disk0 && 0 <= s0 < BUCKETS && Filed(bags[s0 := bags[s0] + multiset{a}], disk0) && a in disk0
              && FreeSpace(disk0[a]) == s0)
          || (a !in disk0 && Filed(bags, disk0))
    requires Fits(disk1[a]) && 0 <= FreeSpace(disk1[a]) < BUCKETS
    requires bags1 == bags[FreeSpace(disk1[a]) := bags[FreeSpace(disk1[a])] + multiset{a}]
    ensures Filed(bags1, disk1)
  {
    hide FreeSpace;
    var s1 := FreeSpace(disk1[a]);
    forall s, x | 0 <= s < BUCKETS
      ensures bags1[s][x] == if x in disk1 && FreeSpace(disk1[x]) == s then 1 else 0
    {
      if a in disk0 {
        var was := bags[s0 := bags[s0] + multiset{a}];
        assert was[s][x] == if x in disk0 && FreeSpace(disk0[x]) == s then 1 else 0;
        assert was[s][x] == bags[s][x] + (if s == s0 && x == a then 1 else 0);
      } else {
        assert bags[s][x] == if x in disk0 && FreeSpace(disk0[x]) == s then 1 else 0;
      }
      assert bags1[s][x] == bags[s][x] + (if s == s1 && x == a then 1 else 0);
    }
  }

  /** The blocks stay as they are except for one, in which one item comes or goes. */
  lemma {:induction false} LivesAgain(live0: map<Rid, seq<Cell>>, disk0: DataDisk, live1: map<Rid, seq<Cell>>,
                                      disk1: DataDisk, a: int)
    requires Lives(live0, disk0) && disk1.Keys == disk0.Keys + {a} && a in disk1 && Ok(disk1[a])
    requires forall x :: x in disk0 && x != a ==> disk1[x] == disk0[x]
    requires forall r: Rid :: r.addr != a ==> (r in live1 <==> r in live0) && (r in live1 ==> live1[r] == live0[r])
    requires forall r: Rid :: r.addr == a ==> (r in live1 <==> r.idx in Items(disk1[a])) && (r in live1 ==>
               live1[r] == Items(disk1[a])[r.idx])
    ensures Lives(live1, disk1)
  {
    hide Ok, Items;
  }

  class Table {
    const data: BufferPool<Block>
    const fsm: HashMap
    ghost var Live: map<Rid, seq<Cell>>

    ghost function Repr(): set<object> {
      {this} + data.Repr() + fsm.Repr()
    }

    ghost predicate Shape() {
      && data.Shape() && fsm.Shape() && fsm.dirs == 8
      && data.Repr() !! fsm.Repr() && this !in data.Repr() && this !in fsm.Repr()
    }

    ghost predicate Valid()
      reads Repr()
    {
      && Shape() && data.Valid() && data.Pins == multiset{} && fsm.Valid()
      && Lives(Live, data.Disk)
      && |fsm.Bags| == BUCKETS && Filed(fsm.Bags, data.Disk)
    }

    /** table_init on empty files. */
    constructor ()
      ensures Shape() && Valid() && fresh(Repr()) && Live == map[] && this in Repr()
    {
      hide BufferPool.Valid, HashMap.Valid, Valid;
      var d := new BufferPool(File(map[], 0), EMPTY_BLOCK);
      assert forall o :: o in d.Repr() ==> allocated(o);
      var f := new HashMap(PAGE_SIZE / MapPages.DIR_SIZE);
      data, fsm := d, f;
      Live := map[];
      new;
      Empty();
    }

    lemma {:induction false} Empty()
      requires Shape() && data.Valid() && data.Pins == multiset{} && data.Disk == map[] && fsm.Valid() && Live == map[]
      requires fsm.Bags == seq(MapPages.DIR_SIZE * 8, _ => multiset{})
      ensures Valid()
    {
      hide BufferPool.Valid, HashMap.Valid;
    }

    lemma {:induction false} Here()
      ensures forall o :: o in Repr() ==> allocated(o)
    {
    }

    // ----- table_read -----

    method Read(rid: Rid) returns (dest: seq<Cell>)
      requires Valid() && rid in Live
      modifies Repr()
      ensures Valid() && Live == old(Live) && dest == Live[rid] && data.Disk == old(data.Disk)
    {
      hide BufferPool.Valid, HashMap.Valid, Filed, Ok, Items, Lives;
      Placed(rid);
      var f := data.GetPage(rid.addr);
      dest := CopyItem(data.frames[f], rid.idx);
      data.Release(rid.addr);
      assert data.Pins == multiset{};
    }

    /** Where a live item is. */
    lemma {:induction false} Placed(rid: Rid)
      requires Valid() && rid in Live
      ensures rid.addr in data.Disk && Ok(data.Disk[rid.addr]) && rid.idx in Items(data.Disk[rid.addr])
      ensures Live[rid] == Items(data.Disk[rid.addr])[rid.idx] && rid.addr >= 0
      ensures |PinSet(data.Pins) + {rid.addr}| <= CACHE_PAGE
    {
      hide BufferPool.Valid, HashMap.Valid, Filed, Ok, Items;
      data.Addresses();
      assert PinSet(data.Pins) + {rid.addr} == {rid.addr};
    }

    // ----- table_insert -----

    method Insert(src: seq<Cell>) returns (rid: Rid)
      requires Valid() && 0 < |src| <= MAX_ITEM
      modifies Repr()
      ensures Valid() && rid !in old(Live) && Live == old(Live)[rid := src] && rid.addr >= 0
      ensures WellPlaced(old(data.Disk), old(data.file.length), data.Disk, rid, |src|)
      ensures Fronted(old(data.Disk), old(fsm.pool.Disk), old(fsm.Lists), rid.addr)
    {
      hide BufferPool.Valid, HashMap.Valid, Ok, Items, Lives, Filed, Tightest, Takes, MapPages.Foremost,
           MapPages.TakenFrom, FreeSpace;
      var a;
      ghost var b;
      a, b := fsm.PopLowerBound(|src|);
      if a == -1 {
        NoneTakes(fsm.Bags, data.Disk, |src|);
        NewAddr();
        rid := InsertIntoNew(src);
      } else {
        PutBack(old(fsm.Bags), b, a);
        InBucket(a, b);
        TightestTakes(old(fsm.Bags), data.Disk, |src|, b, a);
        IsTaken(data.Disk, a, |src|);
        rid := InsertInto(a, src, b);
      }
    }

    /** Of the blocks with the same free space, it is the one that the free-space map has in front. */
    static ghost predicate Fronted(disk: DataDisk, pages: MapPages.MapDisk, lists: seq<seq<int>>, a: int) {
      a in disk ==> Fits(disk[a]) && MapPages.Foremost(pages, lists, FreeSpace(disk[a]), a)
    }

    static lemma {:induction false} IsTaken(disk: DataDisk, a: int, size: int)
      requires Tightest(disk, a, size)
      ensures exists x :: x in disk && Takes(disk[x], size)
    {
    }

    static lemma {:induction false} PutBack(bags: seq<multiset<int>>, b: int, a: int)
      requires 0 <= b < |bags| && a in bags[b]
      ensures var out := bags[b := bags[b] - multiset{a}]; out[b := out[b] + multiset{a}] == bags
    {
      assert bags[b] - multiset{a} + multiset{a} == bags[b];
    }

    /** No block has enough space: a new one. */
    method InsertIntoNew(src: seq<Cell>) returns (rid: Rid)
      requires Valid() && 0 < |src| <= MAX_ITEM
      modifies Repr()
      ensures Valid() && rid !in old(Live) && Live == old(Live)[rid := src] && rid.addr >= 0
      ensures rid == Rid(old(data.file.length), 0) && data.Disk.Keys == old(data.Disk).Keys + {rid.addr}
    {
      hide BufferPool.Valid, HashMap.Valid, Ok, Items, Lives, Filed, FreeSpace, MapPages.PutIn, MapPages.FirstTaken;
      var block, idx, space := FirstItem(src);
      NewAddr();
      ghost var a, bags := data.file.length, fsm.Bags;
      rid := Rid(data.file.length, idx);
      fsm.Insert(space, data.file.length);
      data.Append(block);
      FiledAgain(bags, old(data.Disk), 0, data.Disk, a, fsm.Bags);
      Live := Live[rid := src];
      Came(old(Live), old(data.Disk), src, a, idx);
    }

    static method FirstItem(src: seq<Cell>) returns (block: Block, idx: int, space: int)
      requires 0 < |src| <= MAX_ITEM
      ensures Ok(block) && Fits(block) && Items(block) == map[idx := src] && idx == 0
      ensures space == FreeSpace(block) && 0 <= space <= MAX_ITEM
    {
      hide Ok, Items, FreeSpace;
      block := InitBlock(EMPTY_BLOCK);
      block, idx := NewItem(block, src);
      FreeSpaceBound(block);
      space := ComputeFreeSpace(block);
    }

    lemma {:induction false} NewAddr()
      requires Valid()
      ensures data.file.length !in data.Disk && data.file.length >= 0
    {
      hide BufferPool.Valid, HashMap.Valid, Filed;
      data.Addresses();
      Length();
    }

    lemma {:induction false} Length()
      requires data.Valid()
      ensures data.file.length >= 0
    {
    }

    /** Item src has come in as item idx of block a. */
    lemma {:induction false} Came(live0: map<Rid, seq<Cell>>, disk0: DataDisk, src: seq<Cell>, a: int, idx: int)
      requires Lives(live0, disk0) && data.Disk.Keys == disk0.Keys + {a} && a in data.Disk && Ok(data.Disk[a])
      requires forall x :: x in disk0 && x != a ==> data.Disk[x] == disk0[x]
      requires if a in disk0 then Ok(disk0[a]) && idx !in Items(disk0[a])
               && Items(data.Disk[a]) == Items(disk0[a])[idx := src]
               else Items(data.Disk[a]) == map[idx := src]
      requires Live == live0[Rid(a, idx) := src]
      ensures Lives(Live, data.Disk) && Rid(a, idx) !in live0
    {
      hide Ok, Items;
      LivesAgain(live0, disk0, Live, data.Disk, a);
    }

    /** Block a, which has been taken out of its bucket b, has enough space. */
    method InsertInto(a: int, src: seq<Cell>, ghost b: int) returns (rid: Rid)
      requires Shape() && data.Valid() && data.Pins == multiset{} && fsm.Valid() && Lives(Live, data.Disk)
      requires |fsm.Bags| == BUCKETS && 0 <= b < BUCKETS && Filed(fsm.Bags[b := fsm.Bags[b] + multiset{a}], data.Disk)
      requires 0 < |src| <= b
      modifies Repr()
      ensures Valid() && rid !in old(Live) && Live == old(Live)[rid := src] && rid.addr >= 0
      ensures rid.addr == a && a in old(data.Disk) && data.Disk.Keys == old(data.Disk).Keys && Ok(old(data.Disk)[a])
      ensures 0 <= rid.idx && forall i :: 0 <= i < rid.idx ==> i in Items(old(data.Disk)[a])
    {
      hide BufferPool.Valid, HashMap.Valid, Ok, Items, Lives, Filed, FreeSpace;
      InBucket(a, b);
      var idx, space := PutItem(a, src);
      rid := Rid(a, idx);
      Refile(a, space, old(data.Disk), b);
      Live := Live[rid := src];
      Came(old(Live), old(data.Disk), src, a, idx);
    }

    /** new_item on the block at a, which is pinned from now on. */
    method PutItem(a: int, src: seq<Cell>) returns (idx: int, space: int)
      requires data.Shape() && data.Valid() && data.Pins == multiset{} && a in data.Disk
               && |PinSet(data.Pins) + {a}| <= CACHE_PAGE
      requires Ok(data.Disk[a]) && 0 < |src| <= FreeSpace(data.Disk[a])
      modifies data.Repr()
      ensures data.Valid() && data.Pins == multiset{a} && data.Disk == old(data.Disk)[a := data.Disk[a]]
              && a in data.Disk
      ensures Ok(data.Disk[a]) && idx !in Items(old(data.Disk)[a])
              && Items(data.Disk[a]) == Items(old(data.Disk)[a])[idx := src]
      ensures Fits(data.Disk[a]) && space == FreeSpace(data.Disk[a]) && 0 <= space <= MAX_ITEM
      ensures 0 <= idx && forall i :: 0 <= i < idx ==> i in Items(old(data.Disk)[a])
    {
      hide BufferPool.Valid, Ok, Items, FreeSpace;
      var f := data.GetPage(a);
      var block;
      block, idx := NewItem(data.frames[f], src);
      data.Store(f, block);
      FreeSpaceBound(block);
      space := ComputeFreeSpace(data.frames[f]);
    }

    lemma {:induction false} InBucket(a: int, b: int)
      requires Shape() && data.Valid() && data.Pins == multiset{} && Lives(Live, data.Disk)
      requires |fsm.Bags| == BUCKETS && 0 <= b < BUCKETS && Filed(fsm.Bags[b := fsm.Bags[b] + multiset{a}], data.Disk)
      ensures a in data.Disk && Ok(data.Disk[a]) && Fits(data.Disk[a]) && FreeSpace(data.Disk[a]) == b && a >= 0
      ensures |PinSet(data.Pins) + {a}| <= CACHE_PAGE
    {
      hide BufferPool.Valid, Ok, Items, FreeSpace;
      data.Addresses();
      assert fsm.Bags[b := fsm.Bags[b] + multiset{a}][b][a] > 0;
      assert PinSet(data.Pins) + {a} == {a};
    }

    // ----- table_delete -----

    method Delete(rid: Rid)
      requires Valid() && rid in Live
      modifies Repr()
      ensures Valid() && Live == old(Live) - {rid}
      ensures Vacated(old(data.Disk), data.Disk, rid)
    {
      hide BufferPool.Valid, HashMap.Valid, Ok, Items, Lives, Filed, FreeSpace, SlotClosed, MapPages.PutIn,
           MapPages.FirstTaken;
      Placed(rid);
      var a := rid.addr;
      var f := Withdraw(a);
      ghost var space := FreeSpace(data.Disk[a]);
      var space1 := DropItem(f, a, rid.idx);
      Refile(a, space1, old(data.Disk), space);
      Live := Live - {rid};
      Went(old(Live), old(data.Disk), rid);
    }

    /** Block a, which has changed and is in no bucket, goes into that of its free space, and is released. */
    method Refile(a: int, space: int, ghost disk0: DataDisk, ghost space0: int)
      requires Shape() && data.Valid() && data.Pins == multiset{a} && fsm.Valid() && |fsm.Bags| == BUCKETS
      requires a in disk0 && a >= 0 && a in data.Disk && data.Disk == disk0[a := data.Disk[a]]
      requires 0 <= space0 < BUCKETS && Filed(fsm.Bags[space0 := fsm.Bags[space0] + multiset{a}], disk0)
      requires Fits(disk0[a]) && space0 == FreeSpace(disk0[a])
      requires Fits(data.Disk[a]) && space == FreeSpace(data.Disk[a]) && 0 <= space <= MAX_ITEM
      modifies data`Pins, data.refs, fsm.Repr()
      ensures data.Valid() && data.Pins == multiset{} && fsm.Valid() && |fsm.Bags| == BUCKETS
              && Filed(fsm.Bags, data.Disk)
    {
      hide BufferPool.Valid, HashMap.Valid, Filed, FreeSpace, MapPages.PutIn, MapPages.FirstTaken;
      fsm.Insert(space, a);
      data.Release(a);
      FiledAgain(old(fsm.Bags), disk0, space0, data.Disk, a, fsm.Bags);
      assert data.Pins == multiset{};
    }

    /** get_page, and the block is taken out of its bucket. */
    method Withdraw(a: int) returns (f: int)
      requires Valid() && a in data.Disk && Ok(data.Disk[a]) && |PinSet(data.Pins) + {a}| <= CACHE_PAGE
      modifies data.Repr(), fsm.Repr()
      ensures data.Valid() && data.Pins == multiset{a} && data.Disk == old(data.Disk) && fsm.Valid()
      ensures 0 <= f < CACHE_PAGE && data.Holds(f, a) && data.frames[f] == data.Disk[a]
      ensures Fits(data.Disk[a]) && 0 <= FreeSpace(data.Disk[a]) < BUCKETS == |fsm.Bags|
      ensures var s := FreeSpace(data.Disk[a]); Filed(fsm.Bags[s := fsm.Bags[s] + multiset{a}], data.Disk)
    {
      hide BufferPool.Valid, HashMap.Valid, Ok, Items, Lives, Filed, FreeSpace, MapPages.PutIn, MapPages.FirstTaken;
      FreeSpaceBound(data.Disk[a]);
      IsFiled(a);
      f := data.GetPage(a);
      var space := ComputeFreeSpace(data.frames[f]);
      fsm.Pop(space, a);
      PutBack(old(fsm.Bags), space, a);
    }

    lemma {:induction false} IsFiled(a: int)
      requires Valid() && a in data.Disk && Fits(data.Disk[a]) && 0 <= FreeSpace(data.Disk[a]) <= MAX_ITEM
      ensures a in fsm.Bags[FreeSpace(data.Disk[a])]
    {
      hide BufferPool.Valid, HashMap.Valid, Ok, Items, Lives, FreeSpace;
      assert fsm.Bags[FreeSpace(data.Disk[a])][a] == 1;
    }

    /** delete_item on the block at a, which is pinned in frame f. */
    method DropItem(f: int, a: int, idx: int) returns (space: int)
      requires data.Shape() && data.Valid() && data.Pins == multiset{a} && a in data.Disk && data.Holds(f, a)
      requires 0 <= f < CACHE_PAGE && data.frames[f] == data.Disk[a] && Ok(data.Disk[a]) && idx in Items(data.Disk[a])
      modifies data.Repr()
      ensures data.Valid() && data.Pins == multiset{a} && data.Disk == old(data.Disk)[a := data.Disk[a]]
              && a in data.Disk
      ensures Ok(data.Disk[a]) && Items(data.Disk[a]) == Items(old(data.Disk)[a]) - {idx}
      ensures Fits(data.Disk[a]) && space == FreeSpace(data.Disk[a]) && 0 <= space <= MAX_ITEM
      ensures SlotClosed(old(data.Disk)[a], idx, data.Disk[a])
    {
      hide BufferPool.Valid, Ok, Items, FreeSpace, SlotClosed;
      var block := DeleteItem(data.frames[f], idx);
      data.Store(f, block);
      FreeSpaceBound(block);
      space := ComputeFreeSpace(data.frames[f]);
    }

    lemma {:induction false} Went(live0: map<Rid, seq<Cell>>, disk0: DataDisk, rid: Rid)
      requires Lives(live0, disk0) && data.Disk.Keys == disk0.Keys && rid in live0 && rid.addr in disk0
      requires Ok(data.Disk[rid.addr]) && Ok(disk0[rid.addr])
               && Items(data.Disk[rid.addr]) == Items(disk0[rid.addr]) - {rid.idx}
      requires forall x :: x in disk0 && x != rid.addr ==> data.Disk[x] == disk0[x]
      requires Live == live0 - {rid}
      ensures Lives(Live, data.Disk)
    {
      hide Ok, Items;
      LivesAgain(live0, disk0, Live, data.Disk, rid.addr);
    }
  }
}
