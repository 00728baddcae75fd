/** The pages of the free-space map: a directory of buckets, each a chain of blocks, and a list of free blocks. */
module MapPages {
  import opened Seqs
  import BufferPools

  const DIR_SIZE: nat := 16
  const TABLE_SIZE: nat := 14

  datatype MapPage =
    | MapCtrl(freeHead: int, nDirs: int, maxSize: int)
    | Dir(directory: seq<int>)
    | Bucket(next: int, n: int, table: seq<int>)

  type MapDisk = map<int, MapPage>

  /** The address of the i-th directory page. */
  function DirAt(i: nat): int {
    BufferPools.PAGE_SIZE * (i + 1)
  }

  function DirPage(b: nat): int {
    DirAt(b / DIR_SIZE)
  }

  /** The control page and the directory. */
  ghost function Reserved(dirs: nat): set<int> {
    {0} + set i: nat | i < dirs :: DirAt(i)
  }

  ghost predicate Layout(disk: MapDisk, dirs: nat) {
    && Reserved(dirs) <= disk.Keys && 0 in disk
    && disk[0].MapCtrl? && disk[0].nDirs == dirs && disk[0].maxSize == DIR_SIZE * dirs
    && (forall b: nat :: b < DIR_SIZE * dirs ==>
          DirPage(b) in disk && disk[DirPage(b)].Dir? && |disk[DirPage(b)].directory| == DIR_SIZE)
  }

  /** The first block of bucket b. */
  ghost function Slot(disk: MapDisk, dirs: nat, b: nat): int
    requires Layout(disk, dirs) && b < DIR_SIZE * dirs
  {
    disk[DirPage(b)].directory[b % DIR_SIZE]
  }

  ghost function First(chain: seq<int>): int {
    if chain == [] then -1 else chain[0]
  }

  ghost predicate IsBlock(disk: MapDisk, a: int) {
    a in disk && disk[a].Bucket? && |disk[a].table| == TABLE_SIZE
  }

  ghost predicate Linked(disk: MapDisk, chain: seq<int>) {
    forall k :: 0 <= k < |chain| ==> IsBlock(disk, chain[k]) && disk[chain[k]].next == First(chain[k + 1..])
  }

  /** The blocks of a bucket are never empty. */
  ghost predicate Filled(disk: MapDisk, chain: seq<int>) {
    forall k :: 0 <= k < |chain| ==> IsBlock(disk, chain[k]) && 1 <= disk[chain[k]].n <= TABLE_SIZE
  }

  /** The items in a page. */
  ghost function Items(p: MapPage): multiset<int> {
    if p.Bucket? && 0 <= p.n <= |p.table| then multiset(p.table[..p.n]) else multiset{}
  }

  ghost function Bag(disk: MapDisk, chain: seq<int>): multiset<int> {
    if chain == [] then multiset{}
    else (if chain[0] in disk then Items(disk[chain[0]]) else multiset{}) + Bag(disk, chain[1..])
  }

  lemma {:induction false} BagAppend(disk: MapDisk, a: seq<int>, b: seq<int>)
    ensures Bag(disk, a + b) == Bag(disk, a) + Bag(disk, b)
  {
    if a == [] {
      assert a + b == b;
    } else {
      BagAppend(disk, a[1..], b);
      assert (a + b)[1..] == a[1..] + b;
    }
  }

  lemma {:induction false} BagOne(disk: MapDisk, a: int)
    requires a in disk
    ensures Bag(disk, [a]) == Items(disk[a])
  {
    assert [a][1..] == [];
  }

  /** A bucket seen around its block k. */
  lemma {:induction false} BagAround(disk: MapDisk, chain: seq<int>, k: nat)
    requires k < |chain| && chain[k] in disk
    ensures Bag(disk, chain) == Bag(disk, chain[..k]) + Items(disk[chain[k]]) + Bag(disk, chain[k + 1..])
  {
    assert chain == chain[..k] + ([chain[k]] + chain[k + 1..]);
    BagAppend(disk, chain[..k], [chain[k]] + chain[k + 1..]);
    BagAppend(disk, [chain[k]], chain[k + 1..]);
    BagOne(disk, chain[k]);
  }

  ghost predicate SamePages(disk0: MapDisk, disk1: MapDisk, chain: seq<int>) {
    forall a :: a in chain ==> a in disk0 && a in disk1 && disk1[a] == disk0[a]
  }

  lemma {:induction false} BagFrame(disk0: MapDisk, disk1: MapDisk, chain: seq<int>)
    requires SamePages(disk0, disk1, chain)
    ensures Bag(disk1, chain) == Bag(disk0, chain)
  {
    if chain != [] {
      var a := chain[0];
      assert a in chain;
      assert a in disk0 && a in disk1 && disk1[a] == disk0[a];
      forall x | x in chain[1..]
        ensures x in disk0 && x in disk1 && disk1[x] == disk0[x]
      {
        assert x in chain;
      }
      BagFrame(disk0, disk1, chain[1..]);
    }
  }

  lemma {:induction false} ChainFrame(disk0: MapDisk, disk1: MapDisk, chain: seq<int>)
    requires SamePages(disk0, disk1, chain)
    ensures Linked(disk0, chain) ==> Linked(disk1, chain)
    ensures Filled(disk0, chain) ==> Filled(disk1, chain)
    ensures Bag(disk1, chain) == Bag(disk0, chain)
  {
    BagFrame(disk0, disk1, chain);
    assert forall k :: 0 <= k < |chain| ==> chain[k] in chain;
  }

  /** The blocks that following next for at most n steps leads to. */
  ghost function Walk(disk: MapDisk, a: int, n: nat): seq<int>
    decreases n
  {
    if n == 0 || a !in disk || !disk[a].Bucket? then [] else [a] + Walk(disk, disk[a].next, n - 1)
  }

  /** A walk along a linked chain ends, and has then seen the whole chain. */
  lemma {:induction false} Walked(disk: MapDisk, chain: seq<int>, n: nat)
    requires Linked(disk, chain) && -1 !in disk && n >= |chain|
    ensures Walk(disk, First(chain), n) == chain
  {
    if chain != [] {
      var rest := chain[1..];
      forall k | 0 <= k < |rest|
        ensures IsBlock(disk, rest[k]) && disk[rest[k]].next == First(rest[k + 1..])
      {
        assert rest[k] == chain[k + 1] && rest[k + 1..] == chain[k + 2..];
      }
      Walked(disk, rest, n - 1);
    }
  }

  lemma {:induction false} BlockSizes(disk: MapDisk, chain: seq<int>)
    requires Filled(disk, chain)
    ensures forall a :: a in chain ==> a in disk && 1 <= |Items(disk[a])| <= TABLE_SIZE
  {
  }

  lemma {:induction false} OneOf(s: seq<int>, a: int)
    requires a in s && forall k, l :: 0 <= k < l < |s| ==> s[k] != s[l]
    ensures multiset(s)[a] == 1
  {
    var k :| 0 <= k < |s| && s[k] == a;
    assert s == s[..k] + [a] + s[k + 1..];
    assert a !in s[..k] && a !in s[k + 1..];
  }

  // ----- Which list a block is on -----

  /** Every page is on exactly one of the lists, once, and owner tells on which. */
  ghost predicate Owned(lists: seq<seq<int>>, owner: map<int, nat>, pages: set<int>) {
    && owner.Keys == pages
    && (forall a :: a in pages ==> owner[a] < |lists| && a in lists[owner[a]])
    && (forall b, k :: 0 <= b < |lists| && 0 <= k < |lists[b]| ==> lists[b][k] in pages && owner[lists[b][k]] == b)
    && (forall b, k, l :: 0 <= b < |lists| && 0 <= k < l < |lists[b]| ==> lists[b][k] != lists[b][l])
  }

  /** The pages are a map with the given contents; the last list is that of the free blocks. */
  ghost predicate Mapped(disk: MapDisk, dirs: nat, lists: seq<seq<int>>, bags: seq<multiset<int>>,
                         owner: map<int, nat>) {
    && Layout(disk, dirs)
    && |bags| == DIR_SIZE * dirs && |lists| == |bags| + 1
    && disk[0].freeHead == First(lists[|bags|])
    && (forall b :: 0 <= b < |bags| ==> Slot(disk, dirs, b) == First(lists[b]))
    && (forall b :: 0 <= b < |lists| ==> Linked(disk, lists[b]))
    && (forall b :: 0 <= b < |bags| ==> Filled(disk, lists[b]) && Bag(disk, lists[b]) == bags[b])
    && Owned(lists, owner, disk.Keys - Reserved(dirs))
  }

  lemma {:induction false} ReservedStep(i: nat)
    ensures Reserved(0) == {0}
    ensures Reserved(i + 1) == Reserved(i) + {DirAt(i)}
  {
  }

  lemma {:induction false} ReservedPages(dirs: nat, b: nat)
    requires b < DIR_SIZE * dirs
    ensures 0 in Reserved(dirs) && DirPage(b) in Reserved(dirs) && DirPage(b) > 0
  {
    assert 0 <= b / DIR_SIZE < dirs;
  }

  /** Buckets share a directory page exactly when they are in the same group of sixteen. */
  lemma {:induction false} DirPages(b: nat, c: nat)
    ensures DirPage(b) == DirPage(c) && b % DIR_SIZE == c % DIR_SIZE ==> b == c
  {
  }

  ghost predicate Differ(disk0: MapDisk, disk1: MapDisk, changed: set<int>) {
    forall a :: a in disk0 ==> a in disk1 && (a in changed || disk1[a] == disk0[a])
  }

  /** The lists that do not own a changed page are as they were. */
  lemma {:induction false} ListStays(disk0: MapDisk, disk1: MapDisk, lists: seq<seq<int>>, owner: map<int, nat>,
                                     pages: set<int>, changed: set<int>, c: nat)
    requires Owned(lists, owner, pages) && pages <= disk0.Keys && c < |lists| && Differ(disk0, disk1, changed)
    requires forall a :: a in changed && a in pages ==> owner[a] != c
    ensures SamePages(disk0, disk1, lists[c])
    ensures Linked(disk0, lists[c]) ==> Linked(disk1, lists[c])
    ensures Filled(disk0, lists[c]) ==> Filled(disk1, lists[c])
    ensures Bag(disk1, lists[c]) == Bag(disk0, lists[c])
  {
    forall a | a in lists[c]
      ensures a in disk0 && a in disk1 && disk1[a] == disk0[a]
    {
      var k :| 0 <= k < |lists[c]| && lists[c][k] == a;
    }
    ChainFrame(disk0, disk1, lists[c]);
  }

  /** The items of one block have changed. */
  lemma {:induction false} Changed(disk0: MapDisk, disk1: MapDisk, dirs: nat, lists: seq<seq<int>>,
                                   bags: seq<multiset<int>>, owner: map<int, nat>, b: nat, k: nat, p: MapPage)
    requires Mapped(disk0, dirs, lists, bags, owner) && b < |bags| && k < |lists[b]|
    requires lists[b][k] in disk0 && disk0[lists[b][k]].Bucket? && p.Bucket?
    requires disk1 == disk0[lists[b][k] := p]
    requires |p.table| == TABLE_SIZE && p.next == disk0[lists[b][k]].next && 1 <= p.n <= TABLE_SIZE
    ensures Mapped(disk1, dirs, lists, bags[b := bags[b] - Items(disk0[lists[b][k]]) + Items(p)], owner)
  {
    hide Bag, Items;
    var a, pages := lists[b][k], disk0.Keys - Reserved(dirs);
    var bags' := bags[b := bags[b] - Items(disk0[a]) + Items(p)];
    assert a in pages && owner[a] == b;
    assert disk1.Keys == disk0.Keys;
    StillLaidOut(disk0, disk1, dirs, a);
    forall c | 0 <= c < |lists| && c != b
      ensures Linked(disk1, lists[c]) && Bag(disk1, lists[c]) == Bag(disk0, lists[c])
      ensures c < |bags| ==> Filled(disk1, lists[c])
    {
      ListStays(disk0, disk1, lists, owner, pages, {a}, c);
    }
    BagChanged(disk0, disk1, lists[b], k, p);
  }

  lemma {:induction false} StillLaidOut(disk0: MapDisk, disk1: MapDisk, dirs: nat, a: int)
    requires Layout(disk0, dirs) && a !in Reserved(dirs) && a in disk0 && a in disk1 && disk1 == disk0[a := disk1[a]]
    ensures Layout(disk1, dirs) && disk1[0] == disk0[0]
    ensures forall b: nat :: b < DIR_SIZE * dirs ==> Slot(disk1, dirs, b) == Slot(disk0, dirs, b)
  {
    forall b: nat | b < DIR_SIZE * dirs
      ensures DirPage(b) in disk1 && disk1[DirPage(b)] == disk0[DirPage(b)]
    {
      ReservedPages(dirs, b);
    }
  }

  lemma {:induction false} BagChanged(disk0: MapDisk, disk1: MapDisk, chain: seq<int>, k: nat, p: MapPage)
    requires k < |chain| && chain[k] in disk0 && disk1 == disk0[chain[k] := p]
    requires Linked(disk0, chain) && Filled(disk0, chain)
    requires forall i, j :: 0 <= i < j < |chain| ==> chain[i] != chain[j]
    requires p.Bucket? && |p.table| == TABLE_SIZE && p.next == disk0[chain[k]].next && 1 <= p.n <= TABLE_SIZE
    ensures Linked(disk1, chain) && Filled(disk1, chain)
    ensures Bag(disk1, chain) == Bag(disk0, chain) - Items(disk0[chain[k]]) + Items(p)
  {
    hide Bag, Items;
    BagAround(disk0, chain, k);
    BagAround(disk1, chain, k);
    BagFrame(disk0, disk1, chain[..k]);
    BagFrame(disk0, disk1, chain[k + 1..]);
  }

  // ----- A bucket gets another block -----

  /** Appending a page: the last block, or else the directory, points to it. */
  ghost function Attached(disk: MapDisk, dirs: nat, b: nat, chain: seq<int>, a: int): MapDisk
    requires Layout(disk, dirs) && b < DIR_SIZE * dirs && (chain != [] ==> IsBlock(disk, chain[|chain| - 1]))
  {
    if chain == [] then
      var d := disk[DirPage(b)];
      disk[DirPage(b) := d.(directory := d.directory[b % DIR_SIZE := a])]
    else
      disk[chain[|chain| - 1] := disk[chain[|chain| - 1]].(next := a)]
  }

  /** Page a, a new one or the first free one, becomes the last block of bucket b, with content p. */
  ghost predicate Attaching(disk0: MapDisk, disk1: MapDisk, dirs: nat, lists: seq<seq<int>>, bags: seq<multiset<int>>,
                            owner: map<int, nat>, b: nat, a: int, p: MapPage, free: seq<int>) {
    && Mapped(disk0, dirs, lists, bags, owner) && b < |bags|
    && (if a in disk0 then lists[|bags|] == [a] + free else free == lists[|bags|])
    && a !in Reserved(dirs)
    && p.Bucket? && |p.table| == TABLE_SIZE && p.next == -1 && p.n == 1
    && (lists[b] != [] ==> IsBlock(disk0, lists[b][|lists[b]| - 1]))
    && disk1 == Attached(disk0, dirs, b, lists[b], a)[0 := disk0[0].(freeHead := First(free))][a := p]
  }

  lemma {:induction false} Extended(disk0: MapDisk, disk1: MapDisk, dirs: nat, lists: seq<seq<int>>,
                                    bags: seq<multiset<int>>, owner: map<int, nat>, b: nat, a: int, p: MapPage,
                                    free: seq<int>)
    requires Attaching(disk0, disk1, dirs, lists, bags, owner, b, a, p, free)
    ensures Mapped(disk1, dirs, lists[b := lists[b] + [a]][|bags| := free], bags[b := bags[b] + Items(p)],
                   owner[a := b])
  {
    hide Bag, Items, Owned, Layout, Linked, Filled, Slot;
    var pages, n := disk0.Keys - Reserved(dirs), |bags|;
    var lists', owner', bags' := lists[b := lists[b] + [a]][n := free], owner[a := b], bags[b := bags[b] + Items(p)];
    OwnedExtended(lists, owner, pages, b, a, free);
    LaidOutExtended(disk0, disk1, dirs, lists, bags, owner, b, a, p, free);
    forall c | 0 <= c < n
      ensures Linked(disk1, lists'[c]) && Filled(disk1, lists'[c]) && Bag(disk1, lists'[c]) == bags'[c]
    {
      if c == b {
        ChainExtended(disk0, disk1, dirs, lists, bags, owner, b, a, p, free);
      } else {
        OtherExtended(disk0, disk1, dirs, lists, bags, owner, b, a, p, free, c);
      }
    }
    FreeExtended(disk0, disk1, dirs, lists, bags, owner, b, a, p, free);
  }

  lemma {:induction false} LaidOutExtended(disk0: MapDisk, disk1: MapDisk, dirs: nat, lists: seq<seq<int>>,
                                           bags: seq<multiset<int>>, owner: map<int, nat>, b: nat, a: int, p: MapPage,
                                           free: seq<int>)
    requires Attaching(disk0, disk1, dirs, lists, bags, owner, b, a, p, free)
    ensures Layout(disk1, dirs) && disk1[0].freeHead == First(free)
    ensures forall c: nat :: c < |bags| ==> Slot(disk1, dirs, c) == First(if c == b then lists[b] + [a] else lists[c])
    ensures disk1.Keys - Reserved(dirs) == disk0.Keys - Reserved(dirs) + {a}
  {
    hide Bag, Items, Linked, Filled;
    ReservedPages(dirs, b);
    NotReserved(lists, owner, disk0.Keys, dirs, b);
    forall c: nat | c < |bags|
      ensures DirPage(c) in disk1 && disk1[DirPage(c)].Dir? && |disk1[DirPage(c)].directory| == DIR_SIZE
      ensures disk1[DirPage(c)].directory[c % DIR_SIZE] == First(if c == b then lists[b] + [a] else lists[c])
    {
      ReservedPages(dirs, c);
      DirPages(b, c);
      assert Slot(disk0, dirs, c) == First(lists[c]);
    }
  }

  lemma {:induction false} NotReserved(lists: seq<seq<int>>, owner: map<int, nat>, all: set<int>, dirs: nat, b: nat)
    requires Owned(lists, owner, all - Reserved(dirs)) && b < |lists|
    ensures forall k :: 0 <= k < |lists[b]| ==> lists[b][k] !in Reserved(dirs)
  {
  }

  /** The pages that have changed: that of the directory, the last block, the new one and the control page. */
  lemma {:induction false} ChangedByAttach(disk0: MapDisk, disk1: MapDisk, dirs: nat, lists: seq<seq<int>>,
                                           bags: seq<multiset<int>>, owner: map<int, nat>, b: nat, a: int, p: MapPage,
                                           free: seq<int>)
    requires Attaching(disk0, disk1, dirs, lists, bags, owner, b, a, p, free)
    ensures Differ(disk0, disk1, {0, a, DirPage(b)} + (if lists[b] == [] then {} else {lists[b][|lists[b]| - 1]}))
    ensures a in disk0 ==> owner[a] == |bags|
    ensures a !in lists[b]
  {
    assert a in disk0 ==> lists[|bags|][0] == a;
  }

  lemma {:induction false} OtherExtended(disk0: MapDisk, disk1: MapDisk, dirs: nat, lists: seq<seq<int>>,
                                         bags: seq<multiset<int>>, owner: map<int, nat>, b: nat, a: int, p: MapPage,
                                         free: seq<int>, c: nat)
    requires Attaching(disk0, disk1, dirs, lists, bags, owner, b, a, p, free) && c < |bags| && c != b
    ensures Linked(disk1, lists[c]) && Filled(disk1, lists[c]) && Bag(disk1, lists[c]) == bags[c]
  {
    hide Bag, Items, Linked, Filled, Layout, Slot, Attached;
    ChangedByAttach(disk0, disk1, dirs, lists, bags, owner, b, a, p, free);
    ReservedPages(dirs, b);
    var changed := {0, a, DirPage(b)} + (if lists[b] == [] then {} else {lists[b][|lists[b]| - 1]});
    ListStays(disk0, disk1, lists, owner, disk0.Keys - Reserved(dirs), changed, c);
  }

  lemma {:induction false} FreeExtended(disk0: MapDisk, disk1: MapDisk, dirs: nat, lists: seq<seq<int>>,
                                        bags: seq<multiset<int>>, owner: map<int, nat>, b: nat, a: int, p: MapPage,
                                        free: seq<int>)
    requires Attaching(disk0, disk1, dirs, lists, bags, owner, b, a, p, free)
    ensures Linked(disk1, free)
  {
    hide Bag, Items, Filled, Layout, Slot, Attached, Owned;
    ChangedByAttach(disk0, disk1, dirs, lists, bags, owner, b, a, p, free);
    ReservedPages(dirs, b);
    OwnedExtended(lists, owner, disk0.Keys - Reserved(dirs), b, a, free);
    var all := lists[|bags|];
    Disjoint(lists, owner, disk0.Keys - Reserved(dirs), b, |bags|);
    assert lists[b] != [] ==> lists[b][|lists[b]| - 1] in lists[b];
    assert free == all[if a in disk0 then 1 else 0..];
    forall k | 0 <= k < |free|
      ensures IsBlock(disk1, free[k]) && disk1[free[k]].next == First(free[k + 1..])
    {
      var l := if a in disk0 then k + 1 else k;
      assert all[l] == free[k] && all[l + 1..] == free[k + 1..];
      assert free[k] in free && all[l] in all;
    }
  }

  lemma {:induction false} Disjoint(lists: seq<seq<int>>, owner: map<int, nat>, pages: set<int>, b: nat, c: nat)
    requires Owned(lists, owner, pages) && b < |lists| && c < |lists| && b != c
    ensures forall x :: x in lists[c] ==> x in pages && x !in lists[b]
  {
  }

  lemma {:induction false} ChainExtended(disk0: MapDisk, disk1: MapDisk, dirs: nat, lists: seq<seq<int>>,
                                         bags: seq<multiset<int>>, owner: map<int, nat>, b: nat, a: int, p: MapPage,
                                         free: seq<int>)
    requires Attaching(disk0, disk1, dirs, lists, bags, owner, b, a, p, free)
    ensures Linked(disk1, lists[b] + [a]) && Filled(disk1, lists[b] + [a])
    ensures Bag(disk1, lists[b] + [a]) == bags[b] + Items(p)
  {
    hide Bag, Items, Layout, Slot;
    var chain := lists[b];
    var n := |chain|;
    ReservedPages(dirs, b);
    NotReserved(lists, owner, disk0.Keys, dirs, b);
    ChangedByAttach(disk0, disk1, dirs, lists, bags, owner, b, a, p, free);
    forall k | 0 <= k < n + 1
      ensures var x := (chain + [a])[k];
              IsBlock(disk1, x) && disk1[x].next == First((chain + [a])[k + 1..]) && 1 <= disk1[x].n <= TABLE_SIZE
      ensures k < n ==> Items(disk1[chain[k]]) == Items(disk0[chain[k]])
    {
      if k < n {
        assert chain[k] in chain;
        assert (chain + [a])[k + 1..] == chain[k + 1..] + [a];
        SameItems(disk0[chain[k]], a);
      }
    }
    BagAppend(disk1, chain, [a]);
    BagOne(disk1, a);
    BagSame(disk0, disk1, chain);
  }

  lemma {:induction false} SameItems(p: MapPage, a: int)
    requires p.Bucket?
    ensures Items(p.(next := a)) == Items(p)
  {
  }

  lemma {:induction false} BagSame(disk0: MapDisk, disk1: MapDisk, chain: seq<int>)
    requires forall k :: 0 <= k < |chain| ==>
               chain[k] in disk0 && chain[k] in disk1 && Items(disk1[chain[k]]) == Items(disk0[chain[k]])
    ensures Bag(disk1, chain) == Bag(disk0, chain)
  {
    hide Items;
    if chain != [] {
      assert forall k :: 0 <= k < |chain[1..]| ==> chain[1..][k] == chain[k + 1];
      BagSame(disk0, disk1, chain[1..]);
    }
  }

  /** Page a, which is new or was the first free one, becomes the last block of list b. */
  lemma {:induction false} OwnedExtended(lists: seq<seq<int>>, owner: map<int, nat>, pages: set<int>, b: nat, a: int,
                                         free: seq<int>)
    requires Owned(lists, owner, pages) && b < |lists| - 1
    requires if a in pages then lists[|lists| - 1] == [a] + free else free == lists[|lists| - 1]
    ensures Owned(lists[b := lists[b] + [a]][|lists| - 1 := free], owner[a := b], pages + {a})
    ensures a !in lists[b] && a !in free
  {
    var n := |lists| - 1;
    var lists', owner' := lists[b := lists[b] + [a]][n := free], owner[a := b];
    assert a in pages ==> lists[n][0] == a;
    assert a !in lists[b];
    assert forall k :: 0 <= k < |free| ==> free[k] == lists[n][if a in pages then k + 1 else k];
    assert a !in free;
    forall x | x in pages + {a}
      ensures owner'[x] < |lists'| && x in lists'[owner'[x]]
    {
      if x == a {
        assert lists'[b][|lists[b]|] == a;
      } else {
        StillOwned(lists, owner, pages, b, a, free, x);
      }
    }
    forall c, k | 0 <= c < |lists'| && 0 <= k < |lists'[c]|
      ensures lists'[c][k] in pages + {a} && owner'[lists'[c][k]] == c
    {
      StoodAt(lists, b, a, free, c, k);
    }
    forall c, k, l | 0 <= c < |lists'| && 0 <= k < l < |lists'[c]|
      ensures lists'[c][k] != lists'[c][l]
    {
      StoodAt(lists, b, a, free, c, k);
      StoodAt(lists, b, a, free, c, l);
    }
  }

  lemma {:induction false} StillOwned(lists: seq<seq<int>>, owner: map<int, nat>, pages: set<int>, b: nat, a: int,
                                      free: seq<int>, x: int)
    requires Owned(lists, owner, pages) && b < |lists| - 1 && x in pages && x != a
    requires if a in pages then lists[|lists| - 1] == [a] + free else free == lists[|lists| - 1]
    ensures x in lists[b := lists[b] + [a]][|lists| - 1 := free][owner[x]]
  {
    var n := |lists| - 1;
    var lists' := lists[b := lists[b] + [a]][n := free];
    var k :| 0 <= k < |lists[owner[x]]| && lists[owner[x]][k] == x;
    if owner[x] != n {
      assert lists'[owner[x]][k] == x;
    } else {
      assert free[if a in pages then k - 1 else k] == x;
    }
  }

  /** Every entry but the new one stood in the same list, the free ones perhaps one place further back. */
  lemma {:induction false} StoodAt(lists: seq<seq<int>>, b: nat, a: int, free: seq<int>, c: nat, k: nat)
    requires b < |lists| - 1 && c < |lists|
    requires lists[|lists| - 1] == [a] + free || free == lists[|lists| - 1]
    requires k < |lists[b := lists[b] + [a]][|lists| - 1 := free][c]|
    ensures var x, d := lists[b := lists[b] + [a]][|lists| - 1 := free][c][k], |lists[|lists| - 1]| - |free|;
            if c == |lists| - 1 then k + d < |lists[c]| && x == lists[c][k + d]
            else if c == b && k == |lists[b]| then x == a
            else k < |lists[c]| && x == lists[c][k]
  {
  }

  // ----- A bucket loses an empty block -----

  /** Leaving out block k: the block before it, or else the directory, points past it. */
  ghost function Bridged(disk: MapDisk, dirs: nat, b: nat, chain: seq<int>, k: nat): MapDisk
    requires Layout(disk, dirs) && b < DIR_SIZE * dirs && k < |chain|
    requires IsBlock(disk, chain[k]) && (k > 0 ==> IsBlock(disk, chain[k - 1]))
  {
    var next := disk[chain[k]].next;
    if k == 0 then
      var d := disk[DirPage(b)];
      disk[DirPage(b) := d.(directory := d.directory[b % DIR_SIZE := next])]
    else
      disk[chain[k - 1] := disk[chain[k - 1]].(next := next)]
  }

  /** Block k of bucket b goes to the free list, with content q. */
  ghost predicate Detaching(disk0: MapDisk, disk1: MapDisk, dirs: nat, lists: seq<seq<int>>, bags: seq<multiset<int>>,
                            owner: map<int, nat>, b: nat, k: nat, q: MapPage) {
    && Mapped(disk0, dirs, lists, bags, owner) && b < |bags| && k < |lists[b]|
    && IsBlock(disk0, lists[b][k]) && (k > 0 ==> IsBlock(disk0, lists[b][k - 1]))
    && q.Bucket? && |q.table| == TABLE_SIZE && q.next == First(lists[|bags|])
    && disk1 == Bridged(disk0, dirs, b, lists[b], k)[0 := disk0[0].(freeHead := lists[b][k])][lists[b][k] := q]
  }

  lemma {:induction false} Unlinked(disk0: MapDisk, disk1: MapDisk, dirs: nat, lists: seq<seq<int>>,
                                    bags: seq<multiset<int>>, owner: map<int, nat>, b: nat, k: nat, q: MapPage)
    requires Detaching(disk0, disk1, dirs, lists, bags, owner, b, k, q)
    ensures var a, n := lists[b][k], |bags|;
            Mapped(disk1, dirs, lists[b := RemoveAt(lists[b], k)][n := [a] + lists[n]],
                   bags[b := bags[b] - Items(disk0[a])], owner[a := n])
  {
    hide Bag, Items, Owned, Layout, Linked, Filled, Slot;
    var pages, n, a := disk0.Keys - Reserved(dirs), |bags|, lists[b][k];
    var lists', bags' := lists[b := RemoveAt(lists[b], k)][n := [a] + lists[n]], bags[b := bags[b] - Items(disk0[a])];
    OwnedUnlinked(lists, owner, pages, b, k);
    LaidOutUnlinked(disk0, disk1, dirs, lists, bags, owner, b, k, q);
    forall c | 0 <= c < n
      ensures Linked(disk1, lists'[c]) && Filled(disk1, lists'[c]) && Bag(disk1, lists'[c]) == bags'[c]
    {
      if c == b {
        ChainUnlinked(disk0, disk1, dirs, lists, bags, owner, b, k, q);
      } else {
        OtherUnlinked(disk0, disk1, dirs, lists, bags, owner, b, k, q, c);
      }
    }
    FreeUnlinked(disk0, disk1, dirs, lists, bags, owner, b, k, q);
  }

  lemma {:induction false} LaidOutUnlinked(disk0: MapDisk, disk1: MapDisk, dirs: nat, lists: seq<seq<int>>,
                                           bags: seq<multiset<int>>, owner: map<int, nat>, b: nat, k: nat, q: MapPage)
    requires Detaching(disk0, disk1, dirs, lists, bags, owner, b, k, q)
    ensures Layout(disk1, dirs) && disk1[0].freeHead == lists[b][k]
    ensures forall c: nat :: c < |bags| ==>
              Slot(disk1, dirs, c) == First(if c == b then RemoveAt(lists[b], k) else lists[c])
    ensures disk1.Keys == disk0.Keys
  {
    hide Bag, Items, Filled, Linked, Owned;
    ReservedPages(dirs, b);
    NotReserved(lists, owner, disk0.Keys, dirs, b);
    HeadNext(disk0, lists[b], k);
    forall c: nat | c < |bags|
      ensures DirPage(c) in disk1 && disk1[DirPage(c)].Dir? && |disk1[DirPage(c)].directory| == DIR_SIZE
      ensures disk1[DirPage(c)].directory[c % DIR_SIZE] == First(if c == b then RemoveAt(lists[b], k) else lists[c])
    {
      ReservedPages(dirs, c);
      DirPages(b, c);
      assert Slot(disk0, dirs, c) == First(lists[c]);
    }
  }

  lemma {:induction false} HeadNext(disk: MapDisk, chain: seq<int>, k: nat)
    requires Linked(disk, chain) && k < |chain|
    ensures chain[k] in disk && disk[chain[k]].Bucket? && disk[chain[k]].next == First(chain[k + 1..])
    ensures First(RemoveAt(chain, k)) == if k == 0 then disk[chain[k]].next else chain[0]
  {
    assert k == 0 ==> RemoveAt(chain, k) == chain[1..];
  }

  lemma {:induction false} ChangedByDetach(disk0: MapDisk, disk1: MapDisk, dirs: nat, lists: seq<seq<int>>,
                                           bags: seq<multiset<int>>, owner: map<int, nat>, b: nat, k: nat, q: MapPage)
    requires Detaching(disk0, disk1, dirs, lists, bags, owner, b, k, q)
    ensures Differ(disk0, disk1, {0, lists[b][k], DirPage(b)} + (if k == 0 then {} else {lists[b][k - 1]}))
    ensures owner[lists[b][k]] == b && (k > 0 ==> owner[lists[b][k - 1]] == b)
  {
  }

  lemma {:induction false} OtherUnlinked(disk0: MapDisk, disk1: MapDisk, dirs: nat, lists: seq<seq<int>>,
                                         bags: seq<multiset<int>>, owner: map<int, nat>, b: nat, k: nat, q: MapPage,
                                         c: nat)
    requires Detaching(disk0, disk1, dirs, lists, bags, owner, b, k, q) && c < |lists| && c != b
    ensures Linked(disk1, lists[c])
    ensures c < |bags| ==> Filled(disk1, lists[c]) && Bag(disk1, lists[c]) == bags[c]
  {
    hide Bag, Items, Linked, Filled, Layout, Slot, Bridged;
    ChangedByDetach(disk0, disk1, dirs, lists, bags, owner, b, k, q);
    ReservedPages(dirs, b);
    var changed := {0, lists[b][k], DirPage(b)} + (if k == 0 then {} else {lists[b][k - 1]});
    ListStays(disk0, disk1, lists, owner, disk0.Keys - Reserved(dirs), changed, c);
  }

  lemma {:induction false} FreeUnlinked(disk0: MapDisk, disk1: MapDisk, dirs: nat, lists: seq<seq<int>>,
                                        bags: seq<multiset<int>>, owner: map<int, nat>, b: nat, k: nat, q: MapPage)
    requires Detaching(disk0, disk1, dirs, lists, bags, owner, b, k, q)
    ensures Linked(disk1, [lists[b][k]] + lists[|bags|])
  {
    hide Bag, Items, Filled, Layout, Slot, Bridged;
    OtherUnlinked(disk0, disk1, dirs, lists, bags, owner, b, k, q, |bags|);
    var a, free := lists[b][k], lists[|bags|];
    forall l | 0 <= l < |free| + 1
      ensures IsBlock(disk1, ([a] + free)[l]) && disk1[([a] + free)[l]].next == First(([a] + free)[l + 1..])
    {
      assert ([a] + free)[l + 1..] == free[l..];
      if l > 0 {
        assert ([a] + free)[l] == free[l - 1];
        assert free[l - 1 + 1..] == free[l..];
      }
    }
  }

  lemma {:induction false} ChainUnlinked(disk0: MapDisk, disk1: MapDisk, dirs: nat, lists: seq<seq<int>>,
                                         bags: seq<multiset<int>>, owner: map<int, nat>, b: nat, k: nat, q: MapPage)
    requires Detaching(disk0, disk1, dirs, lists, bags, owner, b, k, q)
    ensures Linked(disk1, RemoveAt(lists[b], k)) && Filled(disk1, RemoveAt(lists[b], k))
    ensures Bag(disk1, RemoveAt(lists[b], k)) == bags[b] - Items(disk0[lists[b][k]])
  {
    hide Bag, Items, Layout, Slot, Linked, Filled;
    ReservedPages(dirs, b);
    NotReserved(lists, owner, disk0.Keys, dirs, b);
    BlocksIn(disk0, lists[b]);
    ChainBridged(disk0, disk1, lists[b], k);
  }

  lemma {:induction false} BlocksIn(disk: MapDisk, chain: seq<int>)
    requires Linked(disk, chain)
    ensures forall m :: 0 <= m < |chain| ==> IsBlock(disk, chain[m])
  {
  }

  /** A chain from which block k has been taken out. */
  lemma {:induction false} ChainBridged(disk0: MapDisk, disk1: MapDisk, chain: seq<int>, k: nat)
    requires Linked(disk0, chain) && Filled(disk0, chain) && k < |chain| && IsBlock(disk0, chain[k])
    requires forall m :: 0 <= m < |chain| ==> IsBlock(disk0, chain[m])
    requires forall m :: 0 <= m < |chain| && m != k ==>
               (chain[m] in disk1 &&
                disk1[chain[m]] == if m == k - 1 then disk0[chain[m]].(next := disk0[chain[k]].next)
                    else disk0[chain[m]])
    ensures Linked(disk1, RemoveAt(chain, k)) && Filled(disk1, RemoveAt(chain, k))
    ensures Bag(disk1, RemoveAt(chain, k)) == Bag(disk0, chain) - Items(disk0[chain[k]])
  {
    hide Bag, Items;
    var rest := RemoveAt(chain, k);
    forall l | 0 <= l < |rest|
      ensures IsBlock(disk1, rest[l]) && disk1[rest[l]].next == First(rest[l + 1..])
              && 1 <= disk1[rest[l]].n <= TABLE_SIZE
      ensures Items(disk1[rest[l]]) == Items(disk0[rest[l]])
    {
      var m := if l < k then l else l + 1;
      assert rest[l] == chain[m];
      SameItems(disk0[chain[m]], disk0[chain[k]].next);
      if l + 1 < k {
        assert rest[l + 1] == chain[l + 1];
      } else {
        assert rest[l + 1..] == chain[if l < k then k + 1 else l + 2..];
      }
    }
    BagSame(disk0, disk1, rest);
    BagAround(disk0, chain, k);
    BagAppend(disk0, chain[..k], chain[k + 1..]);
  }

  /** The lists once block k of list b has gone to the front of the last list. */
  function Moved(lists: seq<seq<int>>, b: nat, k: nat): (r: seq<seq<int>>)
    requires b < |lists| - 1 && k < |lists[b]|
    ensures |r| == |lists|
  {
    lists[b := RemoveAt(lists[b], k)][|lists| - 1 := [lists[b][k]] + lists[|lists| - 1]]
  }

  /** Where entry l of list c stood before. */
  function Source(n: int, b: nat, k: nat, c: int, l: int): (int, int) {
    if c == b then (b, if l < k then l else l + 1)
    else if c == n then if l == 0 then (b, k) else (n, l - 1)
    else (c, l)
  }

  lemma {:induction false} CameFrom(lists: seq<seq<int>>, b: nat, k: nat, c: int, l: int)
    requires b < |lists| - 1 && k < |lists[b]|
    requires 0 <= c < |lists| && 0 <= l < |Moved(lists, b, k)[c]|
    ensures var (c0, l0) := Source(|lists| - 1, b, k, c, l);
            0 <= c0 < |lists| && 0 <= l0 < |lists[c0]| && Moved(lists, b, k)[c][l] == lists[c0][l0]
  {
  }

  lemma {:induction false} OwnedUnlinked(lists: seq<seq<int>>, owner: map<int, nat>, pages: set<int>, b: nat, k: nat)
    requires Owned(lists, owner, pages) && b < |lists| - 1 && k < |lists[b]|
    ensures var a, n := lists[b][k], |lists| - 1;
            Owned(lists[b := RemoveAt(lists[b], k)][n := [a] + lists[n]], owner[a := n], pages)
  {
    var n, a := |lists| - 1, lists[b][k];
    var lists', owner' := Moved(lists, b, k), owner[a := n];
    assert a in pages && owner[a] == b;
    StillListed(lists, owner, pages, b, k);
    hide Moved;
    forall c, l | 0 <= c < |lists'| && 0 <= l < |lists'[c]|
      ensures lists'[c][l] in pages && owner'[lists'[c][l]] == c
    {
      CameFrom(lists, b, k, c, l);
      if c == b {
        assert lists'[c][l] != a;
      }
    }
    forall c, i, j | 0 <= c < |lists'| && 0 <= i < j < |lists'[c]|
      ensures lists'[c][i] != lists'[c][j]
    {
      CameFrom(lists, b, k, c, i);
      CameFrom(lists, b, k, c, j);
    }
  }

  lemma {:induction false} StillListed(lists: seq<seq<int>>, owner: map<int, nat>, pages: set<int>, b: nat, k: nat)
    requires Owned(lists, owner, pages) && b < |lists| - 1 && k < |lists[b]|
    ensures var a, n := lists[b][k], |lists| - 1;
            var lists', owner' := lists[b := RemoveAt(lists[b], k)][n := [a] + lists[n]], owner[a := n];
            forall x :: x in pages ==> x in owner' && owner'[x] < |lists'| && x in lists'[owner'[x]]
  {
    var n, a := |lists| - 1, lists[b][k];
    var rest := RemoveAt(lists[b], k);
    var lists', owner' := lists[b := rest][n := [a] + lists[n]], owner[a := n];
    assert a in pages && owner[a] == b;
    assert forall l :: 0 <= l < |rest| ==> rest[l] == lists[b][if l < k then l else l + 1];
    forall x | x in pages
      ensures owner'[x] < |lists'| && x in lists'[owner'[x]]
    {
      if x == a {
        assert lists'[n][0] == a;
      } else {
        var l :| 0 <= l < |lists[owner[x]]| && lists[owner[x]][l] == x;
        if owner[x] == n {
          assert lists'[n][l + 1] == x;
        } else if owner[x] == b {
          assert rest[if l < k then l else l - 1] == x;
        }
      }
    }
  }

  // ----- What an operation does to the tables of the blocks -----

  /** The addresses in a block, in order. */
  ghost function TableOf(disk: MapDisk, a: int): seq<int> {
    if a in disk && disk[a].Bucket? && 0 <= disk[a].n <= |disk[a].table| then disk[a].table[..disk[a].n] else []
  }

  /** No block but a has another table than before. */
  ghost predicate OneTable(disk0: MapDisk, disk1: MapDisk, a: int) {
    forall x :: x in disk0 && x != a ==> x in disk1 && TableOf(disk1, x) == TableOf(disk0, x)
  }

  /** The number of full blocks at the front of a chain. */
  ghost function FullBlocks(disk: MapDisk, chain: seq<int>): nat {
    if chain == [] || |TableOf(disk, chain[0])| < TABLE_SIZE then 0 else 1 + FullBlocks(disk, chain[1..])
  }

  /** The first k blocks of a chain are full. */
  ghost predicate AllFull(disk: MapDisk, chain: seq<int>, k: nat) {
    k <= |chain| && forall m :: 0 <= m < k ==> |TableOf(disk, chain[m])| >= TABLE_SIZE
  }

  lemma {:induction false} FullBlocksAre(disk: MapDisk, chain: seq<int>, k: nat)
    requires AllFull(disk, chain, k) && (k < |chain| ==> |TableOf(disk, chain[k])| < TABLE_SIZE)
    ensures FullBlocks(disk, chain) == k
  {
    if k > 0 {
      var rest := chain[1..];
      assert forall m :: 0 <= m < |rest| ==> rest[m] == chain[m + 1];
      FullBlocksAre(disk, rest, k - 1);
    }
  }

  /** Address x has come to block k of bucket b. */
  ghost predicate PutInto(disk0: MapDisk, lists0: seq<seq<int>>, disk1: MapDisk, lists1: seq<seq<int>>, b: nat, k: nat,
                          x: int) {
    && b < |lists0| && k < |lists0[b]| && lists1 == lists0 && disk1.Keys == disk0.Keys
    && var a := lists0[b][k];
    && TableOf(disk1, a) == TableOf(disk0, a) + [x] && OneTable(disk0, disk1, a)
  }

  /**
   Address x has come to bucket b in a new last block: the first free page, or else the one at the end of the file.
   */
  ghost predicate PutAfter(disk0: MapDisk, lists0: seq<seq<int>>, end: int, disk1: MapDisk, lists1: seq<seq<int>>,
                           b: nat, x: int) { && b + 1 < |lists0| && var n := |lists0| - 1; && var a,
                           free := if lists0[n] == [] then end else lists0[n][0],
                           if lists0[n] == [] then [] else lists0[n][1..];
                               && lists1 == lists0[b := lists0[b] + [a]][n := free] && disk1.Keys == disk0.Keys + {a}
                                  && TableOf(disk1, a) == [x] && OneTable(disk0, disk1, a) }

  /** Address x has come to the first block of bucket b that had room, or into a new one after the last. */
  ghost predicate PutIn(disk0: MapDisk, lists0: seq<seq<int>>, end: int, disk1: MapDisk, lists1: seq<seq<int>>, b: nat,
                        x: int) {
    && b < |lists0|
    && var k := FullBlocks(disk0, lists0[b]);
    if k < |lists0[b]| then PutInto(disk0, lists0, disk1, lists1, b, k, x)
    else PutAfter(disk0, lists0, end, disk1, lists1, b, x)
  }

  /** Entry i of block k has gone from bucket b; the block is the first free one if that was its only entry. */
  ghost predicate TakenFrom(disk0: MapDisk, lists0: seq<seq<int>>, disk1: MapDisk, lists1: seq<seq<int>>, b: nat,
                            k: nat, i: nat) {
    && b + 1 < |lists0| && k < |lists0[b]| && disk1.Keys == disk0.Keys
    && var n, a := |lists0| - 1, lists0[b][k];
    && i < |TableOf(disk0, a)| && OneTable(disk0, disk1, a)
    && TableOf(disk1, a) == RemoveAt(TableOf(disk0, a), i)
    && lists1 == if |TableOf(disk0, a)| == 1 then lists0[b := RemoveAt(lists0[b], k)][n := [a] + lists0[n]] else lists0
  }

  /** Entry i of block k is the first one in the chain that is x. */
  ghost predicate FirstAt(disk: MapDisk, chain: seq<int>, x: int, k: nat, i: nat) {
    && k < |chain| && i < |TableOf(disk, chain[k])| && TableOf(disk, chain[k])[i] == x
    && (forall m :: 0 <= m < k ==> x !in TableOf(disk, chain[m]))
    && (forall j :: 0 <= j < i ==> TableOf(disk, chain[k])[j] != x)
  }

  /** The first entry x of bucket b has gone; without one, nothing has changed. */
  ghost predicate FirstTaken(disk0: MapDisk, lists0: seq<seq<int>>, disk1: MapDisk, lists1: seq<seq<int>>, b: nat,
                             x: int) {
    && b < |lists0|
    && if exists m :: 0 <= m < |lists0[b]| && x in TableOf(disk0, lists0[b][m]) then
         exists k: nat, i: nat :: FirstAt(disk0, lists0[b], x, k, i) && TakenFrom(disk0, lists0, disk1, lists1, b, k, i)
       else disk1 == disk0 && lists1 == lists0
  }

  /** The last entry of the first block of bucket b is x. */
  ghost predicate Foremost(disk: MapDisk, lists: seq<seq<int>>, b: int, x: int) {
    && 0 <= b < |lists| && lists[b] != []
    && var t := TableOf(disk, lists[b][0]);
    && t != [] && t[|t| - 1] == x
  }

  /** This entry has gone. */
  ghost predicate LastTaken(disk0: MapDisk, lists0: seq<seq<int>>, disk1: MapDisk, lists1: seq<seq<int>>, b: nat,
                            x: int) {
    Foremost(disk0, lists0, b, x) && TakenFrom(disk0, lists0, disk1, lists1, b, 0, |TableOf(disk0, lists0[b][0])| - 1)
  }

  /** A new block has been attached. */
  lemma {:induction false} AttachedTables(disk0: MapDisk, disk1: MapDisk, dirs: nat, lists: seq<seq<int>>,
                                          bags: seq<multiset<int>>, owner: map<int, nat>, b: nat, a: int, p: MapPage,
                                          free: seq<int>, x: int)
    requires Attaching(disk0, disk1, dirs, lists, bags, owner, b, a, p, free) && p.table[0] == x
    ensures disk1.Keys == disk0.Keys + {a} && TableOf(disk1, a) == [x] && OneTable(disk0, disk1, a)
  {
    hide Bag, Owned, Linked, Filled, Reserved;
    assert p.table[..1] == [x];
  }

  /** A block with a single entry has been unlinked. */
  lemma {:induction false} UnlinkedTables(disk0: MapDisk, disk1: MapDisk, dirs: nat, b: nat, chain: seq<int>, k: nat,
                                          q: MapPage)
    requires Layout(disk0, dirs) && b < DIR_SIZE * dirs && k < |chain| && 0 in disk0 && disk0[0].MapCtrl?
    requires IsBlock(disk0, chain[k]) && (k > 0 ==> IsBlock(disk0, chain[k - 1])) && q.Bucket? && q.n == 0
    requires disk1 == Bridged(disk0, dirs, b, chain, k)[chain[k] := q][0 := disk0[0].(freeHead := chain[k])]
    ensures disk1.Keys == disk0.Keys && TableOf(disk1, chain[k]) == [] && OneTable(disk0, disk1, chain[k])
  {
    assert q.table[..0] == [];
  }

  // ----- The empty map -----

  lemma {:induction false} EmptyMap(disk: MapDisk, dirs: nat)
    requires dirs >= 1 && disk.Keys == Reserved(dirs) && 0 in disk && disk[0] == MapCtrl(-1, dirs, DIR_SIZE * dirs)
    requires forall i: nat :: i < dirs ==> DirAt(i) in disk && disk[DirAt(i)] == Dir(seq(DIR_SIZE, _ => -1))
    ensures Mapped(disk, dirs, seq(DIR_SIZE * dirs + 1, _ => []), seq(DIR_SIZE * dirs, _ => multiset{}), map[])
  {
    forall b: nat | b < DIR_SIZE * dirs
      ensures DirPage(b) in disk && disk[DirPage(b)] == Dir(seq(DIR_SIZE, _ => -1))
    {
      assert 0 <= b / DIR_SIZE < dirs;
    }
  }

  /** The blocks that insertion and removal look at first. */
  lemma {:induction false} Heads(disk: MapDisk, dirs: nat, lists: seq<seq<int>>, bags: seq<multiset<int>>,
                                 owner: map<int, nat>, b: nat)
    requires Mapped(disk, dirs, lists, bags, owner) && b < |bags|
    ensures Layout(disk, dirs) && 0 in disk && disk[0].MapCtrl?
    ensures DirPage(b) in disk && disk[DirPage(b)].Dir? && |disk[DirPage(b)].directory| == DIR_SIZE && DirPage(b) > 0
    ensures disk[DirPage(b)].directory[b % DIR_SIZE] == First(lists[b])
    ensures forall k :: 0 <= k < |lists[b]| ==> IsBlock(disk, lists[b][k]) && 1 <= disk[lists[b][k]].n <= TABLE_SIZE
    ensures forall k :: 0 <= k < |lists[b]| ==> lists[b][k] != 0 && lists[b][k] != DirPage(b)
    ensures forall k :: 0 <= k < |lists[b]| ==> disk[lists[b][k]].next == First(lists[b][k + 1..])
    ensures disk[0].freeHead == First(lists[|bags|])
    ensures lists[|bags|] != [] ==> var a := lists[|bags|][0];
              IsBlock(disk, a) && a != 0 && a != DirPage(b) && a !in lists[b]
                  && disk[a].next == First(lists[|bags|][1..])
  {
    hide Bag;
    ReservedPages(dirs, b);
    NotReserved(lists, owner, disk.Keys, dirs, b);
    NotReserved(lists, owner, disk.Keys, dirs, |bags|);
    Disjoint(lists, owner, disk.Keys - Reserved(dirs), b, |bags|);
    if lists[|bags|] != [] {
      assert lists[|bags|][0] in lists[|bags|];
      assert IsBlock(disk, lists[|bags|][0]);
    }
  }

  /** Where a new block comes from. */
  lemma {:induction false} Spare(disk: MapDisk, dirs: nat, lists: seq<seq<int>>, bags: seq<multiset<int>>,
                                 owner: map<int, nat>)
    requires Mapped(disk, dirs, lists, bags, owner)
    ensures Reserved(dirs) <= disk.Keys && |lists| == |bags| + 1
    ensures lists[|bags|] != [] ==> lists[|bags|][0] in disk && lists[|bags|][0] !in Reserved(dirs)
  {
    hide Bag, Items, Linked, Filled, Slot;
    if lists[|bags|] != [] {
      assert lists[|bags|][0] in disk.Keys - Reserved(dirs);
    }
  }

  lemma {:induction false} ItemsWithin(disk: MapDisk, dirs: nat, lists: seq<seq<int>>, bags: seq<multiset<int>>,
                                       owner: map<int, nat>, b: nat, k: nat)
    requires Mapped(disk, dirs, lists, bags, owner) && b < |bags| && k < |lists[b]| && lists[b][k] in disk
    ensures Items(disk[lists[b][k]]) <= bags[b]
  {
    hide Items, Bag;
    BagAround(disk, lists[b], k);
  }

  lemma {:induction false} Absent(disk: MapDisk, chain: seq<int>, x: int)
    requires forall k :: 0 <= k < |chain| && chain[k] in disk ==> x !in Items(disk[chain[k]])
    ensures x !in Bag(disk, chain)
  {
    hide Items;
    if chain != [] {
      assert forall k :: 0 <= k < |chain[1..]| ==> chain[1..][k] == chain[k + 1];
      Absent(disk, chain[1..], x);
    }
  }
}
