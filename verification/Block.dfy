/** The packing of an item id into a 32-bit word, in the terms of its macros. */
module ItemIds {
  import opened Bits

  function Availability(id: nat): nat {
    And(ShiftRight(id, 30), 1)
  }

  function Offset(id: nat): nat {
    And(ShiftRight(id, 15), ShiftLeft(1, 15) - 1)
  }

  function Size(id: nat): nat {
    And(id, ShiftLeft(1, 15) - 1)
  }

  function Compose(availability: nat, offset: nat, size: nat): nat {
    Or(Or(ShiftLeft(And(availability, 1), 30), ShiftLeft(And(offset, ShiftLeft(1, 15) - 1), 15)),
       And(size, ShiftLeft(1, 15) - 1))
  }

  lemma {:induction false} Powers()
    ensures Pow2(1) == 2 && Pow2(15) == ShiftLeft(1, 15) == 0x8000 && Pow2(30) == 0x4000_0000
  {
    assert Pow2(5) == 32;
    assert Pow2(10) == 1024;
    assert Pow2(15) == 0x8000;
    assert Pow2(20) == 0x10_0000;
    assert Pow2(25) == 0x200_0000;
  }

  /** The masks and shifts read fields of one bit and twice fifteen bits. */
  lemma {:induction false} FieldsRead(id: nat)
    ensures Availability(id) == id / 0x4000_0000 % 2
    ensures Offset(id) == id / 0x8000 % 0x8000
    ensures Size(id) == id % 0x8000
  {
    hide And, Or, Pow2;
    Powers();
    ShiftDivides(id, 30);
    ShiftDivides(id, 15);
    Mask(ShiftRight(id, 30), 1);
    Mask(ShiftRight(id, 15), 15);
    Mask(id, 15);
  }

  lemma {:induction false} FieldsWritten(availability: nat, offset: nat, size: nat)
    ensures Compose(availability, offset, size)
         == availability % 2 * 0x4000_0000 + offset % 0x8000 * 0x8000 + size % 0x8000
  {
    hide And, Or, Pow2;
    Powers();
    Mask(availability, 1);
    Mask(offset, 15);
    Mask(size, 15);
    var a, o, s := availability % 2, offset % 0x8000, size % 0x8000;
    assert ShiftLeft(o, 15) == o * 0x8000 < 0x4000_0000;
    Join(a, ShiftLeft(o, 15), 30);
    assert a * 0x4000_0000 + o * 0x8000 == ShiftLeft(a * 0x8000 + o, 15);
    Join(a * 0x8000 + o, s, 15);
  }

  /** What has been composed is what is extracted; bit 31 stays 0. */
  lemma {:induction false} RoundTrip(availability: nat, offset: nat, size: nat)
    requires availability < 2 && offset < 0x8000 && size < 0x8000
    ensures var id := Compose(availability, offset, size);
            && Availability(id) == availability && Offset(id) == offset && Size(id) == size
            && id < 0x8000_0000
  {
    hide And, Or, Pow2, Compose, Availability, Offset, Size;
    FieldsWritten(availability, offset, size);
    FieldsRead(Compose(availability, offset, size));
  }

  /** A word with bit 31 clear is composed of its fields. */
  lemma {:induction false} Recomposed(id: nat)
    requires id < 0x8000_0000
    ensures Compose(Availability(id), Offset(id), Size(id)) == id
  {
    hide And, Or, Pow2, Compose, Availability, Offset, Size;
    FieldsRead(id);
    FieldsWritten(Availability(id), Offset(id), Size(id));
  }
}

/** The slotted page. */
module Blocks {
  import opened Cells
  import opened ItemIds

  const BLOCK_SIZE: nat := 128
  const HEADER: nat := 6
  const ID_SIZE: nat := 4

  /** The three shorts of the header, and the bytes of the page; ids grow up from byte 6, items down from the end. */
  datatype Block = Block(n: int, head: int, tail: int, bytes: seq<Cell>)

  const EMPTY_BLOCK := Block(0, 0, 0, seq(BLOCK_SIZE, _ => Byte(0)))

  // ----- Words in the page -----

  function WordAt(s: seq<Cell>, i: nat): nat
    requires HEADER + ID_SIZE * (i + 1) <= |s|
  {
    var p := HEADER + ID_SIZE * i;
    Val(s[p]) + 0x100 * Val(s[p + 1]) + 0x1_0000 * Val(s[p + 2]) + 0x100_0000 * Val(s[p + 3])
  }

  function WithWord(s: seq<Cell>, i: nat, w: nat): (r: seq<Cell>)
    requires HEADER + ID_SIZE * (i + 1) <= |s|
    ensures |r| == |s|
    ensures forall x :: 0 <= x < |s| && !(HEADER + ID_SIZE * i <= x < HEADER + ID_SIZE * (i + 1)) ==> r[x] == s[x]
  {
    var p := HEADER + ID_SIZE * i;
    s[p := Byte(w % 0x100)]
     [p + 1 := Byte(w / 0x100 % 0x100)]
     [p + 2 := Byte(w / 0x1_0000 % 0x100)]
     [p + 3 := Byte(w / 0x100_0000 % 0x100)]
  }

  lemma {:induction false} WordWritten(s: seq<Cell>, i: nat, w: nat, j: nat)
    requires HEADER + ID_SIZE * (i + 1) <= |s| && HEADER + ID_SIZE * (j + 1) <= |s| && w < 0x1_0000_0000
    ensures WordAt(WithWord(s, i, w), j) == if i == j then w else WordAt(s, j)
  {
    if i == j {
      Digits(w);
    } else if i < j {
      assert HEADER + ID_SIZE * (i + 1) <= HEADER + ID_SIZE * j;
    }
  }

  lemma {:induction false} Digits(w: nat)
    requires w < 0x1_0000_0000
    ensures w == w % 0x100 + 0x100 * (w / 0x100 % 0x100)
                 + 0x1_0000 * (w / 0x1_0000 % 0x100) + 0x100_0000 * (w / 0x100_0000 % 0x100)
  {
    var a := w / 0x100;
    var b := a / 0x100;
    var c := b / 0x100;
    assert w / 0x1_0000 == b;
    assert w / 0x100_0000 == c < 0x100;
  }

  method PutWord(a: array<Cell>, i: nat, w: nat)
    requires HEADER + ID_SIZE * (i + 1) <= a.Length
    modifies a
    ensures a[..] == WithWord(old(a[..]), i, w)
  {
    var p := HEADER + ID_SIZE * i;
    a[p], a[p + 1], a[p + 2], a[p + 3] :=
      Byte(w % 0x100), Byte(w / 0x100 % 0x100), Byte(w / 0x1_0000 % 0x100), Byte(w / 0x100_0000 % 0x100);
  }

  // ----- Slots -----

  datatype Slot = Vacant | Item(off: nat, size: nat)

  function SlotOf(id: nat): Slot {
    if Availability(id) == 1 then Vacant else Item(Offset(id), Size(id))
  }

  ghost predicate Fits(b: Block) {
    |b.bytes| == BLOCK_SIZE && 0 <= b.n && HEADER + ID_SIZE * b.n <= BLOCK_SIZE
  }

  ghost function Slots(b: Block): (s: seq<Slot>)
    requires Fits(b)
    ensures |s| == b.n
  {
    seq(b.n, i requires 0 <= i < b.n => SlotOf(WordAt(b.bytes, i)))
  }

  /** Byte x belongs to the item in slot s. */
  ghost predicate Within(s: Slot, x: int) {
    s.Item? && s.off <= x < s.off + s.size
  }

  /** The items lie in [tail, 128), none is empty, and every byte there belongs to exactly one of them. */
  ghost predicate Tiled(slots: seq<Slot>, tail: int) {
    && (forall i :: 0 <= i < |slots| && slots[i].Item? ==>
          slots[i].size > 0 && tail <= slots[i].off && slots[i].off + slots[i].size <= BLOCK_SIZE)
    && (forall i, j :: 0 <= i < j < |slots| && slots[i].Item? && slots[j].Item? ==>
          slots[i].off + slots[i].size <= slots[j].off || slots[j].off + slots[j].size <= slots[i].off)
    && (forall x :: tail <= x < BLOCK_SIZE ==> Covered(slots, x))
  }

  ghost predicate Covered(slots: seq<Slot>, x: int) {
    exists i :: 0 <= i < |slots| && Within(slots[i], x)
  }

  ghost predicate Ok(b: Block) {
    && Fits(b)
    && b.head == HEADER + ID_SIZE * b.n <= b.tail <= BLOCK_SIZE
    && Tiled(Slots(b), b.tail)
  }

  ghost predicate Live(slots: seq<Slot>, i: int) {
    0 <= i < |slots| && slots[i].Item?
  }

  /** The live items by index. */
  ghost function Items(b: Block): map<int, seq<Cell>>
    requires Ok(b)
  {
    map i | 0 <= i < b.n && Live(Slots(b), i) :: b.bytes[Slots(b)[i].off..Slots(b)[i].off + Slots(b)[i].size]
  }

  // ----- init_block -----

  method InitBlock(b: Block) returns (r: Block)
    requires |b.bytes| == BLOCK_SIZE
    ensures Ok(r) && Items(r) == map[] && FreeSpace(r) == 118 && r.n == 0
  {
    r := b.(n := 0, head := HEADER, tail := BLOCK_SIZE);
  }

  // ----- free_space -----

  ghost predicate SomeVacant(slots: seq<Slot>) {
    exists i :: 0 <= i < |slots| && slots[i] == Vacant
  }

  /** The largest item that fits. */
  ghost function FreeSpace(b: Block): int
    requires Fits(b)
  {
    var gap := b.tail - b.head;
    if SomeVacant(Slots(b)) then gap else if gap < ID_SIZE then 0 else gap - ID_SIZE
  }

  lemma {:induction false} FreeSpaceBound(b: Block)
    requires Ok(b)
    ensures Fits(b) && 0 <= FreeSpace(b) <= 118
  {
  }

  /** There is room for size bytes and a new id, or for size bytes where an id is free already. */
  ghost predicate Room(b: Block, size: int)
    requires Ok(b)
  {
    || b.head + ID_SIZE + size <= b.tail
    || (b.head + size <= b.tail && exists i :: 0 <= i < b.n && i !in Items(b))
  }

  /** The free space is the largest size for which there is room. */
  lemma {:induction false} SpaceIsRoom(b: Block, size: int)
    requires Ok(b) && size > 0
    ensures size <= FreeSpace(b) <==> Room(b, size)
  {
    hide WordAt, SlotOf, Slots, Tiled, Items;
    ItemsByIndex(b);
    if SomeVacant(Slots(b)) {
      var i :| 0 <= i < b.n && Slots(b)[i] == Vacant;
      assert i !in Items(b);
    }
  }

  method ComputeFreeSpace(b: Block) returns (r: int)
    requires Fits(b)
    ensures r == FreeSpace(b)
  {
    hide WordAt, Slots, Availability, Offset, Size;
    var ans := b.tail - b.head - ID_SIZE;
    var i := 0;
    while i < b.n
      invariant 0 <= i <= b.n
      invariant forall x :: 0 <= x < i ==> Slots(b)[x] != Vacant
    {
      var id := WordAt(b.bytes, i);
      SlotRead(b, i);
      OneBit(id);
      if Availability(id) == 1 {
        return b.tail - b.head;
      }
      i := i + 1;
    }
    if ans < 0 {
      return 0;
    }
    return ans;
  }

  lemma {:induction false} SlotRead(b: Block, i: nat)
    requires Fits(b) && i < b.n
    ensures Slots(b)[i] == SlotOf(WordAt(b.bytes, i))
  {
    hide WordAt, SlotOf;
  }

  lemma {:induction false} OneBit(id: nat)
    ensures Availability(id) == 0 || Availability(id) == 1
  {
    FieldsRead(id);
  }

  // ----- get_item -----

  /** The offset of the item, or -1 for the null pointer. */
  method GetItem(b: Block, idx: int) returns (off: int)
    requires Ok(b)
    ensures if idx in Items(b) then 0 <= off && off + |Items(b)[idx]| <= BLOCK_SIZE
            && b.bytes[off..off + |Items(b)[idx]|] == Items(b)[idx]
            else off == -1
  {
    if idx < 0 || idx >= b.n {
      return -1;
    }
    var id := WordAt(b.bytes, idx);
    assert Slots(b)[idx] == SlotOf(id);
    OneBit(id);
    if Availability(id) != 0 {
      return -1;
    }
    return Offset(id);
  }

  // ----- new_item -----

  /** The page after item has been written at tail, as slot i. */
  ghost function Placed(s: seq<Cell>, i: nat, tail: nat, item: seq<Cell>): seq<Cell>
    requires HEADER + ID_SIZE * (i + 1) <= tail && tail + |item| <= |s|
  {
    WithWord(s, i, Compose(0, tail, |item|))[..tail] + item + s[tail + |item|..]
  }

  method Place(b: Block, i: nat, n: nat, head: int, item: seq<Cell>) returns (r: Block)
    requires |b.bytes| == BLOCK_SIZE && HEADER + ID_SIZE * (i + 1) <= b.tail - |item| <= b.tail <= BLOCK_SIZE
    ensures r == Block(n, head, b.tail - |item|, Placed(b.bytes, i, b.tail - |item|, item))
  {
    hide Compose, WithWord;
    var tail := b.tail - |item|;
    var a := new Cell[BLOCK_SIZE](x requires 0 <= x < BLOCK_SIZE => b.bytes[x]);
    assert a[..] == b.bytes;
    PutWord(a, i, Compose(0, tail, |item|));
    ghost var s := a[..];
    for j := 0 to |item|
      invariant forall x :: 0 <= x < BLOCK_SIZE && !(tail <= x < tail + j) ==> a[x] == s[x]
      invariant forall x :: 0 <= x < j ==> a[tail + x] == item[x]
    {
      a[tail + j] := item[j];
    }
    assert a[..] == Placed(b.bytes, i, tail, item);
    r := Block(n, head, tail, a[..]);
  }

  /** Slot i, which is vacant or a new one at the end, has been given to an item just below tail. */
  lemma {:induction false} TiledPlaced(slots: seq<Slot>, i: nat, tail: nat, size: nat, out: seq<Slot>)
    requires Tiled(slots, tail) && 0 < size <= tail <= BLOCK_SIZE && i <= |slots|
    requires i < |slots| ==> slots[i] == Vacant
    requires out == (if i < |slots| then slots[i := Item(tail - size, size)] else slots + [Item(tail - size, size)])
    ensures Tiled(out, tail - size)
  {
    forall x | tail - size <= x < BLOCK_SIZE
      ensures Covered(out, x)
    {
      if x < tail {
        assert Within(out[i], x);
      } else {
        assert Covered(slots, x);
        var k :| 0 <= k < |slots| && Within(slots[k], x);
        assert Within(out[k], x);
      }
    }
  }

  lemma {:induction false} SlotsPlaced(b: Block, i: nat, n: nat, head: int, item: seq<Cell>, r: Block)
    requires Ok(b) && 0 < |item| && (i < b.n == n || i == b.n == n - 1)
    requires head == HEADER + ID_SIZE * n <= b.tail - |item|
    requires r == Block(n, head, b.tail - |item|, Placed(b.bytes, i, b.tail - |item|, item))
    ensures Fits(r)
    ensures Slots(r) == if i < b.n then Slots(b)[i := Item(b.tail - |item|, |item|)]
            else Slots(b) + [Item(b.tail - |item|, |item|)]
  {
    hide Compose, Availability, Offset, Size, Tiled;
    var id := Compose(0, b.tail - |item|, |item|);
    RoundTrip(0, b.tail - |item|, |item|);
    forall j | 0 <= j < n
      ensures WordAt(r.bytes, j) == if j == i then id else WordAt(b.bytes, j)
    {
      WordWritten(b.bytes, i, id, j);
      SameWord(WithWord(b.bytes, i, id), r.bytes, j);
    }
  }

  lemma {:induction false} SameWord(s: seq<Cell>, t: seq<Cell>, j: nat)
    requires HEADER + ID_SIZE * (j + 1) <= |s| && HEADER + ID_SIZE * (j + 1) <= |t|
    requires forall x :: 0 <= x < HEADER + ID_SIZE * (j + 1) ==> s[x] == t[x]
    ensures WordAt(s, j) == WordAt(t, j)
  {
  }

  lemma {:induction false} ItemsPlaced(b: Block, i: nat, n: nat, head: int, item: seq<Cell>, r: Block)
    requires Ok(b) && 0 < |item| && (i < b.n == n || i == b.n == n - 1)
    requires i < b.n ==> Slots(b)[i] == Vacant
    requires head == HEADER + ID_SIZE * n <= b.tail - |item|
    requires r == Block(n, head, b.tail - |item|, Placed(b.bytes, i, b.tail - |item|, item))
    ensures Ok(r) && i !in Items(b) && Items(r) == Items(b)[i := item]
  {
    hide Placed, Compose, WithWord, WordAt, Availability, Offset, Size, SlotOf, Slots, Tiled, Items;
    SlotsPlaced(b, i, n, head, item, r);
    TiledPlaced(Slots(b), i, b.tail, |item|, Slots(r));
    PlacedParts(b.bytes, i, b.tail - |item|, item);
    if i in Items(b) {
      ItemsByIndex(b);
    }
    forall j
      ensures j in Items(r) <==> j in Items(b) || j == i
      ensures j in Items(r) ==> Items(r)[j] == if j == i then item else Items(b)[j]
    {
      ItemPlaced(b, i, item, r, j);
    }
  }

  lemma {:induction false} ItemPlaced(b: Block, i: nat, item: seq<Cell>, r: Block, j: int)
    requires Ok(b) && Ok(r) && i <= b.n && i !in Items(b) && 0 <= r.tail == b.tail - |item|
    requires Slots(r) == if i < b.n then Slots(b)[i := Item(r.tail, |item|)] else Slots(b) + [Item(r.tail, |item|)]
    requires r.bytes[r.tail..r.tail + |item|] == item && r.bytes[b.tail..] == b.bytes[b.tail..]
    ensures j in Items(r) <==> j in Items(b) || j == i
    ensures j in Items(r) ==> Items(r)[j] == if j == i then item else Items(b)[j]
  {
    hide WordAt, SlotOf, Slots, Tiled, Items;
    ItemsByIndex(b);
    ItemsByIndex(r);
    if j in Items(b) {
      assert Slots(r)[j] == Slots(b)[j];
      SlotBounds(Slots(b), b.tail, j);
      SameStretch(b.bytes, r.bytes, b.tail, Slots(b)[j].off, Slots(b)[j].off + Slots(b)[j].size);
    }
  }

  lemma {:induction false} PlacedParts(s: seq<Cell>, i: nat, tail: nat, item: seq<Cell>)
    requires HEADER + ID_SIZE * (i + 1) <= tail && tail + |item| <= |s|
    ensures var r := Placed(s, i, tail, item);
            |r| == |s| && r[tail..tail + |item|] == item && r[tail + |item|..] == s[tail + |item|..]
  {
    hide Compose, WithWord;
  }

  lemma {:induction false} SameStretch(s: seq<Cell>, t: seq<Cell>, from: nat, lo: nat, hi: nat)
    requires |s| == |t| && from <= lo <= hi <= |s| && s[from..] == t[from..]
    ensures s[lo..hi] == t[lo..hi]
  {
    forall x | lo <= x < hi
      ensures s[x] == t[x]
    {
      assert s[x] == s[from..][x - from] && t[x] == t[from..][x - from];
    }
  }

  lemma {:induction false} SlotBounds(slots: seq<Slot>, tail: int, i: int)
    requires Tiled(slots, tail) && Live(slots, i)
    ensures slots[i].size > 0 && tail <= slots[i].off && slots[i].off + slots[i].size <= BLOCK_SIZE
  {
  }

  lemma {:induction false} ItemsByIndex(b: Block)
    requires Ok(b)
    ensures forall j :: j in Items(b) <==> Live(Slots(b), j)
    ensures forall j :: j in Items(b) ==> Items(b)[j] == b.bytes[Slots(b)[j].off..Slots(b)[j].off + Slots(b)[j].size]
  {
  }

  /** There has to be enough space, which is what the callers make sure of. */
  method NewItem(b: Block, item: seq<Cell>) returns (r: Block, idx: int)
    requires Ok(b) && 0 < |item| <= FreeSpace(b)
    ensures Ok(r) && idx !in Items(b) && Items(r) == Items(b)[idx := item]
    ensures 0 <= idx <= b.n && forall i :: 0 <= i < idx ==> i in Items(b)
    ensures r.n == (if idx < b.n then b.n else b.n + 1) && r.tail == b.tail - |item|
  {
    hide Compose, WithWord, WordAt, Tiled, Items, Slots, Availability, Offset, Size, Placed;
    ItemsByIndex(b);
    var i := 0;
    while i < b.n
      invariant 0 <= i <= b.n
      invariant forall x :: 0 <= x < i ==> Slots(b)[x] != Vacant
    {
      var id := WordAt(b.bytes, i);
      SlotRead(b, i);
      OneBit(id);
      if Availability(id) == 1 {
        r := Place(b, i, b.n, b.head, item);
        ItemsPlaced(b, i, b.n, b.head, item, r);
        return r, i;
      }
      i := i + 1;
    }
    r := Place(b, b.n, b.n + 1, b.head + ID_SIZE, item);
    ItemsPlaced(b, b.n, b.n + 1, b.head + ID_SIZE, item, r);
    idx := b.n;
  }

  // ----- delete_item -----

  /** Where an item comes to lie when size bytes at off are taken out. */
  ghost function Closed(s: Slot, off: nat, size: nat): Slot {
    if s.Item? && s.off < off then Item(s.off + size, s.size) else s
  }

  /** The slots after the deletion of the item in slot idx. */
  ghost function SlotsAfter(slots: seq<Slot>, idx: nat): (r: seq<Slot>)
    requires Live(slots, idx)
    ensures |r| == if idx == |slots| - 1 then idx else |slots|
  {
    var n := if idx == |slots| - 1 then idx else |slots|;
    seq(n, i requires 0 <= i < n => if i == idx then Vacant else Closed(slots[i], slots[idx].off, slots[idx].size))
  }

  lemma {:induction false} Apart(slots: seq<Slot>, tail: int, i: int, j: int)
    requires Tiled(slots, tail) && Live(slots, i) && Live(slots, j) && i != j
    ensures slots[i].off + slots[i].size <= slots[j].off || slots[j].off + slots[j].size <= slots[i].off
  {
  }

  lemma {:induction false} CoveredAfter(slots: seq<Slot>, tail: nat, idx: nat, x: int)
    requires Tiled(slots, tail) && Live(slots, idx) && tail + slots[idx].size <= x < BLOCK_SIZE
    ensures Covered(SlotsAfter(slots, idx), x)
  {
    var off, size := slots[idx].off, slots[idx].size;
    var y := if x >= off + size then x else x - size;
    assert Covered(slots, y);
    var k :| 0 <= k < |slots| && Within(slots[k], y);
    SlotBounds(slots, tail, k);
    Apart(slots, tail, idx, k);
    assert Within(SlotsAfter(slots, idx)[k], x);
  }

  lemma {:induction false} TiledAfter(slots: seq<Slot>, tail: nat, idx: nat)
    requires Tiled(slots, tail) && Live(slots, idx)
    ensures Tiled(SlotsAfter(slots, idx), tail + slots[idx].size)
  {
    var out := SlotsAfter(slots, idx);
    var off, size := slots[idx].off, slots[idx].size;
    forall i | 0 <= i < |out| && out[i].Item?
      ensures out[i].size > 0 && tail + size <= out[i].off && out[i].off + out[i].size <= BLOCK_SIZE
    {
      SlotBounds(slots, tail, i);
      SlotBounds(slots, tail, idx);
      Apart(slots, tail, idx, i);
    }
    forall i, j | 0 <= i < j < |out| && out[i].Item? && out[j].Item?
      ensures out[i].off + out[i].size <= out[j].off || out[j].off + out[j].size <= out[i].off
    {
      Apart(slots, tail, i, j);
      Apart(slots, tail, idx, i);
      Apart(slots, tail, idx, j);
      SlotBounds(slots, tail, i);
      SlotBounds(slots, tail, j);
    }
    forall x | tail + size <= x < BLOCK_SIZE
      ensures Covered(out, x)
    {
      CoveredAfter(slots, tail, idx, x);
    }
  }

  /** The bytes after those from tail on have moved up by size over the item at off. */
  ghost function Shifted(s: seq<Cell>, tail: nat, off: nat, size: nat): (r: seq<Cell>)
    requires tail <= off && off + size <= |s|
    ensures |r| == |s|
  {
    s[..tail + size] + s[tail..off] + s[off + size..]
  }

  lemma {:induction false} ShiftedByte(s: seq<Cell>, tail: nat, off: nat, size: nat, x: nat)
    requires tail <= off && off + size <= |s| && x < |s|
    ensures Shifted(s, tail, off, size)[x] == if tail + size <= x < off + size then s[x - size] else s[x]
  {
  }

  method ShiftBytes(a: array<Cell>, tail: nat, off: nat, size: nat)
    requires tail <= off && off + size <= a.Length
    modifies a
    ensures a[..] == Shifted(old(a[..]), tail, off, size)
  {
    hide Shifted;
    ghost var was := a[..];
    for i := 0 to off - tail
      invariant forall x :: 0 <= x < off + size - i ==> a[x] == was[x]
      invariant forall x :: off + size - i <= x < off + size ==> a[x] == was[x - size]
      invariant forall x :: off + size <= x < a.Length ==> a[x] == was[x]
    {
      a[off + size - 1 - i] := a[off - 1 - i];
    }
    forall x | 0 <= x < a.Length
      ensures a[..][x] == Shifted(was, tail, off, size)[x]
    {
      ShiftedByte(was, tail, off, size, x);
    }
  }

  method GetWord(a: array<Cell>, i: nat) returns (w: nat)
    requires HEADER + ID_SIZE * (i + 1) <= a.Length
    ensures w == WordAt(a[..], i)
  {
    var p := HEADER + ID_SIZE * i;
    w := Val(a[p]) + 0x100 * Val(a[p + 1]) + 0x1_0000 * Val(a[p + 2]) + 0x100_0000 * Val(a[p + 3]);
  }

  /** The offsets of the items that have moved are corrected. */
  method CloseIds(a: array<Cell>, n: nat, offset: nat, size: nat)
    requires a.Length == BLOCK_SIZE && HEADER + ID_SIZE * n <= BLOCK_SIZE && offset + size <= BLOCK_SIZE
    modifies a
    ensures forall x :: 0 <= x < HEADER || HEADER + ID_SIZE * n <= x < BLOCK_SIZE ==> a[x] == old(a[x])
    ensures forall j :: 0 <= j < n ==> SlotOf(WordAt(a[..], j)) == Closed(SlotOf(old(WordAt(a[..], j))), offset, size)
  {
    hide WithWord, WordAt, Availability, Offset, Size, Compose;
    for i := 0 to n
      invariant forall x :: 0 <= x < HEADER || HEADER + ID_SIZE * n <= x < BLOCK_SIZE ==> a[x] == old(a[x])
      invariant forall j :: 0 <= j < i ==>
                  SlotOf(WordAt(a[..], j)) == Closed(SlotOf(old(WordAt(a[..], j))), offset, size)
      invariant forall j :: i <= j < n ==> WordAt(a[..], j) == old(WordAt(a[..], j))
    {
      var id := GetWord(a, i);
      OneBit(id);
      ghost var was := a[..];
      if Offset(id) < offset && Availability(id) == 0 {
        FieldsRead(id);
        RoundTrip(Availability(id), Offset(id) + size, Size(id));
        PutWord(a, i, Compose(Availability(id), Offset(id) + size, Size(id)));
        forall j | 0 <= j < n
          ensures WordAt(a[..], j) == if j == i then Compose(Availability(id), Offset(id) + size, Size(id))
                  else WordAt(was, j)
        {
          WordWritten(was, i, Compose(Availability(id), Offset(id) + size, Size(id)), j);
        }
      }
    }
  }

  /** What the byte and slot changes of a deletion amount to. */
  lemma {:induction false} ItemsDeleted(b: Block, idx: nat, r: Block)
    requires Ok(b) && idx in Items(b) && Live(Slots(b), idx) && Fits(r)
    requires r.n == (if idx == b.n - 1 then b.n - 1 else b.n) && r.head == HEADER + ID_SIZE * r.n
    requires r.tail == b.tail + Slots(b)[idx].size && 0 <= b.tail
             && Slots(b)[idx].off + Slots(b)[idx].size <= BLOCK_SIZE
    requires b.tail <= Slots(b)[idx].off
    requires Slots(r) == SlotsAfter(Slots(b), idx)
    requires r.bytes[r.tail..] == Shifted(b.bytes, b.tail, Slots(b)[idx].off, Slots(b)[idx].size)[r.tail..]
    ensures Ok(r) && Items(r) == Items(b) - {idx}
  {
    hide WordAt, SlotOf, Slots, Tiled, Items, Shifted;
    TiledAfter(Slots(b), b.tail, idx);
    forall j
      ensures j in Items(r) <==> j in Items(b) && j != idx
      ensures j in Items(r) ==> Items(r)[j] == Items(b)[j]
    {
      ItemKept(b, idx, r, j);
    }
  }

  lemma {:induction false} ItemKept(b: Block, idx: nat, r: Block, j: int)
    requires Ok(b) && idx in Items(b) && Live(Slots(b), idx) && Ok(r)
    requires r.tail == b.tail + Slots(b)[idx].size && 0 <= b.tail
             && Slots(b)[idx].off + Slots(b)[idx].size <= BLOCK_SIZE
    requires b.tail <= Slots(b)[idx].off
    requires Slots(r) == SlotsAfter(Slots(b), idx)
    requires r.bytes[r.tail..] == Shifted(b.bytes, b.tail, Slots(b)[idx].off, Slots(b)[idx].size)[r.tail..]
    ensures j in Items(r) <==> j in Items(b) && j != idx
    ensures j in Items(r) ==> Items(r)[j] == Items(b)[j]
  {
    hide WordAt, SlotOf, Slots, Tiled, Items, Shifted;
    ItemsByIndex(b);
    ItemsByIndex(r);
    if j in Items(r) {
      var off, size := Slots(b)[idx].off, Slots(b)[idx].size;
      var s, t := Slots(b)[j], Slots(r)[j];
      SlotBounds(Slots(b), b.tail, j);
      SlotBounds(Slots(r), r.tail, j);
      Apart(Slots(b), b.tail, idx, j);
      assert t == Closed(s, off, size);
      hide SlotsAfter;
      StretchKept(b.bytes, r.bytes, b.tail, off, size, s, t);
    }
  }

  lemma {:induction false} StretchKept(b: seq<Cell>, c: seq<Cell>, tail: nat, off: nat, size: nat, s: Slot, t: Slot)
    requires |b| == |c| == BLOCK_SIZE && tail <= off && off + size <= BLOCK_SIZE && s.Item? && t == Closed(s, off, size)
    requires tail <= s.off && s.off + s.size <= BLOCK_SIZE && (s.off + s.size <= off || off + size <= s.off)
    requires tail + size <= t.off && t.off + t.size <= BLOCK_SIZE
    requires c[tail + size..] == Shifted(b, tail, off, size)[tail + size..]
    ensures c[t.off..t.off + t.size] == b[s.off..s.off + s.size]
  {
    hide Shifted;
    SameStretch(c, Shifted(b, tail, off, size), tail + size, t.off, t.off + t.size);
    ShiftedStretch(b, tail, off, size, s.off, s.size);
  }

  lemma {:induction false} ShiftedStretch(b: seq<Cell>, tail: nat, off: nat, size: nat, o: nat, s: nat)
    requires tail <= off && off + size <= |b| && tail <= o && o + s <= |b|
    requires o + s <= off || off + size <= o
    ensures var at := if o < off then o + size else o;
            at + s <= |b| && Shifted(b, tail, off, size)[at..at + s] == b[o..o + s]
  {
    hide Shifted;
    var at := if o < off then o + size else o;
    var there, here := Shifted(b, tail, off, size)[at..at + s], b[o..o + s];
    forall x | 0 <= x < s
      ensures there[x] == here[x]
    {
      ShiftedByte(b, tail, off, size, at + x);
    }
  }

  /** Slots and bytes after CloseIds. */
  lemma {:induction false} IdsClosed(b: Block, idx: nat, n: nat, s0: seq<Cell>, s1: seq<Cell>, s2: seq<Cell>, r: Block)
    requires Ok(b) && Live(Slots(b), idx) && n == (if idx == b.n - 1 then b.n - 1 else b.n)
    requires s0 == if n == b.n then WithWord(b.bytes, idx, Compose(1, 0, 0)) else b.bytes
    requires |s2| == BLOCK_SIZE && 0 <= b.tail
    requires var off, size := Slots(b)[idx].off, Slots(b)[idx].size;
             && b.tail <= off && off + size <= BLOCK_SIZE
             && s1 == Shifted(s0, b.tail, off, size)
             && (forall x :: HEADER + ID_SIZE * n <= x < BLOCK_SIZE ==> s2[x] == s1[x])
             && (forall j :: 0 <= j < n ==> SlotOf(WordAt(s2, j)) == Closed(SlotOf(WordAt(s1, j)), off, size))
    requires r == Block(n, HEADER + ID_SIZE * n, b.tail + Slots(b)[idx].size, s2)
    ensures Fits(r) && Slots(r) == SlotsAfter(Slots(b), idx)
    ensures r.bytes[r.tail..] == Shifted(b.bytes, b.tail, Slots(b)[idx].off, Slots(b)[idx].size)[r.tail..]
  {
    hide WithWord, WordAt, Availability, Offset, Size, Compose, Tiled, Shifted;
    var off, size := Slots(b)[idx].off, Slots(b)[idx].size;
    RoundTrip(1, 0, 0);
    TailKept(b.bytes, s0, s2, b.tail, off, size);
    forall j | 0 <= j < n
      ensures SlotOf(WordAt(s1, j)) == if j == idx then Vacant else Slots(b)[j]
    {
      WordShifted(s0, b.tail, off, size, j);
      if n == b.n {
        WordWritten(b.bytes, idx, Compose(1, 0, 0), j);
      }
    }
  }

  /** The shift does not touch the item ids. */
  lemma {:induction false} WordShifted(s: seq<Cell>, tail: nat, off: nat, size: nat, j: nat)
    requires HEADER + ID_SIZE * (j + 1) <= tail <= off && off + size <= |s|
    ensures WordAt(Shifted(s, tail, off, size), j) == WordAt(s, j)
  {
    hide WordAt;
    SameWord(s, Shifted(s, tail, off, size), j);
  }

  /** Writing item ids does not touch the bytes of the items. */
  lemma {:induction false} TailKept(b: seq<Cell>, s0: seq<Cell>, s2: seq<Cell>, tail: nat, off: nat, size: nat)
    requires |b| == |s0| == |s2| && tail <= off && off + size <= |b|
    requires forall x :: tail <= x < |b| ==> s0[x] == b[x]
    requires forall x :: tail <= x < |b| ==> s2[x] == Shifted(s0, tail, off, size)[x]
    ensures s2[tail + size..] == Shifted(b, tail, off, size)[tail + size..]
  {
    hide Shifted;
    forall x | tail + size <= x < |b|
      ensures s2[x] == Shifted(b, tail, off, size)[x]
    {
      ShiftedByte(s0, tail, off, size, x);
      ShiftedByte(b, tail, off, size, x);
    }
  }

  /** The slots are those after the deletion of item idx. */
  ghost predicate SlotClosed(b: Block, idx: int, r: Block) {
    Fits(b) && Fits(r) && Live(Slots(b), idx) && Slots(r) == SlotsAfter(Slots(b), idx)
  }

  method DeleteItem(b: Block, idx: int) returns (r: Block)
    requires Ok(b) && idx in Items(b)
    ensures Ok(r) && Items(r) == Items(b) - {idx}
    ensures SlotClosed(b, idx, r)
    ensures r.n == (if idx == b.n - 1 then b.n - 1 else b.n) && r.tail == b.tail + |Items(b)[idx]|
  {
    hide WithWord, WordAt, Availability, Offset, Size, Compose, Tiled, Items, Shifted, SlotsAfter;
    ItemsByIndex(b);
    SlotBounds(Slots(b), b.tail, idx);
    var a := new Cell[BLOCK_SIZE](x requires 0 <= x < BLOCK_SIZE => b.bytes[x]);
    assert a[..] == b.bytes;
    var id := GetWord(a, idx);
    var offset, size := Offset(id), Size(id);
    assert Slots(b)[idx] == Item(offset, size);
    var n, head := b.n, b.head;
    if idx == n - 1 {
      n, head := n - 1, head - ID_SIZE;
    } else {
      PutWord(a, idx, Compose(1, 0, 0));
    }
    ghost var s0 := a[..];
    ShiftBytes(a, b.tail, offset, size);
    ghost var s1 := a[..];
    CloseIds(a, n, offset, size);
    r := Block(n, head, b.tail + size, a[..]);
    IdsClosed(b, idx, n, s0, s1, a[..], r);
    ItemsDeleted(b, idx, r);
  }

  /** The loop of table_read: the item byte by byte, through get_item. */
  method CopyItem(b: Block, idx: int) returns (item: seq<Cell>)
    requires Ok(b) && idx in Items(b)
    ensures item == Items(b)[idx]
  {
    hide WithWord, WordAt, Availability, Offset, Size, Compose, Tiled, Items;
    ItemsByIndex(b);
    SlotBounds(Slots(b), b.tail, idx);
    var id := WordAt(b.bytes, idx);
    assert Slots(b)[idx] == SlotOf(id);
    var size := Size(id);
    item := [];
    var i := 0;
    while i < size
      invariant 0 <= i <= size == |Items(b)[idx]| && item == Items(b)[idx][..i]
    {
      var at := GetItem(b, idx);
      assert b.bytes[at + i] == Items(b)[idx][i];
      item := item + [b.bytes[at + i]];
      i := i + 1;
    }
  }
}
