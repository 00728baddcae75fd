/**
 What the bytes of records and pages are: plain bytes, or the parts of a record identifier.
 A RID occupies ten of them; how its block address is split into bytes is not modelled.
 */
module Cells {
  import opened Rids
  import opened Texts

  datatype Cell = Byte(val: nat) | RidPart(rid: Rid, part: nat)

  const RID_SIZE: nat := 10

  function RidCells(r: Rid): (s: seq<Cell>)
    ensures |s| == RID_SIZE
  {
    seq(RID_SIZE, k requires 0 <= k < RID_SIZE => RidPart(r, k))
  }

  function RidOf(s: seq<Cell>): Rid {
    if |s| == RID_SIZE && s[0].RidPart? && s == RidCells(s[0].rid) then s[0].rid else NULL_RID
  }

  lemma {:induction false} RidRoundTrip(r: Rid)
    ensures RidOf(RidCells(r)) == r
  {
    assert RidCells(r)[0] == RidPart(r, 0);
  }

  /** A short that is not negative, as two bytes. */
  function ShortCells(x: nat): (s: seq<Cell>)
    ensures |s| == 2
  {
    [Byte(x % 256), Byte(x / 256 % 256)]
  }

  function Val(c: Cell): nat {
    if c.Byte? then c.val else 0
  }

  function ShortOf(s: seq<Cell>): nat {
    if |s| == 2 then Val(s[0]) + 256 * Val(s[1]) else 0
  }

  lemma {:induction false} ShortRoundTrip(x: nat)
    requires x < 0x8000
    ensures ShortOf(ShortCells(x)) == x
  {
  }

  function CharCell(c: Char): Cell {
    Byte(if c < 0 then c + 256 else c)
  }

  function CharOf(c: Cell): Char {
    if c.Byte? && c.val < 256 then (if c.val < 128 then c.val else c.val - 256) else 0
  }

  lemma {:induction false} CharRoundTrip(c: Char)
    ensures CharOf(CharCell(c)) == c
  {
  }

  function CharCells(t: Text): (s: seq<Cell>)
    ensures |s| == |t|
  {
    seq(|t|, i requires 0 <= i < |t| => CharCell(t[i]))
  }
}
