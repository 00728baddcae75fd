/**
 The pages of the index file, and the code that shifts rows and children about in them.
 */
module IndexPages {
  import opened Rids
  import opened Seqs
  import opened Loops

  datatype IndexPage =
    | Ctrl(root: int, freeHead: int)
    | BNode(n: int, next: int, child: seq<int>, row: seq<Rid>, leaf: bool)

  /** A node page for degree d has 2d rows and 2d + 1 children. */
  predicate Shaped(p: IndexPage, d: nat) {
    && p.BNode?
    && 0 <= p.n <= 2 * d
    && |p.row| == 2 * d
    && |p.child| == 2 * d + 1
  }

  /** The rows and children in use. */
  function RowsOf(p: IndexPage): seq<Rid>
    requires p.BNode? && 0 <= p.n <= |p.row|
  {
    p.row[..p.n]
  }

  function KidsOf(p: IndexPage): seq<int>
    requires p.BNode? && 0 <= p.n < |p.child|
  {
    p.child[..p.n + 1]
  }

  /** What a new node looks like once its children and rows have been set to -1 and rid_null. */
  function Blank(d: nat): IndexPage {
    BNode(0, -1, seq(2 * d + 1, _ => -1), seq(2 * d, _ => NULL_RID), false)
  }

  // ----- Insertion -----

  /** A leaf with room. */
  method InsertRow(p: IndexPage, d: nat, index: nat, rid: Rid) returns (r: IndexPage)
    requires Shaped(p, d) && index <= p.n < 2 * d
    ensures Shaped(r, d) && r.leaf == p.leaf && r.next == p.next
    ensures RowsOf(r) == InsertAt(RowsOf(p), index, rid)
  {
    var row := ShiftedIn(p.row, p.n, index, rid);
    r := p.(n := p.n + 1, row := row);
  }

  /** The rows of a full leaf: one more comes in, the upper ones go to a new leaf. */
  method SplitRows(row: seq<Rid>, d: nat, index: nat, rid: Rid) returns (r: seq<Rid>, node: seq<Rid>)
    requires |row| == 2 * d && index <= 2 * d && d >= 2
    ensures |r| == |node| == 2 * d
    ensures r[..d] == InsertAt(row, index, rid)[..d]
    ensures node[..d + 1] == InsertAt(row, index, rid)[d..]
  {
    node := Blank(d).row;
    if index >= d {
      InsertAbove(row, index, rid, d);
      node := CopiedAround(node, row, d, index - d, rid);
      r := Filled(row, d, 2 * d, NULL_RID);
    } else {
      InsertBelow(row, index, rid, d);
      node := Copied(node, row, 0, d + 1, d - 1);
      r := Filled(row, d - 1, 2 * d, NULL_RID);
      assert r[..d - 1] == row[..d - 1];
      r := ShiftedIn(r, d - 1, index, rid);
    }
  }

  /** Insertion at or after position d leaves what comes before it alone. */
  lemma {:induction false} InsertAbove<T>(s: seq<T>, i: nat, x: T, d: nat)
    requires d <= i <= |s|
    ensures InsertAt(s, i, x)[..d] == s[..d]
    ensures InsertAt(s, i, x)[d..] == InsertAt(s[d..], i - d, x)
  {
  }

  /** Insertion before position d moves one entry across it. */
  lemma {:induction false} InsertBelow<T>(s: seq<T>, i: nat, x: T, d: nat)
    requires i < d <= |s|
    ensures InsertAt(s, i, x)[..d] == InsertAt(s[..d - 1], i, x)
    ensures InsertAt(s, i, x)[d..] == s[d - 1..]
  {
  }

  /** r and q share the rows of the full leaf page p and the new row rid. */
  ghost predicate Halved(p: IndexPage, d: nat, index: nat, rid: Rid, r: IndexPage, q: IndexPage) {
    && Shaped(p, d) && p.n == 2 * d && index <= p.n && Shaped(r, d) && Shaped(q, d)
    && RowsOf(r) == InsertAt(RowsOf(p), index, rid)[..d] && RowsOf(q) == InsertAt(RowsOf(p), index, rid)[d..]
  }

  /** A full leaf is split; the new leaf will live at addr. */
  method SplitLeaf(p: IndexPage, d: nat, index: nat, rid: Rid, addr: int) returns (r: IndexPage, q: IndexPage)
    requires d >= 2 && Shaped(p, d) && p.n == 2 * d && index <= p.n
    ensures Shaped(r, d) && r.leaf == p.leaf && r.next == addr
    ensures Shaped(q, d) && q.leaf && q.next == p.next
    ensures RowsOf(r) == InsertAt(RowsOf(p), index, rid)[..d]
    ensures RowsOf(q) == InsertAt(RowsOf(p), index, rid)[d..]
  {
    var row, node := SplitRows(p.row, d, index, rid);
    assert RowsOf(p) == p.row;
    r := p.(n := d, next := addr, row := row);
    q := Blank(d);
    q := q.(n := d + 1, next := p.next, row := node, leaf := true);
  }

  /** An inner node with room takes the new separator at index and the new child after child index. */
  method InsertChild(p: IndexPage, d: nat, index: nat, rid: Rid, addr: int) returns (r: IndexPage)
    requires Shaped(p, d) && index <= p.n < 2 * d
    ensures Shaped(r, d) && r.leaf == p.leaf && r.next == p.next
    ensures RowsOf(r) == InsertAt(RowsOf(p), index, rid)
    ensures KidsOf(r) == InsertAt(KidsOf(p), index + 1, addr)
  {
    var row := ShiftedIn(p.row, p.n, index, rid);
    var child := ShiftedIn(p.child, p.n + 1, index + 1, addr);
    r := p.(n := p.n + 1, row := row, child := child);
  }

  /** The separators of a full inner node: one more comes in, the middle one goes up. */
  method SplitSeps(row: seq<Rid>, d: nat, index: nat, rid: Rid) returns (r: seq<Rid>, up: Rid, node: seq<Rid>)
    requires |row| == 2 * d && index <= 2 * d && d >= 2
    ensures |r| == |node| == 2 * d
    ensures r[..d] == InsertAt(row, index, rid)[..d]
    ensures up == InsertAt(row, index, rid)[d]
    ensures node[..d] == InsertAt(row, index, rid)[d + 1..]
  {
    hide InsertAt;
    InsertMiddle(row, index, rid, d);
    node := Blank(d).row;
    if index > d {
      up := row[d];
      node := CopiedAround(node, row, d + 1, index - d - 1, rid);
      r := Filled(row, d, 2 * d, NULL_RID);
    } else if index == d {
      up := rid;
      node := Copied(node, row, 0, d, d);
      r := Filled(row, d, 2 * d, NULL_RID);
    } else {
      up := row[d - 1];
      node := Copied(node, row, 0, d, d);
      r := Filled(row, d, 2 * d, NULL_RID);
      assert r[..d - 1] == row[..d - 1];
      r := ShiftedIn(r, d - 1, index, rid);
    }
  }

  /** What stands below, at and above position d after an insertion. */
  lemma {:induction false} InsertMiddle<T>(s: seq<T>, i: nat, x: T, d: nat)
    requires i <= |s| && d < |s|
    ensures var all := InsertAt(s, i, x);
            if i > d then all[..d] == s[..d] && all[d] == s[d] && all[d + 1..] == InsertAt(s[d + 1..], i - d - 1, x)
            else if i == d then all[..d] == s[..d] && all[d] == x && all[d + 1..] == s[d..]
            else all[..d] == InsertAt(s[..d - 1], i, x) && all[d] == s[d - 1] && all[d + 1..] == s[d..]
  {
  }

  lemma {:induction false} InsertFirst<T>(s: seq<T>, x: T)
    ensures InsertAt(s, 0, x) == [x] + s
  {
  }

  /** The children of a full inner node: one more comes in. */
  method SplitKids(child: seq<int>, d: nat, index: nat, addr: int) returns (r: seq<int>, node: seq<int>)
    requires |child| == 2 * d + 1 && index <= 2 * d && d >= 2
    ensures |r| == |node| == 2 * d + 1
    ensures r[..d + 1] == InsertAt(child, index + 1, addr)[..d + 1]
    ensures node[..d + 1] == InsertAt(child, index + 1, addr)[d + 1..]
  {
    hide InsertAt;
    r, node := child, Blank(d).child;
    if index > d {
      InsertAbove(child, index + 1, addr, d + 1);
      node := CopiedAround(node, child, d + 1, index - d, addr);
      ghost var was := node;
      node := Filled(node, d + 1, 2 * d, -1);
      assert node[..d + 1] == was[..d + 1];
    } else if index == d {
      InsertAbove(child, index + 1, addr, d + 1);
      InsertFirst(child[d + 1..], addr);
      node := node[0 := addr];
      node := Copied(node, child, 1, d + 1, d);
    } else {
      InsertBelow(child, index + 1, addr, d + 1);
      node := Copied(node, child, 0, d + 1, d);
      r := ShiftedIn(child, d, index + 1, addr);
    }
  }

  /** r and q share the rows and children of the full inner page p and the new ones, but for the middle row up. */
  ghost predicate NodeHalves(p: IndexPage, d: nat, index: nat, rid: Rid, addr: int, r: IndexPage, up: Rid,
                             q: IndexPage) {
    && Shaped(p, d) && p.n == 2 * d && index <= p.n && Shaped(r, d) && !r.leaf && Shaped(q, d) && !q.leaf
    && var rids, addrs := InsertAt(RowsOf(p), index, rid), InsertAt(KidsOf(p), index + 1, addr);
    && RowsOf(r) == rids[..d] && up == rids[d] && RowsOf(q) == rids[d + 1..]
    && KidsOf(r) == addrs[..d + 1] && KidsOf(q) == addrs[d + 1..]
  }

  /** A full inner node is split around its middle separator. */
  method SplitNode(p: IndexPage, d: nat, index: nat, rid: Rid, addr: int)
    returns (r: IndexPage, up: Rid, q: IndexPage)
    requires d >= 2 && Shaped(p, d) && p.n == 2 * d && index <= p.n && !p.leaf
    ensures Shaped(r, d) && Shaped(q, d) && NodeHalves(p, d, index, rid, addr, r, up, q)
  {
    var row, child, nodeRow, nodeChild;
    row, up, nodeRow := SplitSeps(p.row, d, index, rid);
    child, nodeChild := SplitKids(p.child, d, index, addr);
    assert RowsOf(p) == p.row && KidsOf(p) == p.child;
    r := p.(n := d, row := row, child := child);
    q := Blank(d);
    q := q.(n := d, row := nodeRow, child := nodeChild);
  }

  /** The new root above the two halves of the old one. */
  method NewRoot(d: nat, left: int, rid: Rid, right: int) returns (r: IndexPage)
    requires d >= 2
    ensures Shaped(r, d) && !r.leaf && RowsOf(r) == [rid] && KidsOf(r) == [left, right]
  {
    r := Blank(d);
    r := r.(n := 1, row := r.row[0 := rid], child := r.child[0 := left][1 := right]);
  }

  // ----- Deletion -----

  /** A leaf that can spare the row before index. */
  method RemoveRow(p: IndexPage, d: nat, index: nat) returns (r: IndexPage)
    requires Shaped(p, d) && 1 <= index <= p.n
    ensures Shaped(r, d) && r.leaf == p.leaf && r.next == p.next
    ensures RowsOf(r) == RemoveAt(RowsOf(p), index - 1)
  {
    var row := ShiftedOut(p.row, p.n, index - 1, NULL_RID);
    r := p.(n := p.n - 1, row := row);
  }

  /** An inner node loses the separator before index and the child at index. */
  method RemoveChild(p: IndexPage, d: nat, index: nat) returns (r: IndexPage)
    requires Shaped(p, d) && 1 <= index <= p.n
    ensures Shaped(r, d) && r.leaf == p.leaf && r.next == p.next
    ensures RowsOf(r) == RemoveAt(RowsOf(p), index - 1)
    ensures KidsOf(r) == RemoveAt(KidsOf(p), index)
  {
    var row := ShiftedOut(p.row, p.n, index - 1, NULL_RID);
    var child := ShiftedOut(p.child, p.n + 1, index, -1);
    r := p.(n := p.n - 1, row := row, child := child);
  }

  /** In a minimal leaf, the rows after index move down over the row before it. */
  method CloseGapDown(row: seq<Rid>, d: nat, index: nat) returns (r: seq<Rid>)
    requires 1 <= index <= d < |row|
    ensures |r| == |row| && r[..d - 1] == RemoveAt(row[..d], index - 1)
  {
    var a := Load(row);
    Copy(a, a, index - 1, d - 1, 1);
    r := a[..];
    MovedDown(row, r, d, index);
  }

  /** In a minimal leaf, the rows before that row move up over it. */
  method CloseGapUp(row: seq<Rid>, d: nat, index: nat) returns (r: seq<Rid>)
    requires 1 <= index <= d < |row|
    ensures |r| == |row| && r[1..d] == RemoveAt(row[..d], index - 1)
  {
    var a := Load(row);
    ShiftUp(a, 0, index - 1);
    r := a[..];
    MovedUp(row, r, d, index);
  }

  lemma {:induction false} MovedUp(row: seq<Rid>, r: seq<Rid>, d: nat, index: nat)
    requires 1 <= index <= d < |row| && r == row[..1] + row[..index - 1] + row[index..]
    ensures r[1..d] == RemoveAt(row[..d], index - 1)
  {
    var there, here := r[1..d], RemoveAt(row[..d], index - 1);
    forall x | 0 <= x < d - 1
      ensures there[x] == here[x]
    {
      RemovedAt(row[..d], index - 1, x);
    }
  }

  lemma {:induction false} MovedDown(row: seq<Rid>, r: seq<Rid>, d: nat, index: nat)
    requires 1 <= index <= d < |row| && r == row[..index - 1] + row[index..d] + row[d - 1..]
    ensures r[..d - 1] == RemoveAt(row[..d], index - 1)
  {
    var there, here := r[..d - 1], RemoveAt(row[..d], index - 1);
    forall x | 0 <= x < d - 1
      ensures there[x] == here[x]
    {
      RemovedAt(row[..d], index - 1, x);
    }
  }

  /** The row before index leaves a minimal leaf, which takes the first row of its right sibling. */
  method LeafBorrowRight(child: IndexPage, sibling: IndexPage, d: nat, index: nat) returns (c: IndexPage, s: IndexPage)
    requires d >= 2 && Shaped(child, d) && Shaped(sibling, d) && child.n == d < sibling.n && 1 <= index <= d
    ensures Shaped(c, d) && c.leaf == child.leaf && c.next == child.next
    ensures Shaped(s, d) && s.leaf == sibling.leaf && s.next == sibling.next
    ensures c.n == child.n && s.n == sibling.n - 1
    ensures RowsOf(c) == RemoveAt(RowsOf(child), index - 1) + [RowsOf(sibling)[0]]
    ensures RowsOf(s) == RowsOf(sibling)[1..]
  {
    var row := CloseGapDown(child.row, d, index);
    c := child.(row := row[d - 1 := sibling.row[0]]);
    var srow := ShiftedOut(sibling.row, sibling.n, 0, NULL_RID);
    s := sibling.(n := sibling.n - 1, row := srow);
  }

  /** The row before index leaves a minimal leaf, which takes over its minimal right sibling. */
  method LeafMergeRight(child: IndexPage, sibling: IndexPage, d: nat, index: nat) returns (c: IndexPage)
    requires d >= 2 && Shaped(child, d) && Shaped(sibling, d) && child.n == d == sibling.n && 1 <= index <= d
    ensures Shaped(c, d) && c.leaf == child.leaf && c.next == sibling.next
    ensures c.n == child.n - 1 + sibling.n
    ensures RowsOf(c) == RemoveAt(RowsOf(child), index - 1) + RowsOf(sibling)
  {
    var row := CloseGapDown(child.row, d, index);
    row := Copied(row, sibling.row, d - 1, 2 * d - 1, 1 - d);
    c := child.(n := 2 * d - 1, next := sibling.next, row := row);
  }

  /** The row before index leaves a minimal leaf, which takes the last row of its left sibling. */
  method LeafBorrowLeft(child: IndexPage, sibling: IndexPage, d: nat, index: nat) returns (c: IndexPage, s: IndexPage)
    requires d >= 2 && Shaped(child, d) && Shaped(sibling, d) && child.n == d < sibling.n && 1 <= index <= d
    ensures Shaped(c, d) && c.leaf == child.leaf && c.next == child.next
    ensures Shaped(s, d) && s.leaf == sibling.leaf && s.next == sibling.next
    ensures c.n == child.n && s.n == sibling.n - 1
    ensures RowsOf(c) == [RowsOf(sibling)[sibling.n - 1]] + RemoveAt(RowsOf(child), index - 1)
    ensures RowsOf(s) == RowsOf(sibling)[..sibling.n - 1]
  {
    var row := CloseGapUp(child.row, d, index);
    c := child.(row := row[0 := sibling.row[sibling.n - 1]]);
    s := sibling.(n := sibling.n - 1, row := sibling.row[sibling.n - 1 := NULL_RID]);
  }

  /** The row before index leaves a minimal leaf, which its minimal left sibling takes over. */
  method LeafMergeLeft(child: IndexPage, sibling: IndexPage, d: nat, index: nat) returns (s: IndexPage)
    requires d >= 2 && Shaped(child, d) && Shaped(sibling, d) && child.n == d == sibling.n && 1 <= index <= d
    ensures Shaped(s, d) && s.leaf == sibling.leaf && s.next == child.next
    ensures s.n == child.n - 1 + sibling.n
    ensures RowsOf(s) == RowsOf(sibling) + RemoveAt(RowsOf(child), index - 1)
  {
    var row := CloseGapUp(child.row, d, index);
    var srow := Copied(sibling.row, row, d, 2 * d - 1, 1 - d);
    s := sibling.(n := 2 * d - 1, next := child.next, row := srow);
    assert RowsOf(s) == RowsOf(sibling) + row[1..d];
  }

  /** A node one short takes the separator sep from above and the first child of its right sibling. */
  method NodeBorrowRight(child: IndexPage, sibling: IndexPage, d: nat, sep: Rid)
    returns (c: IndexPage, up: Rid, s: IndexPage)
    requires d >= 2 && Shaped(child, d) && Shaped(sibling, d) && child.n == d - 1 && d < sibling.n
    ensures Shaped(c, d) && c.leaf == child.leaf && Shaped(s, d) && s.leaf == sibling.leaf
    ensures c.n == child.n + 1 && s.n == sibling.n - 1
    ensures RowsOf(c) == RowsOf(child) + [sep] && KidsOf(c) == KidsOf(child) + [KidsOf(sibling)[0]]
    ensures up == RowsOf(sibling)[0]
    ensures RowsOf(s) == RowsOf(sibling)[1..] && KidsOf(s) == KidsOf(sibling)[1..]
  {
    c := child.(n := child.n + 1, row := child.row[child.n := sep],
                child := child.child[child.n + 1 := sibling.child[0]]);
    up := sibling.row[0];
    var row := ShiftedOut(sibling.row, sibling.n, 0, NULL_RID);
    var kid := ShiftedOut(sibling.child, sibling.n + 1, 0, -1);
    s := sibling.(n := sibling.n - 1, row := row, child := kid);
  }

  /** A node one short takes over its minimal right sibling, with sep between the two parts. */
  method NodeMergeRight(child: IndexPage, sibling: IndexPage, d: nat, sep: Rid) returns (c: IndexPage)
    requires d >= 2 && Shaped(child, d) && Shaped(sibling, d) && child.n == d - 1 && sibling.n == d
    ensures Shaped(c, d) && c.leaf == child.leaf && c.next == sibling.next
    ensures RowsOf(c) == RowsOf(child) + [sep] + RowsOf(sibling) && KidsOf(c) == KidsOf(child) + KidsOf(sibling)
  {
    var row := Copied(child.row[child.n := sep], sibling.row, d, 2 * d, 0 - d);
    var kid := Copied(child.child, sibling.child, d, 2 * d + 1, 0 - d);
    c := child.(n := 2 * d, next := sibling.next, row := row, child := kid);
  }

  /** A node one short takes the separator sep from above and the last child of its left sibling. */
  method NodeBorrowLeft(child: IndexPage, sibling: IndexPage, d: nat, sep: Rid)
    returns (c: IndexPage, up: Rid, s: IndexPage)
    requires d >= 2 && Shaped(child, d) && Shaped(sibling, d) && child.n == d - 1 && d < sibling.n
    ensures Shaped(c, d) && c.leaf == child.leaf && Shaped(s, d) && s.leaf == sibling.leaf
    ensures c.n == child.n + 1 && s.n == sibling.n - 1
    ensures RowsOf(c) == [sep] + RowsOf(child) && KidsOf(c) == [KidsOf(sibling)[sibling.n]] + KidsOf(child)
    ensures up == RowsOf(sibling)[sibling.n - 1]
    ensures RowsOf(s) == RowsOf(sibling)[..sibling.n - 1] && KidsOf(s) == KidsOf(sibling)[..sibling.n]
  {
    var row := ShiftedIn(child.row, d - 1, 0, sep);
    var kid := ShiftedIn(child.child, d, 0, sibling.child[sibling.n]);
    c := child.(n := child.n + 1, row := row, child := kid);
    up := sibling.row[sibling.n - 1];
    s := sibling.(n := sibling.n - 1, row := sibling.row[sibling.n - 1 := NULL_RID],
                  child := sibling.child[sibling.n := -1]);
  }

  /** A node one short is taken over by its minimal left sibling, with sep between the two parts. */
  method NodeMergeLeft(child: IndexPage, sibling: IndexPage, d: nat, sep: Rid) returns (s: IndexPage)
    requires d >= 2 && Shaped(child, d) && Shaped(sibling, d) && child.n == d - 1 && sibling.n == d
    ensures Shaped(s, d) && s.leaf == sibling.leaf && s.next == child.next
    ensures RowsOf(s) == RowsOf(sibling) + [sep] + RowsOf(child) && KidsOf(s) == KidsOf(sibling) + KidsOf(child)
  {
    var row := Copied(sibling.row[d := sep], child.row, d + 1, 2 * d, 0 - d - 1);
    var kid := Copied(sibling.child, child.child, d + 1, 2 * d + 1, 0 - d - 1);
    s := sibling.(n := 2 * d, next := child.next, row := row, child := kid);
  }
}
