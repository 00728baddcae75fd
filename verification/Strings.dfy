/** Strings of any length, as chains of chunks in a table. */
module Strings {
  import opened Rids
  import opened Cells
  import opened Texts
  import opened Tables

  const CHUNK_SIZE: nat := 32
  const CHUNK_LEN: nat := 20
  const HEAD: nat := 12

  /** A chunk: the next chunk, the number of chars, the chars. */
  function Chunk(next: Rid, chars: Text): (c: seq<Cell>)
    ensures |c| == HEAD + |chars|
  {
    RidCells(next) + ShortCells(|chars|) + CharCells(chars)
  }

  function NextOf(c: seq<Cell>): Rid
    requires |c| >= HEAD
  {
    RidOf(c[..RID_SIZE])
  }

  function SizeOf(c: seq<Cell>): nat
    requires |c| >= HEAD
  {
    ShortOf(c[RID_SIZE..HEAD])
  }

  /** Reading the parts of a chunk back, also from a buffer that is longer than the chunk. */
  lemma {:induction false} ChunkRoundTrip(next: Rid, chars: Text, rest: seq<Cell>)
    requires |chars| <= CHUNK_LEN
    ensures var c := Chunk(next, chars) + rest;
            && NextOf(c) == next && SizeOf(c) == |chars|
            && (forall i :: 0 <= i < |chars| ==> CharOf(c[HEAD + i]) == chars[i])
  {
    var c := Chunk(next, chars) + rest;
    assert c[..RID_SIZE] == RidCells(next);
    assert c[RID_SIZE..HEAD] == ShortCells(|chars|);
    RidRoundTrip(next);
    ShortRoundTrip(|chars|);
    forall i | 0 <= i < |chars|
      ensures CharOf(c[HEAD + i]) == chars[i]
    {
      assert c[HEAD + i] == CharCells(chars)[i];
      CharRoundTrip(chars[i]);
    }
  }

  type Items = map<Rid, seq<Cell>>

  /** The chunks at rids spell text. Only the empty string has an empty chunk. */
  ghost predicate Spells(live: Items, rids: seq<Rid>, text: Text)
    decreases |rids|
  {
    && rids != [] && rids[0] in live && rids[0].addr >= 0
    && if |rids| == 1 then |text| <= CHUNK_LEN && live[rids[0]] == Chunk(NULL_RID, text)
       else
         exists n | 1 <= n <= CHUNK_LEN && n < |text| ::
           live[rids[0]] == Chunk(rids[1], text[..n]) && Spells(live, rids[1..], text[n..])
  }

  /** The same for the chunks after the one that a record is in, of which there may be none. */
  ghost predicate Continues(live: Items, next: Rid, rids: seq<Rid>, text: Text) {
    if rids == [] then text == [] && next == NULL_RID
    else text != [] && next == rids[0] && Spells(live, rids, text)
  }

  /** The first chunk of a string and what comes after it. */
  lemma {:induction false} FirstChunk(live: Items, rids: seq<Rid>, text: Text) returns (next: Rid, n: nat)
    requires Spells(live, rids, text)
    ensures n <= CHUNK_LEN && n <= |text| && (text != [] ==> n > 0) && rids[0].addr >= 0
    ensures rids[0] in live && live[rids[0]] == Chunk(next, text[..n]) && Continues(live, next, rids[1..], text[n..])
  {
    if |rids| == 1 {
      next, n := NULL_RID, |text|;
      assert text[..n] == text && text[n..] == [];
    } else {
      n :| 1 <= n <= CHUNK_LEN && n < |text| && live[rids[0]] == Chunk(rids[1], text[..n])
          && Spells(live, rids[1..], text[n..]);
      next := rids[1];
    }
  }

  /** The same where all chunks but the last one are full: what write_string makes of a text. */
  ghost predicate Evenly(live: Items, rids: seq<Rid>, text: Text)
    decreases |rids|
  {
    && rids != [] && rids[0] in live && rids[0].addr >= 0
    && if |text| <= CHUNK_LEN then |rids| == 1 && live[rids[0]] == Chunk(NULL_RID, text)
       else
         && |rids| > 1 && live[rids[0]] == Chunk(rids[1], text[..CHUNK_LEN])
         && Evenly(live, rids[1..], text[CHUNK_LEN..])
  }

  lemma {:induction false} EvenlySpells(live: Items, rids: seq<Rid>, text: Text)
    requires Evenly(live, rids, text)
    ensures Spells(live, rids, text)
    decreases |rids|
  {
    hide Chunk;
    if |text| > CHUNK_LEN {
      EvenlySpells(live, rids[1..], text[CHUNK_LEN..]);
    }
  }

  lemma {:induction false} EvenlyFrame(live0: Items, live1: Items, rids: seq<Rid>, text: Text)
    requires Evenly(live0, rids, text)
    requires forall r :: r in rids ==> r in live0 ==> r in live1 && live1[r] == live0[r]
    ensures Evenly(live1, rids, text)
    decreases |rids|
  {
    hide Chunk;
    assert rids[0] in rids;
    if |text| > CHUNK_LEN {
      forall r | r in rids[1..]
        ensures r in rids
      {
      }
      EvenlyFrame(live0, live1, rids[1..], text[CHUNK_LEN..]);
    }
  }

  /** A full chunk in front of a string. */
  lemma {:induction false} ChunkBefore(live: Items, r: Rid, rids: seq<Rid>, chars: Text, text: Text)
    requires Evenly(live, rids, text) && text != [] && |chars| == CHUNK_LEN
    requires r in live && r.addr >= 0 && live[r] == Chunk(rids[0], chars)
    ensures Evenly(live, [r] + rids, chars + text)
  {
    hide Chunk;
    assert (chars + text)[..CHUNK_LEN] == chars && (chars + text)[CHUNK_LEN..] == text;
    assert ([r] + rids)[1..] == rids;
  }

  lemma {:induction false} SpellsFrame(live0: Items, live1: Items, rids: seq<Rid>, text: Text)
    requires Spells(live0, rids, text)
    requires forall r :: r in rids ==> r in live0 ==> r in live1 && live1[r] == live0[r]
    ensures Spells(live1, rids, text)
    decreases |rids|
  {
    assert rids[0] in rids;
    if |rids| > 1 {
      var n :| 1 <= n <= CHUNK_LEN && n < |text| && live0[rids[0]] == Chunk(rids[1], text[..n])
          && Spells(live0, rids[1..], text[n..]);
      forall r | r in rids[1..]
        ensures r in rids
      {
      }
      SpellsFrame(live0, live1, rids[1..], text[n..]);
    }
  }

  lemma {:induction false} SpellsLive(live: Items, rids: seq<Rid>, text: Text)
    requires Spells(live, rids, text)
    ensures forall k :: 0 <= k < |rids| ==> rids[k] in live && rids[k].addr >= 0
    decreases |rids|
  {
    if |rids| > 1 {
      var n :| 1 <= n <= CHUNK_LEN && n < |text| && live[rids[0]] == Chunk(rids[1], text[..n])
          && Spells(live, rids[1..], text[n..]);
      SpellsLive(live, rids[1..], text[n..]);
      forall k | 0 <= k < |rids|
        ensures rids[k] in live && rids[k].addr >= 0
      {
        assert k > 0 ==> rids[k] == rids[1..][k - 1];
      }
    }
  }

  // ----- Reading char by char -----

  /** The buffer of 32 bytes and the position in it. */
  datatype StringRecord = StringRecord(chunk: seq<Cell>, idx: int)

  const BLANK := StringRecord(seq(CHUNK_SIZE, _ => Byte(0)), 0)

  /** text is still to be read; rids are the chunks to come. */
  ghost predicate Reads(live: Items, rec: StringRecord, rids: seq<Rid>, text: Text) {
    && |rec.chunk| == CHUNK_SIZE
    && 0 <= rec.idx <= SizeOf(rec.chunk) <= CHUNK_LEN
    && var left := SizeOf(rec.chunk) - rec.idx;
       && left <= |text|
       && (forall i :: 0 <= i < left ==> CharOf(rec.chunk[HEAD + rec.idx + i]) == text[i])
       && Continues(live, NextOf(rec.chunk), rids, text[left..])
  }

  /** has_next_char */
  method HasNext(rec: StringRecord, ghost live: Items, ghost rids: seq<Rid>, ghost text: Text) returns (more: bool)
    requires Reads(live, rec, rids, text)
    ensures more <==> text != []
  {
    var size := SizeOf(rec.chunk);
    var rid := NextOf(rec.chunk);
    more := rec.idx != size || rid.addr != -1;
  }

  /** A chunk that has just been read into the buffer. */
  lemma {:induction false} ReadsFirst(live: Items, rids: seq<Rid>, text: Text, buffer: seq<Cell>, rec: StringRecord)
    requires Spells(live, rids, text) && |buffer| == CHUNK_SIZE
    requires rids != [] && rids[0] in live
             && rec == StringRecord(live[rids[0]] + buffer[Least(|live[rids[0]]|, CHUNK_SIZE)..], 0)
    ensures Reads(live, rec, rids[1..], text) && |live[rids[0]]| <= CHUNK_SIZE
    ensures text != [] ==> SizeOf(rec.chunk) > 0
  {
    hide Spells;
    var next, n := FirstChunk(live, rids, text);
    ChunkRoundTrip(next, text[..n], buffer[HEAD + n..]);
  }

  function Least(a: nat, b: nat): (r: nat)
    ensures r <= a && r <= b
  {
    if a < b then a else b
  }

  /** The first n chars of a text, or all of it. */
  function Prefix(t: Text, n: nat): Text {
    t[..Least(|t|, n)]
  }

  /** One char further in the same chunk. */
  lemma {:induction false} ReadsOn(live: Items, rec: StringRecord, rids: seq<Rid>, text: Text)
    requires Reads(live, rec, rids, text) && rec.idx != SizeOf(rec.chunk)
    ensures text != [] && CharOf(rec.chunk[HEAD + rec.idx]) == text[0]
    ensures Reads(live, rec.(idx := rec.idx + 1), rids, text[1..])
  {
    hide Continues;
    var left := SizeOf(rec.chunk) - rec.idx;
    assert text[1..][left - 1..] == text[left..];
    assert CharOf(rec.chunk[HEAD + rec.idx + 0]) == text[0];
    forall i | 0 <= i < left - 1
      ensures CharOf(rec.chunk[HEAD + rec.idx + 1 + i]) == text[1..][i]
    {
      assert CharOf(rec.chunk[HEAD + rec.idx + (i + 1)]) == text[i + 1];
    }
  }

  // ----- Which string a chunk belongs to -----

  /** Every live chunk belongs to exactly one string, at one place in it. */
  ghost predicate Partition(chains: map<Rid, seq<Rid>>, owner: map<Rid, Rid>, live: set<Rid>) {
    && owner.Keys == live
    && (forall x :: x in live ==> owner[x] in chains && x in chains[owner[x]])
    && (forall r, k :: r in chains && 0 <= k < |chains[r]| ==> chains[r][k] in live && owner[chains[r][k]] == r)
    && (forall r, k, l :: r in chains && 0 <= k < l < |chains[r]| ==> chains[r][k] != chains[r][l])
  }

  /** The strings with their first chunks. */
  ghost predicate Spelled(live: Items, chains: map<Rid, seq<Rid>>, texts: map<Rid, Text>) {
    && chains.Keys == texts.Keys
    && (forall r :: r in texts ==> Spells(live, chains[r], texts[r]) && chains[r][0] == r)
  }

  ghost predicate Distinct<T(!new)>(s: seq<T>) {
    forall k, l :: 0 <= k < l < |s| ==> s[k] != s[l]
  }

  ghost function Among(s: seq<Rid>): set<Rid> {
    set x | x in s
  }

  ghost function OwnerWith(owner: map<Rid, Rid>, chain: seq<Rid>, r: Rid): map<Rid, Rid> {
    map x | x in owner.Keys + Among(chain) :: if x in chain then r else owner[x]
  }

  /** A new string on chunks that were not live before. */
  lemma {:induction false} StringAdded(live0: Items, live1: Items, chains: map<Rid, seq<Rid>>, owner: map<Rid, Rid>,
                                       texts: map<Rid, Text>, chain: seq<Rid>, text: Text)
    requires Spelled(live0, chains, texts) && Partition(chains, owner, live0.Keys)
    requires live1.Keys == live0.Keys + Among(chain) && (forall x :: x in live0 ==> live1[x] == live0[x])
    requires forall x :: x in chain ==> x !in live0
    requires Distinct(chain) && Spells(live1, chain, text)
    ensures chain[0] !in texts && chain[0] !in chains
    ensures Spelled(live1, chains[chain[0] := chain], texts[chain[0] := text])
    ensures Partition(chains[chain[0] := chain], OwnerWith(owner, chain, chain[0]), live1.Keys)
  {
    hide Spells, Partition;
    SpellsLive(live1, chain, text);
    Nonempty(live1, chain, text);
    assert chain[0] in chain;
    forall x | x in texts
      ensures x in live0 && Spells(live1, chains[x], texts[x])
    {
      Nonempty(live0, chains[x], texts[x]);
      FirstIsLive(chains, owner, live0.Keys, x);
      SpellsFrame(live0, live1, chains[x], texts[x]);
    }
    PartitionWith(chains, owner, live0.Keys, chain);
    assert live1.Keys == live0.Keys + Among(chain);
  }

  lemma {:induction false} FirstIsLive(chains: map<Rid, seq<Rid>>, owner: map<Rid, Rid>, live: set<Rid>, r: Rid)
    requires Partition(chains, owner, live) && r in chains && chains[r] != []
    ensures chains[r][0] in live
  {
  }

  lemma {:induction false} PartitionWith(chains: map<Rid, seq<Rid>>, owner: map<Rid, Rid>, live: set<Rid>,
                                         chain: seq<Rid>)
    requires Partition(chains, owner, live) && chain != [] && Distinct(chain) && chain[0] !in chains
    requires forall x :: x in chain ==> x !in live
    ensures Partition(chains[chain[0] := chain], OwnerWith(owner, chain, chain[0]), live + Among(chain))
  {
    var r := chain[0];
    var chains', owner' := chains[r := chain], OwnerWith(owner, chain, r);
    forall x | x in live + Among(chain)
      ensures owner'[x] in chains' && x in chains'[owner'[x]]
    {
    }
    forall y, k | y in chains' && 0 <= k < |chains'[y]|
      ensures chains'[y][k] in live + Among(chain) && owner'[chains'[y][k]] == y
    {
      assert chains'[y][k] in chains'[y];
    }
  }

  lemma {:induction false} Nonempty(live: Items, rids: seq<Rid>, text: Text)
    requires Spells(live, rids, text)
    ensures rids != []
  {
  }

  /** A string whose chunks are no longer live. */
  lemma {:induction false} StringRemoved(live0: Items, live1: Items, chains: map<Rid, seq<Rid>>, owner: map<Rid, Rid>,
                                         texts: map<Rid, Text>, r: Rid)
    requires Spelled(live0, chains, texts) && Partition(chains, owner, live0.Keys) && r in texts
    requires live1 == live0 - Among(chains[r])
    ensures Spelled(live1, chains - {r}, texts - {r})
    ensures Partition(chains - {r}, owner - Among(chains[r]), live1.Keys)
  {
    hide Spells, Partition;
    PartitionWithout(chains, owner, live0.Keys, r);
    forall x | x in texts && x != r
      ensures Spells(live1, chains[x], texts[x])
    {
      ChainsApart(chains, owner, live0.Keys, r, x);
      SpellsFrame(live0, live1, chains[x], texts[x]);
    }
  }

  lemma {:induction false} ChainsApart(chains: map<Rid, seq<Rid>>, owner: map<Rid, Rid>, live: set<Rid>, r: Rid, x: Rid)
    requires Partition(chains, owner, live) && r in chains && x in chains && r != x
    ensures forall y :: y in chains[x] ==> y in live && y !in chains[r]
  {
    forall y | y in chains[x]
      ensures y in live && owner[y] == x
    {
    }
  }

  lemma {:induction false} PartitionWithout(chains: map<Rid, seq<Rid>>, owner: map<Rid, Rid>, live: set<Rid>, r: Rid)
    requires Partition(chains, owner, live) && r in chains
    ensures var gone := Among(chains[r]);
            Partition(chains - {r}, owner - gone, live - gone)
  {
  }

  /** A string in the making: chunks that spell text have come to the table. */
  ghost predicate Building(live0: Items, live: Items, made: seq<Rid>, text: Text) {
    && live.Keys == live0.Keys + Among(made) && (forall x :: x in live0 ==> live[x] == live0[x])
    && (forall x :: x in made ==> x !in live0)
    && Distinct(made) && Evenly(live, made, text)
  }

  /** Without the chunks made, the table is what it was. */
  lemma {:induction false} OnlyAdded(live0: Items, live: Items, made: seq<Rid>, text: Text)
    requires Building(live0, live, made, text)
    ensures live - Among(made) == live0
  {
    hide Evenly, Distinct;
    assert (live - Among(made)).Keys == live0.Keys;
  }

  lemma {:induction false} BuildFirst(live0: Items, live: Items, r: Rid, text: Text)
    requires r !in live0 && r.addr >= 0 && |text| <= CHUNK_LEN && live == live0[r := Chunk(NULL_RID, text)]
    ensures Building(live0, live, [r], text)
  {
  }

  lemma {:induction false} BuildNext(live0: Items, live: Items, made: seq<Rid>, text: Text, r: Rid, chars: Text,
                                     live1: Items)
    requires Building(live0, live, made, text) && text != [] && |chars| == CHUNK_LEN && made != []
    requires r !in live && r.addr >= 0 && live1 == live[r := Chunk(made[0], chars)]
    ensures Building(live0, live1, [r] + made, chars + text)
  {
    hide Spells, Evenly;
    EvenlySpells(live, made, text);
    SpellsLive(live, made, text);
    EvenlyFrame(live, live1, made, text);
    ChunkBefore(live1, r, made, chars, text);
    forall x
      ensures x in [r] + made <==> x == r || x in made
    {
    }
  }

  /** cur is the first of the chunks still to come, if any. */
  ghost predicate Ahead(live: Items, cur: Rid, rids: seq<Rid>, text: Text) {
    if rids == [] then cur == NULL_RID else cur == rids[0] && Spells(live, rids, text)
  }

  lemma {:induction false} InStep(live: Items, rids: seq<Rid>, text: Text)
    requires Spells(live, rids, text)
    ensures rids != [] && rids[0] in live && rids[0].addr >= 0
  {
  }

  lemma {:induction false} NextRid(next: Rid, chars: Text, chunk: seq<Cell>)
    requires |chars| <= CHUNK_LEN && chunk == Chunk(next, chars)
    ensures NextOf(chunk) == next
  {
    ChunkRoundTrip(next, chars, []);
    assert chunk + [] == chunk;
  }

  /** After the deletion of chunk n of a chain, the ones after it are still there. */
  lemma {:induction false} DropFirst(live0: Items, live: Items, chain: seq<Rid>, n: nat, next: Rid, text: Text)
    requires n < |chain| && Distinct(chain) && live == live0 - Among(chain[..n]) - {chain[n]}
    requires Continues(live0 - Among(chain[..n]), next, chain[n..][1..], text)
    ensures Ahead(live, next, chain[n + 1..], text)
    ensures live == live0 - Among(chain[..n + 1])
  {
    hide Spells;
    assert chain[n..][1..] == chain[n + 1..];
    assert chain[..n + 1] == chain[..n] + [chain[n]];
    var before := live0 - Among(chain[..n]);
    if chain[n + 1..] != [] {
      forall x | x in chain[n + 1..] && x in before
        ensures x in live && live[x] == before[x]
      {
      }
      SpellsFrame(before, live, chain[n + 1..], text);
    }
  }

  lemma {:induction false} AllGone(live: Items, r: Rid, chain: seq<Rid>, n: nat, text: Text)
    requires n <= |chain| && Ahead(live, r, chain[n..], text) && r.addr == -1
    ensures chain[..n] == chain
  {
    if n < |chain| {
      InStep(live, chain[n..], text);
    }
  }

  class StringTable {
    const table: Table
    ghost var Texts: map<Rid, Text>
    ghost var Chains: map<Rid, seq<Rid>>
    ghost var Owner: map<Rid, Rid>

    ghost function Repr(): set<object> {
      {this} + table.Repr()
    }

    ghost predicate Shape() {
      table.Shape() && this !in table.Repr() && table in table.Repr()
    }

    ghost predicate Valid()
      reads Repr()
    {
      && Shape() && table.Valid()
      && Spelled(table.Live, Chains, Texts)
      && Partition(Chains, Owner, table.Live.Keys)
    }

    constructor ()
      ensures Shape() && Valid() && fresh(Repr()) && Texts == map[] && this in Repr() && table in Repr()
    {
      hide Table.Valid, Table.Repr;
      var t := new Table();
      t.Here();
      table := t;
      Texts, Chains, Owner := map[], map[], map[];
      new;
    }

    lemma {:induction false} Here()
      ensures forall o :: o in Repr() ==> allocated(o)
    {
    }

    // ----- write_string -----

    /** The chunks of string rid, which text has been cut into evenly, are all that is new in the table. */
    ghost predicate Came(rid: Rid, text: Text, live0: Items, chains0: map<Rid, seq<Rid>>)
      reads this, table
    {
      && rid !in chains0 && rid in Chains && Chains - {rid} == chains0
      && table.Live - Among(Chains[rid]) == live0 && Evenly(table.Live, Chains[rid], text)
    }

    method InsertChunk(next: Rid, chars: Text) returns (rid: Rid)
      requires Shape() && table.Valid() && |chars| <= CHUNK_LEN
      modifies table.Repr()
      ensures table.Valid() && rid !in old(table.Live) && rid.addr >= 0
      ensures table.Live == old(table.Live)[rid := Chunk(next, chars)]
    {
      hide Table.Valid, Table.Repr, WellPlaced, Table.Fronted;
      rid := table.Insert(Chunk(next, chars));
    }

    /** The loop that goes back through the data, chunk by chunk. */
    method InsertBefore(data: Text, ptr0: nat, n: nat, first: Rid, ghost live0: Items, ghost made0: seq<Rid>)
      returns (rid: Rid, ghost made: seq<Rid>)
      requires Shape() && table.Valid() && ptr0 == CHUNK_LEN * n && ptr0 < |data|
      requires Building(live0, table.Live, made0, data[ptr0..]) && made0 != [] && made0[0] == first
      modifies table.Repr()
      ensures table.Valid() && Building(live0, table.Live, made, data) && made != [] && made[0] == rid
    {
      hide Table.Valid, Table.Repr, Building, Chunk;
      var ptr := ptr0;
      rid, made := first, made0;
      for i := 0 to n
        invariant ptr == CHUNK_LEN * (n - i) && ptr < |data|
        invariant table.Valid() && Building(live0, table.Live, made, data[ptr..]) && made != [] && made[0] == rid
      {
        ptr := ptr - CHUNK_LEN;
        ghost var live := table.Live;
        var chars := data[ptr..ptr + CHUNK_LEN];
        var r := InsertChunk(rid, chars);
        BuildNext(live0, live, made, data[ptr + CHUNK_LEN..], r, chars, table.Live);
        assert chars + data[ptr + CHUNK_LEN..] == data[ptr..];
        rid, made := r, [r] + made;
      }
      assert data[0..] == data;
    }

    method WriteString(data: Text) returns (rid: Rid)
      requires Valid()
      modifies Repr()
      ensures Valid() && rid !in old(Texts) && Texts == old(Texts)[rid := data] && rid.addr >= 0
      ensures Came(rid, data, old(table.Live), old(Chains))
    {
      hide Table.Valid, Table.Repr, Building, Spelled, Partition, Chunk;
      ghost var live0, made := table.Live, [];
      if |data| == 0 {
        rid := InsertChunk(NULL_RID, data);
        BuildFirst(live0, table.Live, rid, data);
        made := [rid];
      } else {
        var last := |data| % CHUNK_LEN;
        if last != 0 {
          var ptr := |data| - last;
          rid := InsertChunk(NULL_RID, data[ptr..]);
          BuildFirst(live0, table.Live, rid, data[ptr..]);
          rid, made := InsertBefore(data, ptr, |data| / CHUNK_LEN, rid, live0, [rid]);
        } else {
          var ptr := |data| - CHUNK_LEN;
          rid := InsertChunk(NULL_RID, data[ptr..]);
          BuildFirst(live0, table.Live, rid, data[ptr..]);
          rid, made := InsertBefore(data, ptr, |data| / CHUNK_LEN - 1, rid, live0, [rid]);
        }
      }
      Add(live0, made, data);
    }

    ghost method Add(live0: Items, made: seq<Rid>, text: Text)
      requires Shape() && table.Valid() && Building(live0, table.Live, made, text) && made != []
      requires Spelled(live0, Chains, Texts) && Partition(Chains, Owner, live0.Keys)
      modifies `Texts, `Chains, `Owner
      ensures Valid() && made[0] !in old(Texts) && Texts == old(Texts)[made[0] := text] && made[0].addr >= 0
      ensures Came(made[0], text, live0, old(Chains))
    {
      hide Table.Valid, Table.Repr, Spelled, Partition, Spells, Evenly;
      EvenlySpells(table.Live, made, text);
      OnlyAdded(live0, table.Live, made, text);
      StringAdded(live0, table.Live, Chains, Owner, Texts, made, text);
      SpellsLive(table.Live, made, text);
      Texts, Chains, Owner := Texts[made[0] := text], Chains[made[0] := made], OwnerWith(Owner, made, made[0]);
      assert Chains - {made[0]} == old(Chains);
    }

    // ----- delete_string -----

    method DeleteString(rid: Rid)
      requires Valid() && rid in Texts
      modifies Repr()
      ensures Valid() && Texts == old(Texts) - {rid}
      ensures rid in old(Chains) && Chains == old(Chains) - {rid}
      ensures table.Live == old(table.Live) - Among(old(Chains)[rid])
    {
      hide Table.Valid, Table.Repr, Spelled, Partition, Chunk, Spells, Vacated;
      ChainOf(rid);
      ghost var live0, chain := table.Live, Chains[rid];
      ghost var n, text := 0, Texts[rid];
      var r := rid;
      while r.addr != -1
        invariant Shape() && table.Valid() && n <= |chain| && Ahead(table.Live, r, chain[n..], text)
        invariant table.Live == live0 - Among(chain[..n])
        modifies table.Repr()
        decreases |chain| - n
      {
        ghost var next, size := FirstChunk(table.Live, chain[n..], text);
        InStep(table.Live, chain[n..], text);
        var chunk := table.Read(r);
        table.Delete(r);
        NextRid(next, text[..size], chunk);
        DropFirst(live0, table.Live, chain, n, next, text[size..]);
        r := NextOf(chunk);
        n, text := n + 1, text[size..];
      }
      AllGone(table.Live, r, chain, n, text);
      StringRemoved(live0, table.Live, Chains, Owner, Texts, rid);
      Texts, Chains, Owner := Texts - {rid}, Chains - {rid}, Owner - Among(Chains[rid]);
    }

    /** The chunks of a string. */
    lemma {:induction false} ChainOf(rid: Rid)
      requires Valid() && rid in Texts
      ensures rid in Chains && Distinct(Chains[rid]) && Ahead(table.Live, rid, Chains[rid], Texts[rid])
      ensures Spells(table.Live, Chains[rid], Texts[rid]) && Chains[rid] != []
      ensures Chains[rid][0..] == Chains[rid] && Chains[rid][..0] == []
    {
      InStep(table.Live, Chains[rid], Texts[rid]);
    }

    // ----- read_string, next_char, load_string -----

    /** read_string at any chunk of a string. */
    method ReadChunk(rid: Rid, rec: StringRecord, ghost rids: seq<Rid>, ghost text: Text) returns (r: StringRecord)
      requires Valid() && Spells(table.Live, rids, text) && rids != [] && rid == rids[0] && |rec.chunk| == CHUNK_SIZE
      modifies Repr()
      ensures Valid() && Texts == old(Texts) && Chains == old(Chains) && table.Live == old(table.Live)
      ensures Reads(table.Live, r, rids[1..], text) && r.idx == 0 && (text != [] ==> SizeOf(r.chunk) > 0)
    {
      hide Table.Valid, Table.Repr, Spelled, Partition, Spells, Reads, Chunk;
      InStep(table.Live, rids, text);
      var item := table.Read(rid);
      r := StringRecord(item + rec.chunk[Least(|item|, CHUNK_SIZE)..], 0);
      ReadsFirst(table.Live, rids, text, rec.chunk, r);
    }

    method ReadString(rid: Rid, rec: StringRecord) returns (r: StringRecord, ghost rids: seq<Rid>)
      requires Valid() && rid in Texts && |rec.chunk| == CHUNK_SIZE
      modifies Repr()
      ensures Valid() && Texts == old(Texts) && Chains == old(Chains) && table.Live == old(table.Live)
      ensures Reads(table.Live, r, rids, Texts[rid])
    {
      hide Table.Valid, Table.Repr, Spelled, Partition, Spells, Reads;
      ChainOf(rid);
      rids := Chains[rid][1..];
      r := ReadChunk(rid, rec, Chains[rid], Texts[rid]);
    }

    /** next_char */
    method NextChar(rec: StringRecord, ghost rids: seq<Rid>, ghost text: Text)
        returns (c: Char, r: StringRecord, ghost rids1: seq<Rid>)
      requires Valid() && Reads(table.Live, rec, rids, text) && text != []
      modifies Repr()
      ensures Valid() && Texts == old(Texts) && Chains == old(Chains) && table.Live == old(table.Live)
      ensures c == text[0] && Reads(table.Live, r, rids1, text[1..])
    {
      hide Table.Valid, Table.Repr, Spelled, Partition, Spells;
      if rec.idx != SizeOf(rec.chunk) {
        ReadsOn(table.Live, rec, rids, text);
        return CharOf(rec.chunk[HEAD + rec.idx]), rec.(idx := rec.idx + 1), rids;
      }
      var rid := NextOf(rec.chunk);
      assert text[0..] == text;
      r := ReadChunk(rid, rec, rids, text);
      ReadsOn(table.Live, r, rids[1..], text);
      c, r, rids1 := CharOf(r.chunk[HEAD + r.idx]), r.(idx := r.idx + 1), rids[1..];
    }

    /** load_string: the first max_size chars of the string. */
    method LoadString(record: StringRecord, ghost rids0: seq<Rid>, ghost text: Text, maxSize: nat) returns (dest: Text)
      requires Valid() && Reads(table.Live, record, rids0, text)
      modifies Repr()
      ensures Valid() && Texts == old(Texts) && Chains == old(Chains) && table.Live == old(table.Live)
      ensures dest == Prefix(text, maxSize)
    {
      hide Table.Valid, Table.Repr, Spelled, Partition, Reads;
      table.Here();
      dest := [];
      var rec := record;
      ghost var rids := rids0;
      while |dest| < maxSize
        invariant |dest| <= maxSize && |dest| <= |text| && dest == text[..|dest|]
        invariant Valid() && Texts == old(Texts) && Chains == old(Chains) && table.Live == old(table.Live)
        invariant Reads(table.Live, rec, rids, text[|dest|..])
        decreases maxSize - |dest|
      {
        var more := HasNext(rec, table.Live, rids, text[|dest|..]);
        if !more {
          return;
        }
        var c;
        assert text[|dest|..][1..] == text[|dest| + 1..];
        c, rec, rids := NextChar(rec, rids, text[|dest|..]);
        dest := dest + [c];
      }
    }

    // ----- compare_string_record -----

    /** The sign of the result is the lexicographic order of the two strings, however they are cut into chunks. */
    method Compare(a: StringRecord, b: StringRecord, ghost ra: seq<Rid>, ghost rb: seq<Rid>, ghost ta: Text,
                   ghost tb: Text)
      returns (r: int)
      requires Valid() && Reads(table.Live, a, ra, ta) && Reads(table.Live, b, rb, tb)
      modifies Repr()
      ensures Valid() && Texts == old(Texts) && Chains == old(Chains) && table.Live == old(table.Live)
      ensures -1 <= r <= 1 && (r < 0 <==> Less(ta, tb)) && (r == 0 <==> ta == tb)
    {
      hide Table.Valid, Table.Repr, Spelled, Partition, Reads;
      table.Here();
      var aa, bb := a, b;
      ghost var ca, cb, xa, xb := ra, rb, ta, tb;
      while true
        invariant Valid() && Texts == old(Texts) && Chains == old(Chains) && table.Live == old(table.Live)
        invariant Reads(table.Live, aa, ca, xa) && Reads(table.Live, bb, cb, xb)
        invariant (Less(xa, xb) <==> Less(ta, tb)) && (xa == xb <==> ta == tb)
        decreases |xa|
      {
        var moreA := HasNext(aa, table.Live, ca, xa);
        var moreB := HasNext(bb, table.Live, cb, xb);
        if !(moreA && moreB) {
          return if moreA then 1 else if moreB then -1 else 0;
        }
        var x, y;
        x, aa, ca := NextChar(aa, ca, xa);
        y, bb, cb := NextChar(bb, cb, xb);
        assert xa == [x] + xa[1..] && xb == [y] + xb[1..];
        if x != y {
          return if x < y then -1 else 1;
        }
        xa, xb := xa[1..], xb[1..];
      }
    }
  }
}
