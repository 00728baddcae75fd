/** Records, their strings and the separators of the index: what the comparators and handlers of the B+ tree work on. */
module Records {
  import opened Rids
  import opened Cells
  import opened Texts
  import opened Tables
  import opened Strings

  const MAX_STR_LEN: nat := 1024

  datatype Record = Record(key: Rid, value: Rid)

  function Encode(r: Record): (c: seq<Cell>)
    ensures |c| == 2 * RID_SIZE
  {
    RidCells(r.key) + RidCells(r.value)
  }

  function Decode(c: seq<Cell>): Record
    requires |c| == 2 * RID_SIZE
  {
    Record(RidOf(c[..RID_SIZE]), RidOf(c[RID_SIZE..]))
  }

  lemma {:induction false} RecordRoundTrip(r: Record)
    ensures Decode(Encode(r)) == r
  {
    assert Encode(r)[..RID_SIZE] == RidCells(r.key) && Encode(r)[RID_SIZE..] == RidCells(r.value);
    RidRoundTrip(r.key);
    RidRoundTrip(r.value);
  }

  /** The live records, the live strings that are keys or values, and the live separator strings. */
  datatype Names = Names(recs: map<Rid, Record>, loose: map<Rid, Text>, seps: map<Rid, Text>) {

    /** k is the key behind rid: the key of a record, or a separator. */
    ghost predicate KeyIs(rid: Rid, leaf: bool, k: Text) {
      if leaf then rid in recs && recs[rid].key in loose && loose[recs[rid].key] == k
      else rid in seps && seps[rid] == k
    }
  }

  ghost predicate Encoded(recs: map<Rid, Record>, live: map<Rid, seq<Cell>>) {
    && recs.Keys == live.Keys
    && (forall r :: r in recs ==> live[r] == Encode(recs[r]) && r.addr >= 0)
  }

  /** The named strings are alive. */
  ghost predicate Within(names: Names, texts: map<Rid, Text>) {
    && (forall r :: r in names.loose ==> r in texts && texts[r] == names.loose[r])
    && (forall r :: r in names.seps ==> r in texts && texts[r] == names.seps[r])
  }

  /** No string is alive but those with a name, and none has two. */
  ghost predicate Exactly(names: Names, texts: map<Rid, Text>) {
    && Within(names, texts)
    && texts.Keys == names.loose.Keys + names.seps.Keys
    && names.loose.Keys !! names.seps.Keys
    && (forall r :: r in names.seps ==> r.addr >= 0 && |names.seps[r]| <= MAX_STR_LEN)
  }

  // ----- What a separator that is cut off is good for -----

  lemma {:induction false} FirstOfPrefix(t: Text, n: nat)
    requires n > 0 && t != []
    ensures Prefix(t, n) == [t[0]] + Prefix(t[1..], n - 1)
  {
  }

  /** A key is not below the separator made from it, however short that is. */
  lemma {:induction false} NotBelowPrefix(t: Text, n: nat)
    ensures !Less(t, Prefix(t, n))
  {
    if n > 0 && t != [] {
      FirstOfPrefix(t, n);
      NotBelowPrefix(t[1..], n - 1);
    }
  }

  /** The first n chars of the larger of two keys are above the smaller key if and only if the keys differ there. */
  lemma {:induction false} PrefixSeparates(a: Text, b: Text, n: nat)
    requires Less(a, b)
    ensures Less(a, Prefix(b, n)) <==> Prefix(a, n) != Prefix(b, n)
  {
    if n > 0 && a != [] {
      FirstOfPrefix(a, n);
      FirstOfPrefix(b, n);
      if a[0] == b[0] {
        PrefixSeparates(a[1..], b[1..], n - 1);
      } else {
        assert Prefix(a, n)[0] != Prefix(b, n)[0];
      }
    }
  }

  /** Two keys, one char too long, between which insert_handler makes no separator. */
  lemma {:induction false} LongKeys() returns (a: Text, b: Text)
    ensures |a| == |b| == MAX_STR_LEN + 1 && Less(a, b) && !Less(a, Prefix(b, MAX_STR_LEN))
  {
    var common: Text := seq(MAX_STR_LEN, _ => 0);
    a, b := common + [0], common + [1];
    LessAfter(common, [0], [1]);
    assert Prefix(a, MAX_STR_LEN) == common == Prefix(b, MAX_STR_LEN);
    PrefixSeparates(a, b, MAX_STR_LEN);
  }

  lemma {:induction false} LessAfter(common: Text, a: Text, b: Text)
    requires Less(a, b)
    ensures Less(common + a, common + b)
  {
    if common == [] {
      assert common + a == a && common + b == b;
    } else {
      LessAfter(common[1..], a, b);
      assert (common + a)[1..] == common[1..] + a && (common + b)[1..] == common[1..] + b;
    }
  }

  // ----- A name comes or goes -----

  lemma {:induction false} LooseAdded(names: Names, texts: map<Rid, Text>, r: Rid, t: Text)
    requires Exactly(names, texts) && r !in texts
    ensures Exactly(names.(loose := names.loose[r := t]), texts[r := t]) && r !in names.loose
  {
  }

  lemma {:induction false} LooseRemoved(names: Names, texts: map<Rid, Text>, r: Rid)
    requires Exactly(names, texts) && r in names.loose
    ensures r in texts && Exactly(names.(loose := names.loose - {r}), texts - {r})
  {
  }

  lemma {:induction false} SepAdded(names: Names, texts: map<Rid, Text>, r: Rid, k: Text)
    requires Exactly(names, texts) && r !in texts && r.addr >= 0 && |k| <= MAX_STR_LEN
    ensures Exactly(names.(seps := names.seps[r := k]), texts[r := k]) && r !in names.seps
  {
  }

  lemma {:induction false} SepRemoved(names: Names, texts: map<Rid, Text>, r: Rid)
    requires Exactly(names, texts) && r in names.seps
    ensures r in texts && Exactly(names.(seps := names.seps - {r}), texts - {r})
  {
  }

  lemma {:induction false} AreWithin(names: Names, texts: map<Rid, Text>)
    requires Exactly(names, texts)
    ensures Within(names, texts)
  {
  }

  lemma {:induction false} RecsAside(names: Names, texts: map<Rid, Text>, recs: map<Rid, Record>)
    requires Exactly(names, texts)
    ensures Exactly(names.(recs := recs), texts) && Within(names.(recs := recs), texts)
  {
  }

  class Store {
    const rec: Table
    const str: StringTable
    ghost var names: Names
    ghost const footprint: set<object>

    /** The objects of the tables and pools below; clients need not know which. */
    ghost function Repr(): set<object> {
      footprint
    }

    ghost predicate Shape() {
      && footprint == {this} + rec.Repr() + str.Repr()
      && rec.Shape() && str.Shape() && rec.Repr() !! str.Repr()
      && this !in rec.Repr() && this !in str.Repr()
      && rec in rec.Repr() && str in str.Repr() && str.table in str.Repr()
    }

    ghost predicate Inside() {
      this in Repr() && rec in Repr() && str in Repr() && str.table in Repr()
    }

    /** What also holds while a search keeps a temporary string in the table. */
    ghost predicate Alive()
      reads Repr()
    {
      && Shape() && rec.Valid() && str.Valid()
      && Encoded(names.recs, rec.Live) && Within(names, str.Texts)
    }

    ghost predicate Valid()
      reads Repr()
    {
      Alive() && Exactly(names, str.Texts)
    }

    /** table_init for the records and for the strings. */
    constructor ()
      ensures Valid() && fresh(Repr()) && Inside() && names == Names(map[], map[], map[])
    {
      hide Table.Valid, StringTable.Valid, Valid, Table.Repr, StringTable.Repr;
      var r := new Table();
      r.Here();
      var s := new StringTable();
      s.Here();
      rec, str := r, s;
      names := Names(map[], map[], map[]);
      footprint := {this} + r.Repr() + s.Repr();
      new;
      Empty();
    }

    lemma {:induction false} Empty()
      requires Shape() && rec.Valid() && str.Valid() && rec.Live == map[] && str.Texts == map[]
               && names == Names(map[], map[], map[])
      ensures Valid()
    {
      hide Table.Valid, StringTable.Valid;
    }

    lemma {:induction false} Here()
      ensures forall o :: o in Repr() ==> allocated(o)
    {
    }

    lemma {:induction false} RealRids()
      requires Valid()
      ensures forall r :: r in names.recs ==> r.addr >= 0
      ensures forall r :: r in names.seps ==> r.addr >= 0 && |names.seps[r]| <= MAX_STR_LEN
    {
      hide Table.Valid, StringTable.Valid, Table.Repr, StringTable.Repr;
      rec.Here();
      str.Here();
    }

    /** What a method that only reads leaves as it was: every record, string and chunk. */
    twostate predicate Untouched()
      reads this, rec, str, str.table
    {
      && names == old(names) && rec.Live == old(rec.Live)
      && str.Texts == old(str.Texts) && str.Chains == old(str.Chains) && str.table.Live == old(str.table.Live)
    }

    // ----- Records -----

    method ReadRecord(rid: Rid) returns (record: Record)
      requires Alive() && rid in names.recs
      modifies rec.Repr()
      ensures names == old(names) && rec.Live == old(rec.Live) && Alive() && record == names.recs[rid]
    {
      hide Table.Valid, StringTable.Valid, Table.Repr, StringTable.Repr, Within;
      rec.Here();
      str.Here();
      var item := rec.Read(rid);
      RecordRoundTrip(names.recs[rid]);
      record := Decode(item);
    }

    method FetchRecord(rid: Rid) returns (record: Record)
      requires Valid() && rid in names.recs
      modifies Repr()
      ensures Valid() && Untouched() && record == names.recs[rid]
    {
      hide Table.Valid, StringTable.Valid, Table.Repr, StringTable.Repr, Within, Exactly;
      rec.Here();
      str.Here();
      record := ReadRecord(rid);
    }

    method WriteRecord(record: Record) returns (rid: Rid)
      requires Valid()
      modifies Repr()
      ensures Valid() && rid !in old(names.recs) && names == old(names).(recs := old(names.recs)[rid := record])
    {
      hide Table.Valid, StringTable.Valid, Table.Repr, StringTable.Repr, Encode, Exactly, Within, WellPlaced,
           Table.Fronted;
      rec.Here();
      str.Here();
      RecsAside(names, str.Texts, names.recs);
      rid := rec.Insert(Encode(record));
      RecsAside(names, str.Texts, names.recs[rid := record]);
      names := names.(recs := names.recs[rid := record]);
    }

    method DeleteRecord(rid: Rid)
      requires Valid() && rid in names.recs
      modifies Repr()
      ensures Valid() && names == old(names).(recs := old(names.recs) - {rid})
    {
      hide Table.Valid, StringTable.Valid, Table.Repr, StringTable.Repr, Encode, Exactly, Within, Vacated;
      rec.Here();
      str.Here();
      rec.Delete(rid);
      RecsAside(names, str.Texts, names.recs - {rid});
      names := names.(recs := names.recs - {rid});
    }

    // ----- Keys and values -----

    method WriteLoose(data: Text) returns (rid: Rid)
      requires Valid()
      modifies Repr()
      ensures Valid() && rid !in old(names.loose) && names == old(names).(loose := old(names.loose)[rid := data])
    {
      hide Table.Valid, StringTable.Valid, Table.Repr, StringTable.Repr, Exactly, Within, Encoded;
      rec.Here();
      str.Here();
      ghost var texts := str.Texts;
      rid := str.WriteString(data);
      LooseAdded(names, texts, rid, data);
      names := names.(loose := names.loose[rid := data]);
      AreWithin(names, str.Texts);
    }

    method DeleteLoose(rid: Rid)
      requires Valid() && rid in names.loose
      modifies Repr()
      ensures Valid() && names == old(names).(loose := old(names.loose) - {rid})
    {
      hide Table.Valid, StringTable.Valid, Table.Repr, StringTable.Repr, Exactly, Within, Encoded;
      rec.Here();
      str.Here();
      LooseRemoved(names, str.Texts, rid);
      str.DeleteString(rid);
      names := names.(loose := names.loose - {rid});
      AreWithin(names, str.Texts);
    }

    /** read_string and load_string. */
    method LoadLoose(rid: Rid, maxSize: nat) returns (dest: Text)
      requires Valid() && rid in names.loose
      modifies Repr()
      ensures Valid() && Untouched()
      ensures dest == Prefix(old(names).loose[rid], maxSize)
    {
      hide Table.Valid, StringTable.Valid, Table.Repr, StringTable.Repr, Reads;
      rec.Here();
      str.Here();
      var r, rids := str.ReadString(rid, BLANK);
      dest := str.LoadString(r, rids, str.Texts[rid], maxSize);
    }

    // ----- The comparators -----

    /** The string of a key: that of the record in a leaf, or a separator. */
    method ReadKey(rid: Rid, leaf: bool, ghost k: Text) returns (s: StringRecord, ghost rids: seq<Rid>)
      requires Alive() && names.KeyIs(rid, leaf, k)
      modifies rec.Repr(), str.Repr()
      ensures Alive() && Untouched() && Reads(str.table.Live, s, rids, k)
    {
      hide Table.Valid, StringTable.Valid, Table.Repr, StringTable.Repr, Reads;
      rec.Here();
      str.Here();
      if leaf {
        var record := ReadRecord(rid);
        s, rids := str.ReadString(record.key, BLANK);
      } else {
        s, rids := str.ReadString(rid, BLANK);
      }
    }

    /** rid_row_row_cmp */
    method Compare(a: Rid, b: Rid, aleaf: bool, bleaf: bool, ghost ka: Text, ghost kb: Text) returns (c: int)
      requires Valid() && names.KeyIs(a, aleaf, ka) && names.KeyIs(b, bleaf, kb)
      modifies Repr()
      ensures Valid() && Untouched()
      ensures (c < 0 <==> Less(ka, kb)) && (c == 0 <==> ka == kb)
    {
      hide Table.Valid, StringTable.Valid, Table.Repr, StringTable.Repr, Reads, Less;
      rec.Here();
      str.Here();
      var aa, ra := ReadKey(a, aleaf, ka);
      var bb, rb := ReadKey(b, bleaf, kb);
      c := str.Compare(aa, bb, ra, rb, ka, kb);
    }

    /** write_string, and read_string on the string written. */
    method WriteKey(p: Text) returns (rid: Rid, s: StringRecord, ghost rids: seq<Rid>)
      requires Alive()
      modifies str.Repr()
      ensures Alive() && names == old(names) && rid !in old(str.Texts) && str.Texts == old(str.Texts)[rid := p]
      ensures str.Came(rid, p, old(str.table.Live), old(str.Chains)) && Reads(str.table.Live, s, rids, p)
    {
      hide Table.Valid, StringTable.Valid, Table.Repr, StringTable.Repr, Reads, Encoded;
      rec.Here();
      str.Here();
      rid := str.WriteString(p);
      s, rids := str.ReadString(rid, BLANK);
    }

    /** rid_ptr_row_cmp: the key to compare with is written to the table first, and deleted in the end. */
    method CompareKey(p: Text, b: Rid, leaf: bool, ghost kb: Text) returns (c: int)
      requires Valid() && names.KeyIs(b, leaf, kb)
      modifies Repr()
      ensures Valid() && Untouched()
      ensures (c < 0 <==> Less(p, kb)) && (c == 0 <==> p == kb)
    {
      hide Table.Valid, StringTable.Valid, Table.Repr, StringTable.Repr, Reads, Less, Exactly, Encoded;
      rec.Here();
      str.Here();
      var rid, aa, ra := WriteKey(p);
      var bb, rb := ReadKey(b, leaf, kb);
      c := str.Compare(aa, bb, ra, rb, p, kb);
      str.DeleteString(rid);
      assert str.Texts == old(str.Texts);
    }

    // ----- The handlers -----

    /** The chars of a key, as far as the buffer goes. */
    method LoadKey(rid: Rid, leaf: bool, ghost k: Text) returns (p: Text)
      requires Alive() && names.KeyIs(rid, leaf, k)
      modifies rec.Repr(), str.Repr()
      ensures Alive() && Untouched() && p == Prefix(k, MAX_STR_LEN)
    {
      hide Table.Valid, StringTable.Valid, Table.Repr, StringTable.Repr, Reads, Within, Encoded;
      rec.Here();
      str.Here();
      var aa, ra := ReadKey(rid, leaf, k);
      p := str.LoadString(aa, ra, k, MAX_STR_LEN);
    }

    /** The copy has the key, or its first 1024 chars. */
    method InsertHandler(rid: Rid, leaf: bool, ghost k: Text) returns (r: Rid)
      requires Valid() && names.KeyIs(rid, leaf, k)
      modifies Repr()
      ensures Valid() && r !in old(names.seps) && r.addr >= 0
      ensures names == old(names).(seps := old(names.seps)[r := Prefix(k, MAX_STR_LEN)])
    {
      hide Table.Valid, StringTable.Valid, Table.Repr, StringTable.Repr, Reads, Exactly, Within, Encoded;
      rec.Here();
      str.Here();
      var p := LoadKey(rid, leaf, k);
      ghost var texts := str.Texts;
      r := str.WriteString(p);
      SepAdded(names, texts, r, p);
      names := names.(seps := names.seps[r := p]);
      AreWithin(names, str.Texts);
    }

    method DeleteHandler(rid: Rid)
      requires Valid() && rid in names.seps
      modifies Repr()
      ensures Valid() && names == old(names).(seps := old(names.seps) - {rid})
    {
      hide Table.Valid, StringTable.Valid, Table.Repr, StringTable.Repr, Exactly, Within, Encoded;
      rec.Here();
      str.Here();
      SepRemoved(names, str.Texts, rid);
      str.DeleteString(rid);
      names := names.(seps := names.seps - {rid});
      AreWithin(names, str.Texts);
    }
  }
}
