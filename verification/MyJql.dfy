/** The key-value store: myjql_get, myjql_set and myjql_del over the index, the records and the strings. */
module MyJqls {
  import opened Rids
  import opened Texts
  import opened Trees
  import opened Strings
  import opened Records
  import opened BTrees
  import opened TreePages
  import opened Tables
  import opened BufferPools

  /** DEGREE for pages of 128 bytes: 8 for the count, 16 for two addresses, 4 for the flag; 18 for a child and a row. */
  const DEGREE: nat := (128 - 8 - 2 * 8 - 4) / 2 / (8 + 10)

  lemma {:induction false} Degree()
    ensures DEGREE == 2 && Capacity(DEGREE) == 4 * 1594323
  {
    CapacityOfTwo();
  }

  /** Every string that is no separator is the key or the value of exactly one record, its owner. */
  ghost predicate OwnedOnce(names: Names, owner: map<Rid, Rid>) {
    && owner.Keys == names.loose.Keys
    && (forall s :: s in owner ==>
         owner[s] in names.recs && (names.recs[owner[s]].key == s || names.recs[owner[s]].value == s))
    && (forall r :: r in names.recs ==>
          && names.recs[r].key in owner && owner[names.recs[r].key] == r
          && names.recs[r].value in owner && owner[names.recs[r].value] == r
          && names.recs[r].key != names.recs[r].value)
  }

  /** The records, through the index, are the map. */
  ghost predicate Represents(model: map<Text, Text>, contents: map<Text, Rid>, names: Names) {
    && model.Keys == contents.Keys
    && (forall k :: k in contents ==>
          && contents[k] in names.recs
          && names.recs[contents[k]].key in names.loose && names.loose[names.recs[contents[k]].key] == k
          && names.recs[contents[k]].value in names.loose && names.loose[names.recs[contents[k]].value] == model[k])
    && (forall r :: r in names.recs ==>
          && names.recs[r].key in names.loose && names.loose[names.recs[r].key] in contents
          && contents[names.loose[names.recs[r].key]] == r)
  }

  // ----- What the steps of set and del do to the records -----

  /** A record of two new strings has come. */
  lemma {:induction false} RecordAdded(model: map<Text, Text>, contents: map<Text, Rid>, names: Names, owner: map<Rid,
                                       Rid>, k: Rid, v: Rid, rid: Rid, key: Text, value: Text)
    requires Represents(model, contents, names) && OwnedOnce(names, owner) && key !in contents
    requires k !in names.loose && v !in names.loose && k != v && rid !in names.recs
    ensures var out := names.(loose := names.loose[k := key][v := value], recs := names.recs[rid := Record(k, v)]);
            Represents(model[key := value], contents[key := rid], out) && OwnedOnce(out, owner[k := rid][v := rid])
  {
  }

  /** A record has gone, and with it its strings. */
  lemma {:induction false} RecordRemoved(model: map<Text, Text>, contents: map<Text, Rid>, names: Names,
                                         owner: map<Rid, Rid>, key: Text)
    requires Represents(model, contents, names) && OwnedOnce(names, owner) && key in contents
    ensures contents[key] in names.recs
    ensures var rid := contents[key]; var gone := names.recs[rid];
            var out := names.(loose := names.loose - {gone.key} - {gone.value}, recs := names.recs - {rid});
            Represents(model - {key}, contents - {key}, out) && OwnedOnce(out, owner - {gone.key} - {gone.value})
  {
  }

  /** Key k, whose string is at key, has got a new record with a new string for its value; all else is as in names0. */
  ghost predicate Entered(names0: Names, contents0: map<Text, Rid>, names1: Names, contents1: map<Text, Rid>, k: Text,
                          key: Rid, value: Text) {
    && k in contents1 && contents1 == contents0[k := contents1[k]]
    && var r := contents1[k];
    && r !in names0.recs && r in names1.recs && names1.recs == names0.recs[r := names1.recs[r]]
    && var v := names1.recs[r].value;
    && names1.recs[r].key == key && v !in names0.loose && v != key && names1.loose == names0.loose[key := k][v := value]
  }

  /** Without record rid and its two strings. */
  ghost function RecordGone(names: Names, rid: Rid): Names
    requires rid in names.recs
  {
    var r := names.recs[rid];
    names.(loose := names.loose - {r.key} - {r.value}, recs := names.recs - {rid})
  }

  /** What set does: a present key keeps its string and loses its record and its old value; a new one gets a string. */
  ghost predicate Written(names0: Names, contents0: map<Text, Rid>, names1: Names, contents1: map<Text, Rid>, key: Text,
                          value: Text) {
    if key in contents0 then
      && contents0[key] in names0.recs
      && Entered(RecordGone(names0, contents0[key]), contents0 - {key}, names1, contents1, key,
                 names0.recs[contents0[key]].key, value)
    else
      && key in contents1 && contents1[key] in names1.recs && names1.recs[contents1[key]].key !in names0.loose
      && Entered(names0, contents0, names1, contents1, key, names1.recs[contents1[key]].key, value)
  }

  /** What del does. */
  ghost predicate Erased(names0: Names, contents0: map<Text, Rid>, names1: Names, contents1: map<Text, Rid>,
                         key: Text) {
    && contents1 == contents0 - {key}
    && if key in contents0 then
         && contents0[key] in names0.recs
         && names1.recs == RecordGone(names0, contents0[key]).recs
            && names1.loose == RecordGone(names0, contents0[key]).loose
       else names1 == names0
  }

  // ----- The store as a map, and runs over it -----

  datatype Op = Get(key: Text, maxSize: nat) | Set(key: Text, value: Text) | Del(key: Text)

  datatype Answer = NotFound | Found(value: Text) | Done

  type Model = map<Text, Text>

  ghost function Next(model: Model, op: Op): Model {
    match op
    case Get(_, _) => model
    case Set(key, value) => model[key := value]
    case Del(key) => model - {key}
  }

  ghost function Reply(model: Model, op: Op): Answer {
    match op
    case Get(key, maxSize) => if key in model then Found(Prefix(model[key], maxSize)) else NotFound
    case _ => Done
  }

  ghost function After(model: Model, ops: seq<Op>): Model
    decreases |ops|
  {
    if ops == [] then model else After(Next(model, ops[0]), ops[1..])
  }

  ghost function Replies(model: Model, ops: seq<Op>): seq<Answer>
    decreases |ops|
  {
    if ops == [] then [] else [Reply(model, ops[0])] + Replies(Next(model, ops[0]), ops[1..])
  }

  /** A run of calls leads from one map to the other and gives the answers that the map gives. */
  ghost predicate Refines(before: Model, ops: seq<Op>, after: Model, answers: seq<Answer>) {
    after == After(before, ops) && answers == Replies(before, ops)
  }

  /** The height of the index up to which the page cache can cope with a call. */
  ghost function Limit(op: Op): nat {
    if op.Get? then 15 else 14
  }

  ghost function Growth(op: Op): nat {
    if op.Set? then 1 else 0
  }

  /**
   No step finds an index too high for the page cache, either because there are few keys or because
   the index started low enough, and no key that is set is too long.
   */
  ghost predicate Bearable(model: Model, height: nat, ops: seq<Op>, capacity: nat)
    decreases |ops|
  {
    ops != [] ==>
      && (|model| < capacity || height <= Limit(ops[0])) && (ops[0].Set? ==> |ops[0].key| <= MAX_STR_LEN)
      && Bearable(Next(model, ops[0]), height + Growth(ops[0]), ops[1..], capacity)
  }

  /** A run is its first call and a run from there. */
  lemma {:induction false} FirstCall(model: Model, height: nat, ops: seq<Op>, capacity: nat)
    requires ops != [] && Bearable(model, height, ops, capacity)
    ensures |model| < capacity || height <= Limit(ops[0])
    ensures ops[0].Set? ==> |ops[0].key| <= MAX_STR_LEN
    ensures Bearable(Next(model, ops[0]), height + Growth(ops[0]), ops[1..], capacity)
    ensures After(model, ops) == After(Next(model, ops[0]), ops[1..])
    ensures Replies(model, ops) == [Reply(model, ops[0])] + Replies(Next(model, ops[0]), ops[1..])
  {
  }

  lemma {:induction false} NothingLeft(model: Model, ops: seq<Op>)
    requires ops == []
    ensures After(model, ops) == model && Replies(model, ops) == []
  {
  }

  // ----- What a run means, seen from its end -----

  datatype Option = None | Some(value: Text)

  /** The value that the last set of the key gave it, unless the key was deleted since; start is what it had before. */
  ghost function LastWrite(ops: seq<Op>, key: Text, start: Option): Option
    decreases |ops|
  {
    if ops == [] then start
    else
      var op := ops[|ops| - 1];
      if op.Set? && op.key == key then Some(op.value)
      else if op.Del? && op.key == key then None
      else LastWrite(ops[..|ops| - 1], key, start)
  }

  ghost function Lookup(model: Model, key: Text): Option {
    if key in model then Some(model[key]) else None
  }

  lemma {:induction false} AfterAppend(model: Model, ops: seq<Op>, op: Op)
    ensures After(model, ops + [op]) == Next(After(model, ops), op)
    decreases |ops|
  {
    if ops == [] {
      assert ops + [op] == [op] && [op][1..] == [];
    } else {
      assert (ops + [op])[0] == ops[0] && (ops + [op])[1..] == ops[1..] + [op];
      AfterAppend(Next(model, ops[0]), ops[1..], op);
    }
  }

  /** After any run, a key has the value it was last set to, or none if it was never set or deleted since. */
  lemma {:induction false} LastWriteWins(model: Model, ops: seq<Op>, key: Text)
    ensures Lookup(After(model, ops), key) == LastWrite(ops, key, Lookup(model, key))
    decreases |ops|
  {
    if ops != [] {
      var n := |ops| - 1;
      assert ops == ops[..n] + [ops[n]];
      AfterAppend(model, ops[..n], ops[n]);
      LastWriteWins(model, ops[..n], key);
    }
  }

  /** A call answers as the map says that the calls before it have led to. */
  lemma {:induction false} ReplyAt(model: Model, ops: seq<Op>, i: nat)
    requires i < |ops|
    ensures |Replies(model, ops)| == |ops| && Replies(model, ops)[i] == Reply(After(model, ops[..i]), ops[i])
    decreases |ops|
  {
    hide Next, Reply;
    RepliesLength(model, ops);
    if i == 0 {
      assert ops[..0] == [];
    } else {
      ReplyAt(Next(model, ops[0]), ops[1..], i - 1);
      assert ops[..i][0] == ops[0] && ops[..i][1..] == ops[1..][..i - 1];
    }
  }

  lemma {:induction false} RepliesLength(model: Model, ops: seq<Op>)
    ensures |Replies(model, ops)| == |ops|
    decreases |ops|
  {
    if ops != [] {
      RepliesLength(Next(model, ops[0]), ops[1..]);
    }
  }

  /** A get finds what the key was last set to by the calls before it, unless the key was deleted since. */
  ghost function Answered(ops: seq<Op>, i: nat): Answer
    requires i < |ops|
  {
    match ops[i]
    case Get(key, maxSize) => (
      match LastWrite(ops[..i], key, None)
      case Some(value) => Found(Prefix(value, maxSize))
      case None => NotFound)
    case _ => Done
  }

  /** These are the answers of a run on an empty store. */
  lemma {:induction false} AnswerAt(ops: seq<Op>, i: nat)
    requires i < |ops|
    ensures |Replies(map[], ops)| == |ops| && Replies(map[], ops)[i] == Answered(ops, i)
  {
    ReplyAt(map[], ops, i);
    if ops[i].Get? {
      LastWriteWins(map[], ops[..i], ops[i].key);
    }
  }

  /** The number of set operations in a run. */
  ghost function Sets(ops: seq<Op>): nat
    decreases |ops|
  {
    if ops == [] then 0 else Growth(ops[0]) + Sets(ops[1..])
  }

  lemma {:induction false} NextSize(model: Model, op: Op)
    ensures |Next(model, op)| <= |model| + Growth(op)
  {
    match op
    case Get(_, _) =>
    case Set(key, value) =>
      assert model[key := value].Keys == model.Keys + {key};
      assert |model.Keys + {key}| <= |model.Keys| + 1;
    case Del(key) =>
      assert (model - {key}).Keys == model.Keys - {key};
      Fewer(model.Keys, key);
  }

  lemma {:induction false} Fewer(keys: set<Text>, key: Text)
    ensures |keys - {key}| <= |keys|
  {
    assert keys == (keys - {key}) + (keys * {key});
  }

  /** Runs that set fewer keys than the capacity, or few on a low index, can be borne. */
  lemma {:induction false} BearableRun(model: Model, height: nat, ops: seq<Op>, capacity: nat)
    requires |model| + Sets(ops) < capacity || height + Sets(ops) <= 14
    requires forall i :: 0 <= i < |ops| && ops[i].Set? ==> |ops[i].key| <= MAX_STR_LEN
    ensures Bearable(model, height, ops, capacity)
    decreases |ops|
  {
    if ops != [] {
      NextSize(model, ops[0]);
      assert forall i :: 0 <= i < |ops[1..]| ==> ops[1..][i] == ops[i + 1];
      BearableRun(Next(model, ops[0]), height + Growth(ops[0]), ops[1..], capacity);
    }
  }

  class MyJql {
    const env: Store
    const idx: BTree
    ghost var Map: Model
    ghost var Owner: map<Rid, Rid>

    ghost function Repr(): set<object> {
      {this} + idx.Repr()
    }

    ghost predicate Shape() {
      idx.Apart() && idx.env == env && this !in idx.Repr() && idx in idx.Repr()
    }

    ghost predicate Valid()
      reads Repr()
    {
      && Shape() && idx.Valid()
      && Represents(Map, idx.Contents, env.names) && OwnedOnce(env.names, Owner)
    }

    /** Between two steps of set or del, when the index and the records do not agree. */
    ghost predicate Open()
      reads Repr()
    {
      Shape() && idx.Standing(env.names.seps) && env.Valid()
    }

    /** myjql_init on empty files. */
    constructor (degree: nat)
      requires degree >= 2
      ensures Valid() && Map == map[] && idx.d == degree && idx.Height == 1 && fresh(Repr())
    {
      hide BTree.Valid, Store.Valid, Valid;
      var store := new Store();
      store.Here();
      var index := new BTree(degree, store);
      assert forall o :: o in index.Repr() ==> allocated(o);
      env, idx := store, index;
      Map, Owner := map[], map[];
      new;
      Empty();
    }

    lemma {:induction false} Empty()
      requires Shape() && idx.Valid() && idx.Contents == map[] && Map == map[] && Owner == map[]
      requires env.names == Names(map[], map[], map[])
      ensures Valid()
    {
      hide BTree.Valid;
    }

    lemma {:induction false} SameKeys()
      requires Valid()
      ensures Map.Keys == idx.Contents.Keys
    {
      hide BTree.Valid, OwnedOnce;
    }

    /** With fewer keys than that, the index is low enough for every call. */
    lemma {:induction false} Low()
      requires Valid() && |Map| < Capacity(idx.d)
      ensures idx.Height <= 14
    {
      hide BTree.Valid, OwnedOnce, Capacity;
      SameKeys();
      assert |Map.Keys| == |Map| && |idx.Contents.Keys| == |idx.Contents|;
      idx.Low();
    }

    lemma {:induction false} LowEnough(height: nat, op: Op)
      requires Valid() && idx.Height <= height && (|Map| < Capacity(idx.d) || height <= Limit(op))
      ensures idx.Height <= Limit(op)
    {
      hide Valid, Capacity;
      if |Map| < Capacity(idx.d) {
        Low();
      }
    }

    // ----- myjql_get -----

    method Get(key: Text, maxSize: nat) returns (size: int, value: Text)
      requires Valid() && idx.Height <= 15
      modifies Repr()
      ensures Valid() && Map == old(Map) && env.Untouched() && idx.Height == old(idx.Height)
      ensures if key in Map then value == Prefix(Map[key], maxSize) && size == |value| else size == -1 && value == []
    {
      hide BTree.Valid, BTree.Standing, Store.Valid, OwnedOnce, BTree.Named;
      SameKeys();
      var rid := idx.Search(key);
      if rid == NULL_RID {
        return -1, [];
      }
      idx.Stands();
      var record := env.FetchRecord(rid);
      value := env.LoadLoose(record.value, maxSize);
      idx.StandsAgain();
      size := |value|;
    }

    // ----- The steps of myjql_set and myjql_del -----

    /** Separators do not matter for the map. */
    static lemma {:induction false} SepsAside(model: Model, contents: map<Text, Rid>, names: Names, owner: map<Rid,
                                              Rid>, out: Names)
      requires Represents(model, contents, names) && OwnedOnce(names, owner) && out.recs == names.recs
               && out.loose == names.loose
      ensures Represents(model, contents, out) && OwnedOnce(out, owner)
    {
    }

    /** Rows keep their keys when records and strings are added. */
    lemma {:induction false} StillNamed(model: Model, contents: map<Text, Rid>, names: Names)
      requires Represents(model, contents, names) && (forall k :: k in contents ==> |k| <= MAX_STR_LEN)
      requires forall k :: k in idx.Contents ==> k in contents && contents[k] == idx.Contents[k]
      ensures idx.Named(names)
    {
    }

    lemma {:induction false} ShortKeys(names: Names)
      requires idx.Named(names)
      ensures forall k :: k in idx.Contents ==> |k| <= MAX_STR_LEN
    {
    }

    /** The value, the record and the entry in the index for key k, whose string is there already. */
    method Enter(ghost k: Text, key: Rid, value: Text, ghost model: Model, ghost names: Names, ghost owner: map<Rid,
                 Rid>)
      requires Open() && Represents(model, idx.Contents, names) && OwnedOnce(names, owner)
      requires k !in idx.Contents && |k| <= MAX_STR_LEN && idx.Height <= 14
      requires forall x :: x in idx.Contents ==> |x| <= MAX_STR_LEN
      requires key !in names.loose && env.names == names.(loose := names.loose[key := k])
      modifies Repr()
      ensures Valid() && Map == model[k := value] && idx.Height <= old(idx.Height) + 1
      ensures Entered(names, old(idx.Contents), env.names, idx.Contents, k, key, value)
    {
      hide BTree.Valid, BTree.Standing, BTree.Named, Store.Valid, Represents, OwnedOnce;
      var v := env.WriteLoose(value);
      var rid := env.WriteRecord(Record(key, v));
      RecordAdded(model, idx.Contents, names, owner, key, v, rid, k, value);
      InsertRow(rid, k, model[k := value], owner[key := rid][v := rid]);
    }

    /** Records and strings show the new map already; the index follows. */
    method InsertRow(rid: Rid, ghost k: Text, ghost model: Model, ghost owner: map<Rid, Rid>)
      requires Open() && Represents(model, idx.Contents[k := rid], env.names) && OwnedOnce(env.names, owner)
      requires k !in idx.Contents && |k| <= MAX_STR_LEN && idx.Height <= 14
      requires forall x :: x in idx.Contents ==> |x| <= MAX_STR_LEN
      modifies Repr()
      ensures Valid() && Map == model && idx.Height <= old(idx.Height) + 1
      ensures idx.Contents == old(idx.Contents)[k := rid]
      ensures env.names.recs == old(env.names.recs) && env.names.loose == old(env.names.loose)
    {
      hide BTree.Valid, BTree.Standing, BTree.Named, Store.Valid, Represents, OwnedOnce;
      ghost var contents, before := idx.Contents[k := rid], env.names;
      StillNamed(model, contents, before);
      idx.StandsAgain();
      NewRow(model, contents, before, k, rid);
      idx.Insert(rid, k);
      SepsAside(model, contents, before, owner, env.names);
      Map, Owner := model, owner;
    }

    static lemma {:induction false} NewRow(model: Model, contents: map<Text, Rid>, names: Names, k: Text, rid: Rid)
      requires Represents(model, contents, names) && k in contents && contents[k] == rid
      ensures names.KeyIs(rid, true, k)
    {
    }

    /** The entry of a key leaves the index. */
    method RemoveEntry(rid: Rid, ghost key: Text)
      requires Valid() && key in Map && key in idx.Contents && rid == idx.Contents[key] && idx.Height <= 14
      modifies Repr()
      ensures Open() && Map == old(Map) && Owner == old(Owner) && idx.Contents == old(idx.Contents) - {key}
      ensures idx.Height <= old(idx.Height)
      ensures env.names.recs == old(env.names.recs) && env.names.loose == old(env.names.loose)
      ensures Represents(Map, old(idx.Contents), env.names) && OwnedOnce(env.names, Owner)
      ensures forall x :: x in idx.Contents ==> |x| <= MAX_STR_LEN
    {
      hide BTree.Valid, BTree.Standing, BTree.Named, Store.Valid, Represents, OwnedOnce;
      NewRow(Map, idx.Contents, env.names, key, rid);
      ghost var contents, names := idx.Contents, env.names;
      idx.Delete(rid, key);
      SepsAside(Map, contents, names, Owner, env.names);
      idx.Stands();
      ShortKeys(env.names);
    }

    /** read_record */
    method Fetch(rid: Rid) returns (record: Record)
      requires Valid() && rid in env.names.recs
      modifies Repr()
      ensures Valid() && Map == old(Map) && Owner == old(Owner) && env.names == old(env.names)
      ensures idx.Contents == old(idx.Contents) && idx.Height == old(idx.Height)
      ensures record == env.names.recs[rid]
    {
      hide BTree.Valid, BTree.Standing, BTree.Named, Store.Valid, Represents, OwnedOnce;
      idx.Stands();
      record := env.FetchRecord(rid);
      idx.StandsAgain();
    }

    // ----- myjql_set -----

    method Set(key: Text, value: Text)
      requires Valid() && idx.Height <= 14 && |key| <= MAX_STR_LEN
      modifies Repr()
      ensures Valid() && Map == old(Map)[key := value] && idx.Height <= old(idx.Height) + 1
      ensures Written(old(env.names), old(idx.Contents), env.names, idx.Contents, key, value)
    {
      hide BTree.Valid, BTree.Standing, BTree.Named, Store.Valid, Represents, OwnedOnce;
      SameKeys();
      var rid := idx.Search(key);
      if rid == NULL_RID {
        SetNew(key, value);
      } else {
        Replace(rid, key, value);
      }
    }

    method SetNew(key: Text, value: Text)
      requires Valid() && idx.Height <= 14 && |key| <= MAX_STR_LEN && key !in idx.Contents
      modifies Repr()
      ensures Valid() && Map == old(Map)[key := value] && idx.Height <= old(idx.Height) + 1
      ensures Written(old(env.names), old(idx.Contents), env.names, idx.Contents, key, value)
    {
      hide BTree.Valid, BTree.Standing, BTree.Named, Store.Valid, Represents, OwnedOnce;
      idx.Stands();
      ShortKeys(env.names);
      ghost var names := env.names;
      var k := env.WriteLoose(key);
      Enter(key, k, value, Map, names, Owner);
    }

    /** The record of the key is replaced; its key string stays. */
    method Replace(rid: Rid, key: Text, value: Text)
      requires Valid() && idx.Height <= 14 && |key| <= MAX_STR_LEN
      requires key in idx.Contents && rid == idx.Contents[key]
      modifies Repr()
      ensures Valid() && Map == old(Map)[key := value] && idx.Height <= old(idx.Height) + 1
      ensures Written(old(env.names), old(idx.Contents), env.names, idx.Contents, key, value)
    {
      hide BTree.Valid, BTree.Standing, BTree.Named, Store.Valid, Represents, OwnedOnce;
      ghost var names, owner;
      var record;
      record, names, owner := Withdraw(rid, key);
      Enter(key, record.key, value, Map - {key}, names, owner);
      assert (old(Map) - {key})[key := value] == old(Map)[key := value];
    }

    /**
     The record of a key goes, from the index and from the table, and its value; names is what is left, apart from the
     key string.
     */
    method Withdraw(rid: Rid, ghost key: Text) returns (record: Record, ghost names: Names, ghost owner: map<Rid, Rid>)
      requires Valid() && idx.Height <= 14 && key in idx.Contents && rid == idx.Contents[key]
      modifies Repr()
      ensures Open() && Map == old(Map) && idx.Contents == old(idx.Contents) - {key} && idx.Height <= old(idx.Height)
      ensures Represents(Map - {key}, idx.Contents, names) && OwnedOnce(names, owner)
      ensures record.key !in names.loose && env.names == names.(loose := names.loose[record.key := key])
      ensures forall x :: x in idx.Contents ==> |x| <= MAX_STR_LEN
      ensures rid in old(env.names.recs) && record == old(env.names.recs)[rid]
      ensures names.recs == RecordGone(old(env.names), rid).recs && names.loose == RecordGone(old(env.names), rid).loose
    {
      hide BTree.Valid, BTree.Standing, BTree.Named, Store.Valid, Represents, OwnedOnce;
      Row(Map, idx.Contents, env.names, Owner, key);
      record := Fetch(rid);
      RemoveEntry(rid, key);
      RecordRemoved(Map, old(idx.Contents), env.names, Owner, key);
      names := env.names.(loose := env.names.loose - {record.key} - {record.value}, recs := env.names.recs - {rid});
      owner := Owner - {record.key} - {record.value};
      DropRecord(rid, record.value, false, record.key);
      KeyKept(names, env.names, record.key, key);
    }

    static lemma {:induction false} KeyKept(names: Names, now: Names, k: Rid, key: Text)
      requires k in now.loose && now.loose[k] == key && names == now.(loose := now.loose - {k})
      ensures now == names.(loose := names.loose[k := key]) && k !in names.loose
    {
    }

    /** What the record of a present key is. */
    static lemma {:induction false} Row(model: Model, contents: map<Text, Rid>, names: Names, owner: map<Rid, Rid>,
                                        key: Text)
      requires Represents(model, contents, names) && OwnedOnce(names, owner) && key in contents
      ensures contents[key] in names.recs && key in model
      ensures var r := names.recs[contents[key]];
              r.key in names.loose && names.loose[r.key] == key && r.value in names.loose
                  && names.loose[r.value] == model[key] && r.key != r.value
    {
    }

    /** delete_record and delete_string, for the value and perhaps for the key. */
    method DropRecord(rid: Rid, value: Rid, both: bool, key: Rid)
      requires Open() && rid in env.names.recs && value in env.names.loose && key in env.names.loose && key != value
      modifies env.Repr()
      ensures Open() && env.names == old(env.names).(
                recs := old(env.names).recs - {rid},
                loose := if both then old(env.names).loose - {key} - {value} else old(env.names).loose - {value})
    {
      hide BTree.Valid, BTree.Standing, BTree.Named, Store.Valid;
      env.DeleteRecord(rid);
      if both {
        env.DeleteLoose(key);
      }
      env.DeleteLoose(value);
    }

    // ----- myjql_del -----

    method Del(key: Text)
      requires Valid() && idx.Height <= (if key in Map then 14 else 15)
      modifies Repr()
      ensures Valid() && Map == old(Map) - {key} && idx.Height <= old(idx.Height)
      ensures Erased(old(env.names), old(idx.Contents), env.names, idx.Contents, key)
    {
      hide BTree.Valid, BTree.Standing, BTree.Named, Store.Valid, Represents, OwnedOnce;
      SameKeys();
      var rid := idx.Search(key);
      if rid == NULL_RID {
        return;
      }
      DelFound(rid, key);
    }

    method DelFound(rid: Rid, ghost key: Text)
      requires Valid() && idx.Height <= 14 && key in idx.Contents && rid == idx.Contents[key]
      modifies Repr()
      ensures Valid() && Map == old(Map) - {key} && idx.Height <= old(idx.Height)
      ensures Erased(old(env.names), old(idx.Contents), env.names, idx.Contents, key)
    {
      hide BTree.Valid, BTree.Standing, BTree.Named, Store.Valid, Represents, OwnedOnce;
      Row(Map, idx.Contents, env.names, Owner, key);
      RemoveEntry(rid, key);
      RecordRemoved(Map, old(idx.Contents), env.names, Owner, key);
      Row(Map, old(idx.Contents), env.names, Owner, key);
      ForgetRecord(rid, key);
    }

    /** The entry of the key has left the index: the record and both of its strings go. */
    method ForgetRecord(rid: Rid, ghost key: Text)
      requires Open() && rid in env.names.recs && (forall x :: x in idx.Contents ==> |x| <= MAX_STR_LEN)
      requires var r := env.names.recs[rid];
               && r.key in env.names.loose && r.value in env.names.loose && r.key != r.value
               && var out := env.names.(loose := env.names.loose - {r.key} - {r.value}, recs := env.names.recs - {rid});
               Represents(Map - {key}, idx.Contents, out) && OwnedOnce(out, Owner - {r.key} - {r.value})
      modifies Repr()
      ensures Valid() && Map == old(Map) - {key} && idx.Height == old(idx.Height)
      ensures idx.Contents == old(idx.Contents) && env.names == RecordGone(old(env.names), rid)
    {
      hide BTree.Valid, BTree.Standing, BTree.Named, Store.Valid, Represents, OwnedOnce;
      var record := env.FetchRecord(rid);
      DropRecord(rid, record.value, true, record.key);
      StillNamed(Map - {key}, idx.Contents, env.names);
      idx.StandsAgain();
      Map, Owner := Map - {key}, Owner - {record.key} - {record.value};
    }

    // ----- Runs -----

    /** One call of the interface. */
    method Perform(op: Op) returns (answer: Answer)
      requires Valid() && idx.Height <= Limit(op) && (op.Set? ==> |op.key| <= MAX_STR_LEN)
      modifies Repr()
      ensures Valid() && Map == Next(old(Map), op) && answer == Reply(old(Map), op)
      ensures idx.Height <= old(idx.Height) + Growth(op)
    {
      hide Valid, Prefix;
      match op {
        case Get(key, maxSize) =>
          var size, value := Get(key, maxSize);
          answer := if size == -1 then NotFound else Found(value);
        case Set(key, value) =>
          Set(key, value);
          answer := Done;
        case Del(key) =>
          Del(key);
          answer := Done;
      }
    }

    /** Any run of calls behaves as the same run on a map from strings to strings. */
    method Run(ops: seq<Op>) returns (answers: seq<Answer>)
      requires Bearable(Map, idx.Height, ops, Capacity(idx.d))
      requires Valid()
      modifies Repr()
      ensures Refines(old(Map), ops, Map, answers)
      ensures Valid()
    {
      hide Valid, Capacity, Next, Reply, After, Replies, Bearable;
      answers := [];
      var i := 0;
      ghost var height: nat := idx.Height;
      assert ops[0..] == ops;
      while i < |ops|
        invariant 0 <= i <= |ops| && Valid() && Bearable(Map, height, ops[i..], Capacity(idx.d)) && idx.Height <= height
        invariant After(Map, ops[i..]) == After(old(Map), ops)
        invariant answers + Replies(Map, ops[i..]) == Replies(old(Map), ops)
      {
        assert ops[i..][0] == ops[i] && ops[i..][1..] == ops[i + 1..];
        FirstCall(Map, height, ops[i..], Capacity(idx.d));
        LowEnough(height, ops[i]);
        height := height + Growth(ops[i]);
        var answer := Perform(ops[i]);
        answers := answers + [answer];
        i := i + 1;
      }
      NothingLeft(Map, ops[i..]);
    }

    /**
     Nothing is leaked or shared: every live string is the key or the value of one record in the
     index, or one separator of one inner node, and every live record is in the index.
     */
    lemma {:induction false} Accounted()
      requires Valid()
      ensures env.rec.Live.Keys == env.names.recs.Keys == idx.Contents.Values
      ensures env.str.Texts.Keys == Owner.Keys + env.names.seps.Keys && Owner.Keys !! env.names.seps.Keys
      ensures multiset(Seps(idx.Root)) == SepBag(env.names.seps)
    {
      hide Table.Valid, StringTable.Valid, BufferPool.Valid, Rep, Rows, Pages, Leaves, Wf, Less, Represents, SepBag,
           Known, Lists, Linked, FreeList, Conserved;
      RecordsAre(Map, idx.Contents, env.names);
    }

    static lemma {:induction false} RecordsAre(model: Model, contents: map<Text, Rid>, names: Names)
      requires Represents(model, contents, names)
      ensures names.recs.Keys == contents.Values
    {
      forall r
        ensures r in names.recs <==> r in contents.Values
      {
        if r in names.recs {
          assert names.loose[names.recs[r].key] in contents;
        }
      }
    }
  }

  /** Any run of calls on empty files, with short keys and not too many calls of set. */
  method RunFromEmpty(ops: seq<Op>) returns (answers: seq<Answer>)
    requires Sets(ops) < Capacity(DEGREE)
    requires forall i :: 0 <= i < |ops| && ops[i].Set? ==> |ops[i].key| <= MAX_STR_LEN
    ensures |answers| == |ops| && forall i :: 0 <= i < |ops| ==> answers[i] == Answered(ops, i)
  {
    hide Capacity, MyJql.Valid, MyJql.Repr, After, Replies, Answered, Bearable;
    Degree();
    var store := new MyJql(DEGREE);
    BearableRun(map[], 1, ops, Capacity(DEGREE));
    answers := store.Run(ops);
    forall i | 0 <= i < |ops|
      ensures |answers| == |ops| && answers[i] == Answered(ops, i)
    {
      AnswerAt(ops, i);
    }
    RepliesLength(map[], ops);
  }
}
