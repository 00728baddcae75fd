/**
 The page file and the pinned, least-recently-used page cache in front of it.

 A file is a growable array of pages, addressed in bytes; a pool keeps sixteen frames.
 The ghost map `Disk` is the logical page array that clients see, `Pins` counts the
 outstanding get_page calls of every address, and `Hist` is the log of all get_page calls.
 A pointer into the cache is modelled by the index of its frame, so a client that writes
 through a pointer must know which address that frame holds at that moment.
 */
module BufferPools {

  const PAGE_SIZE := 128
  const CACHE_PAGE := 16
  const NO_PAGE := -1

  predicate IsAddr(a: int, length: int) {
    0 <= a < length && a % PAGE_SIZE == 0
  }

  datatype File<P> = File(pages: map<int, P>, length: int) {

    ghost predicate WellFormed() {
      && 0 <= length
      && length % PAGE_SIZE == 0
      && (forall a :: a in pages <==> IsAddr(a, length))
    }

    /** A write at an address that is unaligned or out of range is refused and changes nothing. */
    function Write(page: P, addr: int): File<P> {
      if addr % PAGE_SIZE != 0 || addr < 0 || addr > length then this
      else File(pages[addr := page], if addr == length then length + PAGE_SIZE else length)
    }
  }

  // ----- What the arrays of a pool mean -----

  ghost predicate Distinct(s: seq<int>) {
    forall i, j :: 0 <= i < j < |s| && s[i] != NO_PAGE ==> s[i] != s[j]
  }

  /** A resident page is the page in its frame, every other page is the page in the file. */
  ghost predicate Coherent<P>(file: File<P>, frames: seq<P>, addrs: seq<int>, disk: map<int, P>) {
    && file.WellFormed()
    && disk.Keys == file.pages.Keys
    && |frames| == |addrs|
    && Distinct(addrs)
    && (forall g :: 0 <= g < |addrs| && addrs[g] != NO_PAGE ==> addrs[g] in disk && disk[addrs[g]] == frames[g])
    && (forall a :: a in disk && a !in addrs ==> file.pages[a] == disk[a])
  }

  ghost predicate Counted(addrs: seq<int>, refs: seq<int>, pins: multiset<int>) {
    && |refs| == |addrs|
    && NO_PAGE !in pins
    && (forall a :: a in pins ==> a in addrs)
    && (forall g :: 0 <= g < |addrs| ==> refs[g] == pins[addrs[g]])
  }

  /** The position after the last call that asked for a; 0 when no call ever did. */
  ghost function LastUse(hist: seq<int>, a: int): (r: nat)
    ensures r <= |hist|
  {
    if |hist| == 0 then 0
    else if hist[|hist| - 1] == a then |hist|
    else LastUse(hist[..|hist| - 1], a)
  }

  /** The lru array lists the resident pages, each once, from the most to the least recently used. */
  ghost predicate Recency(lru: seq<int>, addrs: seq<int>, hist: seq<int>) {
    && |lru| == |addrs|
    && (forall a :: a != NO_PAGE ==> (a in lru <==> a in addrs))
    && Distinct(lru)
    && (forall i, j :: 0 <= i < j < |lru| && lru[i] == NO_PAGE ==> lru[j] == NO_PAGE)
    && (forall i, j :: 0 <= i < j < |lru| && lru[j] != NO_PAGE ==> LastUse(hist, lru[j]) < LastUse(hist, lru[i]))
  }

  ghost function PinSet(pins: multiset<int>): set<int> {
    set a | a in pins
  }

  lemma {:induction false} PinOne(pins: multiset<int>, addr: int)
    ensures PinSet(pins + multiset{addr}) == PinSet(pins) + {addr}
    ensures |PinSet(pins + multiset{addr})| <= |PinSet(pins)| + 1
  {
    assert forall a :: a in pins + multiset{addr} <==> a in pins || a == addr;
    assert PinSet(pins + multiset{addr}) == PinSet(pins) + {addr};
  }

  function ToFront(lru: seq<int>, i: nat, addr: int): seq<int>
    requires i < |lru|
  {
    [addr] + lru[..i] + lru[i + 1..]
  }

  // ----- Counting -----

  lemma {:induction false} DistinctCount(s: seq<int>)
    requires Distinct(s) && NO_PAGE !in s
    ensures |set x | x in s| == |s|
  {
    if s == [] {
      assert (set x | x in s) == {};
    } else {
      var n := |s| - 1;
      DistinctCount(s[..n]);
      assert (set x | x in s) == (set x | x in s[..n]) + {s[n]};
    }
  }

  lemma {:induction false} RangeCount(s: seq<int>)
    ensures |set x | x in s| <= |s|
  {
    if s == [] {
      assert (set x | x in s) == {};
    } else {
      var n := |s| - 1;
      RangeCount(s[..n]);
      assert (set x | x in s) == (set x | x in s[..n]) + {s[n]};
    }
  }

  lemma {:induction false} SubsetCount(a: set<int>, b: set<int>)
    requires a <= b
    ensures |a| <= |b|
  {
    assert b == a + (b - a);
  }

  /** While a frame is empty, the last lru entry is unused, so shifting it out loses nothing. */
  lemma {:induction false} LastEntryUnused(lru: seq<int>, addrs: seq<int>, hist: seq<int>)
    requires Recency(lru, addrs, hist) && Distinct(addrs) && NO_PAGE in addrs
    ensures lru[|lru| - 1] == NO_PAGE
  {
    if lru[|lru| - 1] != NO_PAGE {
      var used := set x | x in lru;
      var resident := set x | x in addrs;
      assert NO_PAGE !in lru;
      DistinctCount(lru);
      RangeCount(addrs);
      assert used <= resident - {NO_PAGE};
      SubsetCount(used, resident - {NO_PAGE});
      assert false;
    }
  }

  /** Once every frame is taken, so is every lru entry. */
  lemma {:induction false} AllEntriesUsed(lru: seq<int>, addrs: seq<int>, hist: seq<int>)
    requires Recency(lru, addrs, hist) && Distinct(addrs) && NO_PAGE !in addrs
    ensures NO_PAGE !in lru
  {
    if NO_PAGE in lru {
      var used := set x | x in lru;
      var resident := set x | x in addrs;
      DistinctCount(addrs);
      RangeCount(lru);
      assert resident <= used - {NO_PAGE};
      SubsetCount(resident, used - {NO_PAGE});
      assert false;
    }
  }

  /** get_page can return exactly when the pinned pages together with the wanted one fit in the cache. */
  lemma {:induction false} PinBudget(addrs: seq<int>, refs: seq<int>, pins: multiset<int>, addr: int)
    requires Counted(addrs, refs, pins) && Distinct(addrs) && |addrs| == CACHE_PAGE && addr != NO_PAGE
    ensures (addr in addrs || NO_PAGE in addrs || exists g :: 0 <= g < |addrs| && refs[g] == 0)
       <==> |PinSet(pins) + {addr}| <= CACHE_PAGE
  {
    var resident := set x | x in addrs;
    RangeCount(addrs);
    forall a | a in PinSet(pins)
      ensures a in resident && a != NO_PAGE
    {
      assert a in pins;
    }
    if addr in addrs {
      SubsetCount(PinSet(pins) + {addr}, resident);
    } else if g :| 0 <= g < |addrs| && (addrs[g] == NO_PAGE || refs[g] == 0) {
      assert addrs[g] in resident && addrs[g] !in pins;
      SubsetCount(PinSet(pins), resident - {addrs[g]});
    } else {
      forall a | a in resident
        ensures a in PinSet(pins)
      {
        var g :| 0 <= g < |addrs| && addrs[g] == a;
        assert refs[g] == pins[addrs[g]];
      }
      assert PinSet(pins) == resident;
      DistinctCount(addrs);
    }
  }

  // ----- What one get_page call does to them -----

  lemma {:induction false} LastUseAppend(hist: seq<int>, addr: int, a: int)
    ensures LastUse(hist + [addr], a) == if a == addr then |hist| + 1 else LastUse(hist, a)
  {
    assert (hist + [addr])[..|hist|] == hist;
  }

  /** Moving addr to the front, in place of entry i, keeps the list recency-ordered. */
  lemma {:induction false} RecencyStep(lru: seq<int>, addrs: seq<int>, hist: seq<int>, i: nat, f: nat, addr: int)
    requires Recency(lru, addrs, hist) && Distinct(addrs) && addr != NO_PAGE
    requires i < |lru| && f < |addrs| && addrs[f] == lru[i]
    requires lru[i] == addr || addr !in addrs
    requires lru[i] == NO_PAGE ==> i == |lru| - 1
    ensures Recency(ToFront(lru, i, addr), addrs[f := addr], hist + [addr])
  {
    var lru' := ToFront(lru, i, addr);
    forall k | 0 < k < |lru|
      ensures lru'[k] == lru[Before(i, k)] && lru'[k] != addr
    {
    }
    forall a | a != NO_PAGE
      ensures a in lru' <==> a in addrs[f := addr]
    {
      SameMembers(lru, addrs, i, f, addr, a);
    }
    forall j, k | 0 <= j < k < |lru'| && lru'[k] != NO_PAGE
      ensures LastUse(hist + [addr], lru'[k]) < LastUse(hist + [addr], lru'[j])
    {
      LastUseAppend(hist, addr, lru'[k]);
      LastUseAppend(hist, addr, lru'[j]);
    }
  }

  /** Where the entry now at position k stood before entry i was moved to the front. */
  ghost function Before(i: nat, k: int): int {
    if k <= i then k - 1 else k
  }

  lemma {:induction false} SameMembers(lru: seq<int>, addrs: seq<int>, i: nat, f: nat, addr: int, a: int)
    requires Distinct(lru) && Distinct(addrs) && a != NO_PAGE
    requires a in lru <==> a in addrs
    requires i < |lru| && f < |addrs| && addrs[f] == lru[i]
    ensures a in ToFront(lru, i, addr) <==> a in addrs[f := addr]
  {
    var lru', addrs' := ToFront(lru, i, addr), addrs[f := addr];
    if a == addr {
      assert lru'[0] == a && addrs'[f] == a;
    } else if a == lru[i] {
      assert a !in addrs' && a !in lru';
    } else {
      assert a in lru' <==> a in lru by {
        if k :| 0 <= k < |lru| && lru[k] == a {
          assert lru'[if k < i then k + 1 else k] == a;
        }
      }
      assert a in addrs' <==> a in addrs by {
        if g :| 0 <= g < |addrs| && addrs[g] == a {
          assert addrs'[g] == a;
        }
      }
    }
  }

  lemma {:induction false} CoherentStep<P>(file: File<P>, frames: seq<P>, addrs: seq<int>, disk: map<int, P>, f: nat,
                                           addr: int)
    requires Coherent(file, frames, addrs, disk)
    requires f < |addrs| && addr in disk && addr !in addrs
    ensures addr in file.pages
    ensures var out := file.Write(frames[f], addrs[f]);
            addr in out.pages && Coherent(out, frames[f := out.pages[addr]], addrs[f := addr], disk)
  {
    var out := file.Write(frames[f], addrs[f]);
    var addrs' := addrs[f := addr];
    assert IsAddr(addr, file.length);
    if addrs[f] != NO_PAGE {
      assert IsAddr(addrs[f], file.length);
    }
    forall a | a in disk && a !in addrs'
      ensures out.pages[a] == disk[a]
    {
      if a in addrs {
        var g :| 0 <= g < |addrs| && addrs[g] == a;
        assert addrs'[g] == a || g == f;
      }
    }
  }

  /** Frame f, which nobody uses, takes in the page at addr. */
  lemma {:induction false} ReplaceStep<P>(file: File<P>, frames: seq<P>, addrs: seq<int>, lru: seq<int>,
                                          refs: seq<int>, disk: map<int, P>, pins: multiset<int>, hist: seq<int>,
                                          i: nat, f: nat, addr: int)
    requires Coherent(file, frames, addrs, disk) && Counted(addrs, refs, pins) && Recency(lru, addrs, hist)
    requires addr in disk && addr !in addrs
    requires i < |lru| && f < |addrs| == |frames| == |refs| && addrs[f] == lru[i] && refs[f] == 0
    requires lru[i] == NO_PAGE ==> i == |lru| - 1
    ensures addr in file.pages
    ensures var out := file.Write(frames[f], addrs[f]);
            && (addrs[f] == NO_PAGE ==> out == file) && out.length == file.length
            && addr in out.pages && Coherent(out, frames[f := out.pages[addr]], addrs[f := addr], disk)
    ensures Counted(addrs[f := addr], refs[f := 1], pins + multiset{addr})
    ensures Recency(ToFront(lru, i, addr), addrs[f := addr], hist + [addr])
  {
    CoherentStep(file, frames, addrs, disk, f, addr);
    AddrIsPage(file, frames, addrs, disk, f, addr);
    CountedStep(addrs, refs, pins, f, addr);
    hide Coherent;
    RecencyStep(lru, addrs, hist, i, f, addr);
  }

  lemma {:induction false} AddrIsPage<P>(file: File<P>, frames: seq<P>, addrs: seq<int>, disk: map<int, P>, f: nat,
                                         addr: int)
    requires Coherent(file, frames, addrs, disk) && f < |addrs| && addr in disk
    ensures Distinct(addrs) && addr != NO_PAGE
    ensures addrs[f] != NO_PAGE ==> IsAddr(addrs[f], file.length)
  {
  }

  lemma {:induction false} CountedStep(addrs: seq<int>, refs: seq<int>, pins: multiset<int>, f: nat, addr: int)
    requires Counted(addrs, refs, pins) && f < |addrs| && addr !in addrs && refs[f] == 0 && addr != NO_PAGE
    ensures Counted(addrs[f := addr], refs[f := 1], pins + multiset{addr})
  {
    var addrs' := addrs[f := addr];
    assert addr !in pins && addrs[f] !in pins;
    forall a | a in pins + multiset{addr}
      ensures a in addrs'
    {
      if a == addr {
        assert addrs'[f] == a;
      } else {
        var g :| 0 <= g < |addrs| && addrs[g] == a;
        assert addrs'[g] == a;
      }
    }
  }

  class BufferPool<P> {
    var file: File<P>
    const frames: array<P>
    const addrs: array<int>
    const lru: array<int>
    const refs: array<int>
    ghost var Disk: map<int, P>
    ghost var Pins: multiset<int>
    ghost var Hist: seq<int>

    ghost function Repr(): set<object> {
      {this, frames, addrs, lru, refs}
    }

    ghost predicate Shape() {
      && frames.Length == addrs.Length == lru.Length == refs.Length == CACHE_PAGE
      && addrs != lru && addrs != refs && lru != refs
      && frames as object != addrs as object && frames as object != lru as object && frames as object != refs as object
    }

    ghost predicate Valid()
      reads this, frames, addrs, lru, refs
    {
      && Shape()
      && Coherent(file, frames[..], addrs[..], Disk)
      && Counted(addrs[..], refs[..], Pins)
      && Recency(lru[..], addrs[..], Hist)
    }

    /** Frame f is the cached copy of the page at address a. */
    ghost predicate Holds(f: int, a: int)
      requires Shape()
      reads addrs
    {
      0 <= f < CACHE_PAGE && addrs[f] == a
    }

    /** The frame of a resident page shows the logical page. */
    lemma {:induction false} Frame(f: int, a: int)
      requires Valid() && Holds(f, a) && a != NO_PAGE
      ensures a in Disk && frames[f] == Disk[a]
    {
    }

    /** Addresses are byte offsets of pages. */
    lemma {:induction false} Addresses()
      requires Valid()
      ensures forall a :: a in Disk <==> IsAddr(a, file.length)
    {
    }

    constructor (existing: File<P>, blank: P)
      requires existing.WellFormed()
      ensures Shape() && Valid() && fresh(Repr()) && this in Repr()
      ensures Disk == existing.pages && file == existing && Pins == multiset{}
    {
      file := existing;
      frames := new P[CACHE_PAGE](_ => blank);
      addrs := new int[CACHE_PAGE](_ => NO_PAGE);
      lru := new int[CACHE_PAGE](_ => NO_PAGE);
      refs := new int[CACHE_PAGE](_ => 0);
      Disk := existing.pages;
      Pins := multiset{};
      Hist := [];
    }

    /** The loop that all three branches of get_page share: entries below i move up by one. */
    method MoveToFront(i: nat, addr: int)
      requires i < lru.Length
      modifies lru
      ensures lru[..] == ToFront(old(lru[..]), i, addr) && lru[0] == addr
    {
      var k := i;
      while k >= 1
        invariant 0 <= k <= i
        invariant forall x :: 0 <= x < lru.Length && (x <= k || x > i) ==> lru[x] == old(lru[x])
        invariant forall x :: k < x <= i ==> lru[x] == old(lru[x - 1])
      {
        lru[k] := lru[k - 1];
        k := k - 1;
      }
      lru[0] := addr;
    }

    /** The loop of the first branch that looks for addr in the lru array and moves it to the front. */
    method Touch(ghost f: nat, addr: int)
      requires Shape() && addr != NO_PAGE && f < CACHE_PAGE && addrs[f] == addr
      requires Distinct(addrs[..]) && Recency(lru[..], addrs[..], Hist)
      modifies lru, `Hist
      ensures Hist == old(Hist) + [addr] && Recency(lru[..], addrs[..], Hist)
      ensures lru[0] == addr
    {
      assert addrs[..][f] == addr;
      assert addr in lru[..];
      var j := 0;
      while lru[j] != addr
        invariant 0 <= j < CACHE_PAGE
        invariant addr !in lru[..j]
        decreases CACHE_PAGE - j
      {
        assert lru[..] == lru[..j + 1] + lru[j + 1..];
        j := j + 1;
      }
      RecencyStep(lru[..], addrs[..], Hist, j, f, addr);
      assert addrs[..][f := addr] == addrs[..];
      MoveToFront(j, addr);
      Hist := Hist + [addr];
    }

    /** get_page on a page that is resident in frame f. */
    method Hit(f: nat, addr: int)
      requires Valid() && addr in Disk && f < CACHE_PAGE && addrs[f] == addr
      modifies this`Pins, this`Hist, lru, refs
      ensures Valid() && Pins == old(Pins) + multiset{addr} && Hist == old(Hist) + [addr]
      ensures lru[0] == addr
    {
      refs[f] := refs[f] + 1;
      Pins := Pins + multiset{addr};
      Touch(f, addr);
    }

    /** The file has changed only by the page that frame f held before, if it held one, and the frames only in f. */
    twostate predicate Reloaded(f: int, addr: int)
      requires Shape() && 0 <= f < CACHE_PAGE
      reads this, frames, addrs
    {
      && file == (if old(addrs[f]) == NO_PAGE then old(file) else old(file).Write(old(frames[f]), old(addrs[f])))
      && addr in file.pages && frames[..] == old(frames[..])[f := file.pages[addr]]
    }

    /** The common tail of the other two branches: frame f, which nobody uses, takes in addr. */
    method Replace(i: nat, f: nat, addr: int)
      requires Valid() && addr in Disk && addr !in addrs[..]
      requires i < CACHE_PAGE && f < CACHE_PAGE && addrs[f] == lru[i] && refs[f] == 0
      requires lru[i] == NO_PAGE ==> i == CACHE_PAGE - 1
      modifies this`file, this`Pins, this`Hist, frames, addrs, lru, refs
      ensures Valid() && Pins == old(Pins) + multiset{addr} && Hist == old(Hist) + [addr]
      ensures addrs[..] == old(addrs[..])[f := addr] && file.length == old(file.length)
      ensures lru[0] == addr
      ensures Reloaded(f, addr)
    {
      hide Coherent, Counted, Recency, ToFront, Distinct, File.Write;
      ghost var was, out := addrs[..], file.Write(frames[f], addrs[f]);
      ReplaceStep(file, frames[..], addrs[..], lru[..], refs[..], Disk, Pins, Hist, i, f, addr);
      if addrs[f] != NO_PAGE {
        file := file.Write(frames[f], addrs[f]);
      }
      frames[f] := file.pages[addr];
      addrs[f] := addr;
      refs[f] := refs[f] + 1;
      Pins := Pins + multiset{addr};
      MoveToFront(i, addr);
      Hist := Hist + [addr];
      assert file == out;
      assert frames[..] == old(frames[..])[f := file.pages[addr]];
      assert addrs[..] == was[f := addr];
      assert refs[..] == old(refs[..])[f := 1];
    }

    /**
     get_page: a hit, an empty frame, or the eviction of the least recently used unpinned page.
     The precondition is the exact condition under which the source reaches a return statement.
     */
    method GetPage(addr: int) returns (f: int)
      requires Valid() && addr in Disk
      requires |PinSet(Pins) + {addr}| <= CACHE_PAGE
      modifies this`file, this`Pins, this`Hist, frames, addrs, lru, refs
      ensures Valid() && Pins == old(Pins) + multiset{addr} && Hist == old(Hist) + [addr]
      ensures Holds(f, addr) && frames[f] == Disk[addr]
      ensures addrs[..] == old(addrs[..])[f := addr] && file.length == old(file.length)
      ensures lru[0] == addr
      // only an unpinned page is evicted, and only when the cache is full and addr is not in it
      ensures old(addrs[f]) != addr ==> addr !in old(addrs[..]) && old(addrs[f]) !in old(Pins)
      ensures old(addrs[f]) !in {addr, NO_PAGE} ==> NO_PAGE !in old(addrs[..])
      // the evicted page is the least recently used of the unpinned ones
      ensures old(addrs[f]) !in {addr, NO_PAGE} ==>
                forall g :: 0 <= g < CACHE_PAGE && old(addrs[g]) !in old(Pins) ==>
                  LastUse(old(Hist), old(addrs[f])) <= LastUse(old(Hist), old(addrs[g]))
      // so the page used last stays, unless everything else is pinned
      ensures old(addrs[f]) !in {addr, NO_PAGE} && |PinSet(old(Pins)) + {old(lru[0])}| < CACHE_PAGE
          ==> old(addrs[f]) != old(lru[0])
      // a hit leaves file and frames alone, the first empty frame is taken, and a victim is written back
      ensures if old(addrs[f]) == addr then file == old(file) && frames[..] == old(frames[..]) else Reloaded(f, addr)
      ensures old(addrs[f]) == NO_PAGE ==> NO_PAGE !in old(addrs[..f])
    {
      f := 0;
      while f < CACHE_PAGE
        invariant 0 <= f <= CACHE_PAGE
        invariant addr !in addrs[..f]
      {
        if addrs[f] == addr {
          assert addrs[..][f := addr] == addrs[..];
          Hit(f, addr);
          return;
        }
        assert addrs[..f + 1] == addrs[..f] + [addrs[f]];
        f := f + 1;
      }
      assert addrs[..f] == addrs[..];
      f := 0;
      while f < CACHE_PAGE
        invariant 0 <= f <= CACHE_PAGE
        invariant NO_PAGE !in addrs[..f]
      {
        if addrs[f] == NO_PAGE {
          assert addrs[..][f] == NO_PAGE;
          LastEntryUnused(lru[..], addrs[..], Hist);
          Replace(CACHE_PAGE - 1, f, addr);
          return;
        }
        assert addrs[..f + 1] == addrs[..f] + [addrs[f]];
        f := f + 1;
      }
      assert addrs[..f] == addrs[..];
      f := EvictLeastRecent(addr);
    }

    /** The last branch of get_page: every frame is taken and addr is not resident. */
    method EvictLeastRecent(addr: int) returns (f: int)
      requires Valid() && addr in Disk && addr !in addrs[..] && NO_PAGE !in addrs[..]
      requires |PinSet(Pins) + {addr}| <= CACHE_PAGE
      modifies this`file, this`Pins, this`Hist, frames, addrs, lru, refs
      ensures Valid() && Pins == old(Pins) + multiset{addr} && Hist == old(Hist) + [addr]
      ensures Holds(f, addr) && old(addrs[f]) !in old(Pins)
      ensures addrs[..] == old(addrs[..])[f := addr] && file.length == old(file.length)
      ensures lru[0] == addr
      ensures forall g :: 0 <= g < CACHE_PAGE && old(addrs[g]) !in old(Pins) ==>
                LastUse(old(Hist), old(addrs[f])) <= LastUse(old(Hist), old(addrs[g]))
      ensures |PinSet(old(Pins)) + {old(lru[0])}| < CACHE_PAGE ==> old(addrs[f]) != old(lru[0])
      ensures Reloaded(f, addr)
    {
      var i;
      i, f := FindVictim(addr);
      LeastRecentUnpinned(i, f);
      Replace(i, f, addr);
    }

    /** The two nested loops over the lru array, from its end, and over the frames. */
    method FindVictim(addr: int) returns (i: nat, f: nat)
      requires Valid() && addr != NO_PAGE && addr !in addrs[..] && NO_PAGE !in addrs[..]
      requires |PinSet(Pins) + {addr}| <= CACHE_PAGE
      ensures i < CACHE_PAGE && f < CACHE_PAGE && addrs[f] == lru[i] && refs[f] == 0
      ensures forall x :: i < x < CACHE_PAGE ==> lru[x] in Pins
    {
      ghost var where := SomeUnpinned(addr);
      i := CACHE_PAGE - 1;
      while true
        invariant where <= i < CACHE_PAGE
        invariant forall x :: i < x < CACHE_PAGE ==> lru[x] in Pins
        decreases i
      {
        ghost var owner := OwnerOf(i);
        f := 0;
        while f < CACHE_PAGE
          invariant 0 <= f <= CACHE_PAGE
          invariant forall y :: 0 <= y < f ==> addrs[y] != lru[i] || refs[y] != 0
        {
          if addrs[f] == lru[i] && refs[f] == 0 {
            return;
          }
          f := f + 1;
        }
        i := i - 1;
      }
    }

    lemma {:induction false} SomeUnpinned(addr: int) returns (where: nat)
      requires Valid() && addr != NO_PAGE && addr !in addrs[..] && NO_PAGE !in addrs[..]
      requires |PinSet(Pins) + {addr}| <= CACHE_PAGE
      ensures where < CACHE_PAGE && lru[where] !in Pins
      ensures NO_PAGE !in lru[..]
    {
      PinBudget(addrs[..], refs[..], Pins, addr);
      AllEntriesUsed(lru[..], addrs[..], Hist);
      var g :| 0 <= g < CACHE_PAGE && refs[..][g] == 0;
      assert addrs[..][g] in lru[..];
      where :| 0 <= where < CACHE_PAGE && lru[..][where] == addrs[g];
    }

    lemma {:induction false} OwnerOf(i: nat) returns (owner: nat)
      requires Valid() && i < CACHE_PAGE && NO_PAGE !in lru[..]
      ensures owner < CACHE_PAGE && addrs[owner] == lru[i] && refs[owner] == Pins[lru[i]]
    {
      assert lru[..][i] in lru[..];
      owner :| 0 <= owner < CACHE_PAGE && addrs[..][owner] == lru[i];
    }

    lemma {:induction false} LeastRecentUnpinned(i: nat, f: nat)
      requires Valid() && NO_PAGE !in addrs[..] && i < CACHE_PAGE && f < CACHE_PAGE
      requires addrs[f] == lru[i] && refs[f] == 0
      requires forall x :: i < x < CACHE_PAGE ==> lru[x] in Pins
      ensures addrs[f] !in Pins
      ensures forall g :: 0 <= g < CACHE_PAGE && addrs[g] !in Pins ==>
                LastUse(Hist, addrs[f]) <= LastUse(Hist, addrs[g])
      ensures |PinSet(Pins) + {lru[0]}| < CACHE_PAGE ==> addrs[f] != lru[0]
    {
      assert refs[..][f] == Pins[addrs[..][f]];
      forall g | 0 <= g < CACHE_PAGE && addrs[g] !in Pins
        ensures LastUse(Hist, addrs[f]) <= LastUse(Hist, addrs[g])
      {
        assert addrs[..][g] in lru[..];
        var x :| 0 <= x < CACHE_PAGE && lru[..][x] == addrs[g];
        assert x <= i;
      }
      if addrs[f] == lru[0] {
        assert lru[..][0] == lru[..][i];
        DistinctCount(lru[..]);
        var all := set x | x in lru[..];
        forall a | a in all
          ensures a in PinSet(Pins) + {lru[0]}
        {
        }
        SubsetCount(all, PinSet(Pins) + {lru[0]});
      }
    }

    method Release(addr: int)
      requires Valid() && addr in Pins
      modifies this`Pins, refs
      ensures Valid() && Pins == old(Pins) - multiset{addr}
    {
      assert addr in addrs[..];
      var i := 0;
      while addrs[i] != addr
        invariant 0 <= i < CACHE_PAGE
        invariant addr !in addrs[..i]
        decreases CACHE_PAGE - i
      {
        assert addrs[..] == addrs[..i + 1] + addrs[i + 1..];
        i := i + 1;
      }
      assert refs[..][i] == Pins[addrs[..][i]];
      refs[i] := refs[i] - 1;
      Pins := Pins - multiset{addr};
    }

    /** write_page at the end of the file: it goes past the cache. */
    method Append(page: P)
      requires Valid()
      modifies this`file, this`Disk
      ensures Valid() && file.length == old(file.length) + PAGE_SIZE
      ensures old(file.length) !in old(Disk)
      ensures Disk == old(Disk)[old(file.length) := page]
    {
      assert file.length !in Disk;
      file := file.Write(page, file.length);
      Disk := Disk[file.length - PAGE_SIZE := page];
      forall a | a in Disk && a !in addrs[..]
        ensures a in file.pages && file.pages[a] == Disk[a]
      {
      }
    }

    /** A client has written into frame f: the logical page of the address it holds is that now. */
    ghost method Commit(f: int)
      requires Shape() && 0 <= f < CACHE_PAGE && addrs[f] in Disk && |frames[..]| > 0
      requires Coherent(file, frames[..][f := Disk[addrs[f]]], addrs[..], Disk)
      requires Counted(addrs[..], refs[..], Pins) && Recency(lru[..], addrs[..], Hist)
      modifies this`Disk
      ensures Valid() && Disk == old(Disk)[addrs[f] := frames[f]]
    {
      Disk := Disk[addrs[f] := frames[f]];
      assert addrs[f] in addrs[..];
      forall g | 0 <= g < CACHE_PAGE && addrs[g] != NO_PAGE
        ensures addrs[g] in Disk && Disk[addrs[g]] == frames[g]
      {
        assert g != f ==> frames[..][f := old(Disk)[addrs[f]]][g] == frames[g];
      }
    }

    /** An assignment through a pointer into frame f. */
    method Store(f: int, page: P)
      requires Valid() && 0 <= f < CACHE_PAGE && addrs[f] in Disk
      modifies this`Disk, frames
      ensures Valid() && Disk == old(Disk)[addrs[f] := page]
      ensures frames[..] == old(frames[..])[f := page]
    {
      frames[f] := page;
      assert addrs[f] != NO_PAGE;
      assert frames[..][f := Disk[addrs[f]]] == old(frames[..]);
      Commit(f);
    }

    /** close_buffer_pool: unused frames have address -1, which write_page refuses. */
    method Close()
      requires Valid()
      modifies this`file
      ensures Valid() && file.pages == Disk && Disk == old(Disk)
    {
      var i := 0;
      while i < CACHE_PAGE
        invariant 0 <= i <= CACHE_PAGE
        invariant Coherent(file, frames[..], addrs[..], Disk)
        invariant forall g :: 0 <= g < i && addrs[g] != NO_PAGE ==> file.pages[addrs[g]] == Disk[addrs[g]]
      {
        assert addrs[i] != NO_PAGE ==> IsAddr(addrs[i], file.length);
        file := file.Write(frames[i], addrs[i]);
        i := i + 1;
      }
      forall a | a in Disk
        ensures file.pages[a] == Disk[a]
      {
        if a in addrs[..] {
          ghost var g :| 0 <= g < CACHE_PAGE && addrs[..][g] == a;
        }
      }
    }
  }
}
