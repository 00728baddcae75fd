/** Byte strings and the order that the string comparison of the store realises. */
module Texts {

  /** A C char, signed as on the platforms the store is built for. */
  type Char = c: int | -128 <= c < 128

  type Text = seq<Char>

  ghost predicate Less(a: Text, b: Text) {
    if b == [] then false
    else if a == [] then true
    else a[0] < b[0] || (a[0] == b[0] && Less(a[1..], b[1..]))
  }

  /** Up to k the two strings agree; there a ends, or has the smaller char. */
  ghost predicate DiffersAt(a: Text, b: Text, k: nat) {
    && k <= |a| && k <= |b| && a[..k] == b[..k]
    && (k == |a| < |b| || (k < |a| && k < |b| && a[k] < b[k]))
  }

  lemma {:induction false} FirstChars(a: Text, b: Text, k: nat)
    requires a != [] && b != [] && DiffersAt(a, b, k)
    ensures k == 0 || a[0] == b[0]
  {
    if k > 0 {
      assert a[0] == a[..k][0] && b[0] == b[..k][0];
    }
  }

  /** The order is lexicographic. */
  lemma {:induction false} Lexicographic(a: Text, b: Text)
    ensures Less(a, b) <==> exists k: nat :: DiffersAt(a, b, k)
  {
    if a == [] || b == [] {
      if a == [] != b {
        assert DiffersAt(a, b, 0);
      }
    } else if a[0] != b[0] {
      if a[0] < b[0] {
        assert DiffersAt(a, b, 0);
      }
      forall k: nat | DiffersAt(a, b, k)
        ensures k == 0
      {
        FirstChars(a, b, k);
      }
    } else {
      Lexicographic(a[1..], b[1..]);
      if k: nat :| DiffersAt(a[1..], b[1..], k) {
        assert a[..k + 1] == [a[0]] + a[1..][..k] && b[..k + 1] == [b[0]] + b[1..][..k];
        assert DiffersAt(a, b, k + 1);
      }
      if k: nat :| DiffersAt(a, b, k) {
        assert k > 0;
        assert a[1..][..k - 1] == a[..k][1..] && b[1..][..k - 1] == b[..k][1..];
        assert DiffersAt(a[1..], b[1..], k - 1);
      }
    }
  }

  lemma {:induction false} LessTrans(a: Text, b: Text, c: Text)
    requires Less(a, b) && Less(b, c)
    ensures Less(a, c)
  {
    if a != [] && a[0] == b[0] == c[0] {
      LessTrans(a[1..], b[1..], c[1..]);
    }
  }

  lemma {:induction false} LessTotal(a: Text, b: Text)
    ensures Less(a, b) || a == b || Less(b, a)
    ensures !(Less(a, b) && Less(b, a))
    ensures a == b ==> !Less(a, b)
  {
    if a != [] && b != [] && a[0] == b[0] {
      LessTotal(a[1..], b[1..]);
      assert a == [a[0]] + a[1..] && b == [b[0]] + b[1..];
    }
  }

  /** Less is a strict total order. */
  lemma {:induction false} TotalOrder()
    ensures forall a, b, c {:trigger Less(a, b), Less(b, c)} :: Less(a, b) && Less(b, c) ==> Less(a, c)
    ensures forall a, b {:trigger Less(a, b)} :: Less(a, b) || a == b || Less(b, a)
    ensures forall a, b {:trigger Less(a, b)} :: !(Less(a, b) && Less(b, a))
  {
    forall a, b, c | Less(a, b) && Less(b, c)
      ensures Less(a, c)
    {
      LessTrans(a, b, c);
    }
    forall a, b
      ensures (Less(a, b) || a == b || Less(b, a)) && !(Less(a, b) && Less(b, a))
    {
      LessTotal(a, b);
    }
  }

  // ----- Intervals of keys -----

  /** An end of an interval: unbounded, or a key. */
  datatype Bound = Open | At(key: Text)

  ghost predicate AtLeast(lo: Bound, k: Text) {
    lo.Open? || !Less(k, lo.key)
  }

  ghost predicate Above(lo: Bound, k: Text) {
    lo.Open? || Less(lo.key, k)
  }

  ghost predicate Below(k: Text, hi: Bound) {
    hi.Open? || Less(k, hi.key)
  }
}
