/**
 * The comparator abstraction (src/cmp.rs): an ordering on byte strings
 * together with a stable identifier, and the default bytewise comparator.
 */
module Cmp {
  import opened Bytes

  /** Rust's `std::cmp::Ordering`. */
  datatype Ordering = Less | Equal | Greater {
    /** `Ordering::reverse`. */
    function Reverse(): Ordering {
      match this
      case Less => Greater
      case Equal => Equal
      case Greater => Less
    }
  }

  /** `Ord::cmp` on unsigned integers. */
  function CompareNat(x: nat, y: nat): Ordering {
    if x < y then Less else if x == y then Equal else Greater
  }

  /**
   * `DefaultCmp::cmp`: the lexicographic order of byte slices (`a.cmp(b)`),
   * element by element, with a proper prefix ordered first.
   */
  function Compare(a: seq<byte>, b: seq<byte>): Ordering {
    if a == [] then (if b == [] then Equal else Less)
    else if b == [] then Greater
    else if a[0] < b[0] then Less
    else if a[0] > b[0] then Greater
    else Compare(a[1..], b[1..])
  }

  /** `DefaultCmp::id`. */
  const DEFAULT_CMP_ID: string := "CobbleDB.BytewiseComparator"

  /** A value of the `Cmp` trait: its `cmp` and its `id`. */
  datatype Comparator = Comparator(cmp: (seq<byte>, seq<byte>) -> Ordering, id: string)

  /** `DefaultCmp`, the only implementation of `Cmp` in the repository. */
  const DefaultCmp: Comparator := Comparator(Compare, DEFAULT_CMP_ID)

  /** `a` comes before `b` in dictionary order: a proper prefix, or smaller at the first difference. */
  ghost predicate LexLess(a: seq<byte>, b: seq<byte>) {
    || (|a| < |b| && a == b[..|a|])
    || exists i :: 0 <= i < |a| && i < |b| && a[..i] == b[..i] && a[i] < b[i]
  }

  /** The first byte at which the two strings differ decides the order. */
  lemma {:induction false} CompareFirstDifference(a: seq<byte>, b: seq<byte>, i: nat)
    requires i < |a| && i < |b| && a[..i] == b[..i] && a[i] != b[i]
    ensures Compare(a, b) == if a[i] < b[i] then Less else Greater
  {
    if i > 0 {
      assert a[0] == a[..i][0] == b[..i][0] == b[0];
      assert a[1..][..i - 1] == a[..i][1..] == b[..i][1..] == b[1..][..i - 1];
      CompareFirstDifference(a[1..], b[1..], i - 1);
    }
  }

  /** A proper prefix comes before every string that extends it. */
  lemma {:induction false} CompareProperPrefix(a: seq<byte>, b: seq<byte>)
    requires |a| < |b| && a == b[..|a|]
    ensures Compare(a, b) == Less && Compare(b, a) == Greater
  {
    if a != [] {
      assert a[0] == b[0];
      assert a[1..] == b[1..][..|a| - 1];
      CompareProperPrefix(a[1..], b[1..]);
    }
  }

  /** A common prefix does not change the order. */
  lemma {:induction false} CompareCommonPrefix(p: seq<byte>, x: seq<byte>, y: seq<byte>)
    ensures Compare(p + x, p + y) == Compare(x, y)
  {
    if p != [] {
      assert (p + x)[0] == p[0] == (p + y)[0];
      assert (p + x)[1..] == p[1..] + x;
      assert (p + y)[1..] == p[1..] + y;
      CompareCommonPrefix(p[1..], x, y);
    } else {
      assert p + x == x && p + y == y;
    }
  }

  /** `cmp` reports Equal exactly for identical byte strings. */
  lemma {:induction false} CompareEqualIff(a: seq<byte>, b: seq<byte>)
    ensures Compare(a, b) == Equal <==> a == b
  {
    if a != [] && b != [] && a[0] == b[0] {
      CompareEqualIff(a[1..], b[1..]);
      if a[1..] == b[1..] {
        assert a == [a[0]] + a[1..] && b == [b[0]] + b[1..];
      }
    }
  }

  /** Swapping the arguments reverses the result. */
  lemma {:induction false} CompareReverse(a: seq<byte>, b: seq<byte>)
    ensures Compare(b, a) == Compare(a, b).Reverse()
  {
    if a != [] && b != [] && a[0] == b[0] {
      CompareReverse(a[1..], b[1..]);
    }
  }

  /** Less is transitive. */
  lemma {:induction false} CompareTransitive(a: seq<byte>, b: seq<byte>, c: seq<byte>)
    requires Compare(a, b) == Less && Compare(b, c) == Less
    ensures Compare(a, c) == Less
  {
    if a != [] && b != [] && c != [] && a[0] == b[0] == c[0] {
      CompareTransitive(a[1..], b[1..], c[1..]);
    }
  }

  /** Compare's Less is exactly dictionary order. */
  lemma {:induction false} CompareLessIff(a: seq<byte>, b: seq<byte>)
    ensures Compare(a, b) == Less <==> LexLess(a, b)
  {
    if Compare(a, b) == Less {
      CompareLessWitness(a, b);
    } else if LexLess(a, b) {
      if |a| < |b| && a == b[..|a|] {
        CompareProperPrefix(a, b);
      } else {
        var i :| 0 <= i < |a| && i < |b| && a[..i] == b[..i] && a[i] < b[i];
        CompareFirstDifference(a, b, i);
      }
    }
  }

  lemma {:induction false} CompareLessWitness(a: seq<byte>, b: seq<byte>)
    requires Compare(a, b) == Less
    ensures LexLess(a, b)
  {
    if a == [] {
      assert a == b[..0];
    } else if a[0] < b[0] {
      assert a[..0] == b[..0];
    } else {
      CompareLessWitness(a[1..], b[1..]);
      if |a[1..]| < |b[1..]| && a[1..] == b[1..][..|a| - 1] {
        assert a == [a[0]] + a[1..] && b[..|a|] == [b[0]] + b[1..][..|a| - 1];
      } else {
        var i :| 0 <= i < |a| - 1 && i < |b| - 1 && a[1..][..i] == b[1..][..i] && a[1..][i] < b[1..][i];
        assert a[..i + 1] == [a[0]] + a[1..][..i];
        assert b[..i + 1] == [b[0]] + b[1..][..i];
      }
    }
  }

  /** DefaultCmp reports Equal exactly for identical byte strings. */
  lemma DefaultCmpEqualIff(a: seq<byte>, b: seq<byte>)
    ensures DefaultCmp.cmp(a, b) == Compare(a, b)
    ensures DefaultCmp.cmp(a, b) == Equal <==> a == b
  {
    CompareEqualIff(a, b);
    assert DefaultCmp.cmp == Compare;
  }

  /**
   * What a `Cmp` implementation must provide for a consistent order: swapping
   * the arguments reverses the result, and "not Greater" is transitive.
   */
  ghost predicate IsTotalPreorder(c: Comparator) {
    && (forall x, y :: c.cmp(y, x) == c.cmp(x, y).Reverse())
    && (forall x, y, z :: c.cmp(x, y) != Greater && c.cmp(y, z) != Greater ==> c.cmp(x, z) != Greater)
  }

  /** DefaultCmp is a total order whose Equal is identity of bytes. */
  lemma DefaultCmpIsTotalOrder()
    ensures IsTotalPreorder(DefaultCmp)
    ensures forall x, y :: DefaultCmp.cmp(x, y) == Equal <==> x == y
  {
    forall x, y ensures DefaultCmp.cmp(y, x) == DefaultCmp.cmp(x, y).Reverse() {
      CompareReverse(x, y);
    }
    forall x, y, z | DefaultCmp.cmp(x, y) != Greater && DefaultCmp.cmp(y, z) != Greater
      ensures DefaultCmp.cmp(x, z) != Greater
    {
      CompareEqualIff(x, y);
      CompareEqualIff(y, z);
      if x != y && y != z {
        CompareTransitive(x, y, z);
      }
    }
    forall x, y ensures DefaultCmp.cmp(x, y) == Equal <==> x == y {
      CompareEqualIff(x, y);
    }
  }
}
