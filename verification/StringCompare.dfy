/** Ordinal comparison and equality of strings. */
module StringCompare {
  import opened MachineIntegers
  import opened Strings

  /** A possibly missing stretch of a string. */
  datatype Slice = Null | Units(units: seq<Int16>)

  /** The order the comparison is meant to decide: null first, then by the first unit that
      differs, as a signed number, and a proper prefix before what it is a prefix of. */
  ghost predicate Before(a: Slice, b: Slice) {
    || (a.Null? && b.Units?)
    || (a.Units? && b.Units? && exists n :: DiffersFirstAt(a.units, b.units, n))
  }

  /** The first `n` units agree; then `a` ends, and `b` does not, or `a` has the smaller unit. */
  ghost predicate DiffersFirstAt(a: seq<Int16>, b: seq<Int16>, n: int) {
    && 0 <= n <= |a| && n < |b|
    && a[..n] == b[..n]
    && (n == |a| || a[n] < b[n])
  }

  /** Where two sequences differ first, or the shorter one ends. */
  lemma FirstDifference(a: seq<Int16>, b: seq<Int16>) returns (n: nat)
    ensures n <= |a| && n <= |b| && a[..n] == b[..n]
    ensures n < |a| && n < |b| ==> a[n] != b[n]
    ensures n == |a| == |b| ==> a == b
  {
    n := 0;
    while n < |a| && n < |b| && a[n] == b[n]
      invariant n <= |a| && n <= |b| && a[..n] == b[..n]
    {
      n := n + 1;
    }
    if n == |a| == |b| {
      assert a == a[..n] && b == b[..n];
    }
  }

  /** The order is decided where two sequences differ first: the smaller unit, or the end, comes first. */
  lemma BeforeAtDifference(a: seq<Int16>, b: seq<Int16>, n: nat)
    requires n <= |a| && n <= |b| && a[..n] == b[..n] && (n < |a| && n < |b| ==> a[n] != b[n])
    ensures Before(Units(a), Units(b)) <==> n < |b| && (n == |a| || a[n] < b[n])
    ensures Before(Null, Units(a)) && !Before(Units(a), Null) && !Before(Null, Null)
  {
    if n < |b| && (n == |a| || a[n] < b[n]) {
      assert DiffersFirstAt(a, b, n);
    } else if n < |a| {
      assert DiffersFirstAt(b, a, n);
      BeforeIsAsymmetric(Units(b), Units(a));
    } else {
      assert a == b[..n] && b == b[..n];
      if Before(Units(a), Units(b)) {
        BeforeIsAsymmetric(Units(a), Units(b));
      }
    }
  }

  lemma BeforeIsAsymmetric(a: Slice, b: Slice)
    requires Before(a, b)
    ensures !Before(b, a) && a != b
  {
    if a.Units? {
      var n :| DiffersFirstAt(a.units, b.units, n);
      forall m
        ensures !DiffersFirstAt(b.units, a.units, m)
      {
        if 0 <= m < n && m < |a.units| {
          assert a.units[..n][m] == b.units[..n][m];
        }
        if n < m <= |b.units| && m < |a.units| {
          assert a.units[..m][n] == b.units[..m][n] || a.units[..m] != b.units[..m];
        }
      }
    }
  }

  lemma BeforeIsTransitive(a: Slice, b: Slice, c: Slice)
    requires Before(a, b) && Before(b, c)
    ensures Before(a, c)
  {
    if a.Units? {
      var m :| DiffersFirstAt(a.units, b.units, m);
      var n :| DiffersFirstAt(b.units, c.units, n);
      var k := if m < n then m else n;
      assert a.units[..k] == a.units[..m][..k] == b.units[..k] == b.units[..n][..k] == c.units[..k];
      if m < n {
        assert b.units[m] == b.units[..n][m] == c.units[..n][m];
      } else if n < m {
        assert b.units[n] == b.units[..m][n] == a.units[..m][n];
      }
      assert DiffersFirstAt(a.units, c.units, k);
    }
  }

  lemma BeforeIsTotal(a: Slice, b: Slice)
    ensures Before(a, b) || a == b || Before(b, a)
  {
    if a.Units? && b.Units? {
      var n := 0;
      while n < |a.units| && n < |b.units| && a.units[n] == b.units[n]
        invariant 0 <= n <= |a.units| && n <= |b.units| && a.units[..n] == b.units[..n]
      {
        n := n + 1;
      }
      if n == |a.units| == |b.units| {
        assert a.units == a.units[..n] && b.units == b.units[..n];
      } else if n == |a.units| || (n < |b.units| && a.units[n] < b.units[n]) {
        assert DiffersFirstAt(a.units, b.units, n);
      } else {
        assert DiffersFirstAt(b.units, a.units, n);
      }
    }
  }

  /** The sign of a comparison result agrees with the order. */
  ghost predicate Decides(result: int, a: Slice, b: Slice) {
    && (result < 0 <==> Before(a, b))
    && (result > 0 <==> Before(b, a))
    && (result == 0 <==> a == b)
  }

  lemma DecidesInPlainTerms(result: int, a: Slice, b: Slice)
    ensures Decides(result, a, b) <==>
      && (result < 0 <==> Before(a, b))
      && (result == 0 <==> a == b)
      && (result > 0 <==> Before(b, a))
  {
  }

  lemma DecidedByOrder(result: int, a: Slice, b: Slice)
    requires result < 0 ==> Before(a, b)
    requires result > 0 ==> Before(b, a)
    requires result == 0 ==> a == b
    ensures Decides(result, a, b)
  {
    if Before(a, b) { BeforeIsAsymmetric(a, b); }
    if Before(b, a) { BeforeIsAsymmetric(b, a); }
  }

  /** The stretch of `length` units from `index` on; a negative length counts as zero. */
  function SliceOf(s: StringObject?, index: int, length: int): (r: Slice)
    requires s != null && length > 0 ==> 0 <= index && index + length <= s.units.Length
    reads if s == null then {} else {s.units}
    ensures s == null <==> r == Null
    ensures s != null && length <= 0 ==> r.units == []
    ensures s != null && length > 0 ==>
      |r.units| == length && forall k :: 0 <= k < length ==> r.units[k] == s.units[index + k]
  {
    if s == null then Null
    else if length <= 0 then Units([])
    else Units(s.units[index..index + length])
  }

  method InternalOrdinal(strA: StringObject?, indexA: int, lengthA: int, strB: StringObject?, indexB: int, lengthB: int)
      returns (result: int)
    requires strA != null && lengthA > 0 ==> 0 <= indexA && indexA + lengthA <= strA.units.Length
    requires strB != null && lengthB > 0 ==> 0 <= indexB && indexB + lengthB <= strB.units.Length
    ensures Decides(result, SliceOf(strA, indexA, lengthA), SliceOf(strB, indexB, lengthB))
  {
    ghost var a, b := SliceOf(strA, indexA, lengthA), SliceOf(strB, indexB, lengthB);
    if strA == null {
      result := if strB == null then 0 else -1;
    } else if strB == null {
      result := 1;
    } else {
      result := 0;
      var bufA, bufB, leftA, leftB := indexA, indexB, lengthA, lengthB;
      ghost var n := 0;
      while leftA > 0 && leftB > 0
        invariant result == 0 && bufA == indexA + n && bufB == indexB + n
        invariant 0 <= n <= |a.units| && n <= |b.units| && a.units[..n] == b.units[..n]
        invariant leftA == lengthA - n && leftB == lengthB - n
        decreases leftA
      {
        var unitA: int := strA.units[bufA];
        var unitB: int := strB.units[bufB];
        result := unitA - unitB;
        if result != 0 {
          break;
        }
        bufA, bufB := bufA + 1, bufB + 1;
        leftA, leftB := leftA - 1, leftB - 1;
        n := n + 1;
      }
      if result == 0 {
        if leftA > 0 {
          result := 1;
        } else if leftB > 0 {
          result := -1;
        } else {
          assert a.units == a.units[..n] && b.units == b.units[..n];
        }
      }
      assert result < 0 ==> DiffersFirstAt(a.units, b.units, n);
      assert result > 0 ==> DiffersFirstAt(b.units, a.units, n);
    }
    DecidedByOrder(result, a, b);
  }

  /** A whole string. */
  function Whole(s: StringObject?): (r: Slice)
    requires s != null ==> s.Valid()
    reads s, if s == null then {} else {s.units}
    ensures s == null <==> r == Null
    ensures s != null ==> r.units == s.Contents()
  {
    if s == null then Null else Units(s.Contents())
  }

  method Equals(str1: StringObject?, str2: StringObject?) returns (equal: bool)
    requires (str1 != null ==> str1.Valid()) && (str2 != null ==> str2.Valid())
    ensures equal <==> Whole(str1) == Whole(str2)
    ensures equal <==>
      || (str1 == null && str2 == null)
      || (str1 != null && str2 != null && str1.Contents() == str2.Contents())
  {
    var result, needMemCmp, length1, length2 := 0, true, 0, 0;
    if str1 != null {
      length1 := str1.length;
    }
    if str2 != null {
      length2 := str2.length;
    }
    if str1 == null {
      result := if str2 == null then 0 else 1;
      needMemCmp := false;
    } else if str2 == null {
      result, needMemCmp := 1, false;
    } else if str1 == str2 {
      result, needMemCmp := 0, false;
    } else if length1 != length2 {
      result, needMemCmp := 1, false;
      assert |str1.Contents()| != |str2.Contents()|;
    }
    if needMemCmp {
      result := if str1.units[..length1] == str2.units[..length1] then 0 else 1;
    }
    return result == 0;
  }

  /** On whole strings the two agree: a comparison is zero exactly when the strings are equal. */
  method CompareOrdinalWhole(str1: StringObject?, str2: StringObject?) returns (order: int, equal: bool)
    requires (str1 != null ==> str1.Valid()) && (str2 != null ==> str2.Valid())
    ensures order == 0 <==> equal
    ensures Decides(order, Whole(str1), Whole(str2))
  {
    order := InternalOrdinal(str1, 0, if str1 == null then 0 else str1.length,
                             str2, 0, if str2 == null then 0 else str2.length);
    equal := Equals(str1, str2);
    assert SliceOf(str1, 0, if str1 == null then 0 else str1.length) == Whole(str1) by {
      if str1 != null && str1.length == 0 { assert str1.Contents() == []; }
    }
    assert SliceOf(str2, 0, if str2 == null then 0 else str2.length) == Whole(str2) by {
      if str2 != null && str2.length == 0 { assert str2.Contents() == []; }
    }
  }
}
