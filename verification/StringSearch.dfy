/** Searching strings for units (IndexOf and its relatives) and for strings (FindInRange). */
module StringSearch {
  import opened MachineIntegers
  import opened Strings
  import opened Text

  // ----- What the searches for units find

  ghost predicate NoHit(s: seq<Int16>, wanted: set<Int16>, lo: int, hi: int) {
    forall k :: lo <= k <= hi && 0 <= k < |s| ==> s[k] !in wanted
  }

  /** `r` is the first place in lo .. hi with a wanted unit, or -1 if there is none. */
  ghost predicate IsFirstHit(s: seq<Int16>, wanted: set<Int16>, lo: int, hi: int, r: int) {
    if r == -1 then NoHit(s, wanted, lo, hi)
    else lo <= r <= hi && 0 <= r < |s| && s[r] in wanted && NoHit(s, wanted, lo, r - 1)
  }

  ghost predicate IsLastHit(s: seq<Int16>, wanted: set<Int16>, lo: int, hi: int, r: int) {
    if r == -1 then NoHit(s, wanted, lo, hi)
    else lo <= r <= hi && 0 <= r < |s| && s[r] in wanted && NoHit(s, wanted, r + 1, hi)
  }

  /** What it means to be the first or the last hit. */
  lemma HitsInPlainTerms(s: seq<Int16>, wanted: set<Int16>, lo: nat, hi: int, r: int)
    requires hi < |s|
    ensures IsFirstHit(s, wanted, lo, hi, r) <==>
      || (r == -1 && forall k :: lo <= k <= hi ==> s[k] !in wanted)
      || (lo <= r <= hi && s[r] in wanted && forall k :: lo <= k < r ==> s[k] !in wanted)
    ensures IsLastHit(s, wanted, lo, hi, r) <==>
      || (r == -1 && forall k :: lo <= k <= hi ==> s[k] !in wanted)
      || (lo <= r <= hi && s[r] in wanted && forall k :: r < k <= hi ==> s[k] !in wanted)
  {
  }

  /** At most one result is right. */
  lemma HitsAreUnique(s: seq<Int16>, wanted: set<Int16>, lo: int, hi: int, r: int, r': int)
    requires 0 <= lo
    ensures IsFirstHit(s, wanted, lo, hi, r) && IsFirstHit(s, wanted, lo, hi, r') ==> r == r'
    ensures IsLastHit(s, wanted, lo, hi, r) && IsLastHit(s, wanted, lo, hi, r') ==> r == r'
  {
  }

  function Reversed(s: seq<Int16>): (t: seq<Int16>)
    ensures |t| == |s| && forall k :: 0 <= k < |s| ==> t[k] == s[|s| - 1 - k]
  {
    seq(|s|, k requires 0 <= k < |s| => s[|s| - 1 - k])
  }

  function MirrorIndex(n: nat, r: int): (mirrored: int) {
    if r == -1 then -1 else n - 1 - r
  }

  lemma NoHitMirror(s: seq<Int16>, wanted: set<Int16>, lo: int, hi: int)
    ensures NoHit(s, wanted, lo, hi) <==> NoHit(Reversed(s), wanted, |s| - 1 - hi, |s| - 1 - lo)
  {
    var t := Reversed(s);
    if NoHit(s, wanted, lo, hi) {
      assert forall k :: 0 <= k < |t| ==> t[k] == s[|s| - 1 - k];
    }
    if NoHit(t, wanted, |s| - 1 - hi, |s| - 1 - lo) {
      forall k | lo <= k <= hi && 0 <= k < |s|
        ensures s[k] !in wanted
      {
        assert t[|s| - 1 - k] == s[k];
      }
    }
  }

  /** Searching backwards is searching the reversed string forwards. */
  lemma SearchMirrors(s: seq<Int16>, wanted: set<Int16>, lo: int, hi: int, r: int)
    requires -1 <= r < |s|
    ensures IsLastHit(s, wanted, lo, hi, r)
       <==> IsFirstHit(Reversed(s), wanted, |s| - 1 - hi, |s| - 1 - lo, MirrorIndex(|s|, r))
  {
    NoHitMirror(s, wanted, lo, hi);
    NoHitMirror(s, wanted, r + 1, hi);
  }

  // ----- The searches for units

  method IndexOf(self: StringObject, value: Int16, startIndex: Int32, count: Int32) returns (result: int)
    requires self.Valid()
    ensures startIndex < 0 || count < 0 || self.length - startIndex < count ==> result == -1
    ensures startIndex >= 0 && count >= 0 && startIndex + count <= self.length ==>
      IsFirstHit(self.Contents(), {value}, startIndex, startIndex + count - 1, result)
  {
    result := -1;
    if startIndex < 0 || count < 0 || self.length - startIndex < count {
      return;
    }
    var i: int := startIndex;
    while i < startIndex + count
      invariant startIndex <= i <= startIndex + count
      invariant NoHit(self.Contents(), {value}, startIndex, i - 1)
    {
      if self.units[i] == value {
        result := i;
        break;
      }
      i := i + 1;
    }
  }

  /** The units of an array. */
  ghost function Wanted(a: array<Int16>): (r: set<Int16>)
    reads a
    ensures forall k :: 0 <= k < a.Length ==> a[k] in r
    ensures forall x :: x in r ==> exists k :: 0 <= k < a.Length && a[k] == x
  {
    set x | x in a[..]
  }

  method IndexOfAny(self: StringObject, any: array<Int16>, startIndex: Int32, count: Int32)
      returns (result: Result<int>)
    requires self.Valid()
    ensures result == Raised(ArgumentOutOfRange) <==> startIndex < 0 || count < 0 || self.length - startIndex < count
    ensures startIndex >= 0 && count >= 0 && startIndex + count <= self.length ==>
      result.Value? && IsFirstHit(self.Contents(), Wanted(any), startIndex, startIndex + count - 1, result.value)
  {
    if startIndex < 0 || count < 0 || self.length - startIndex < count {
      return Raised(ArgumentOutOfRange);
    }
    if any.Length == 0 {
      return Value(-1);
    }
    var i: int := startIndex;
    while i < startIndex + count
      invariant startIndex <= i <= startIndex + count
      invariant NoHit(self.Contents(), Wanted(any), startIndex, i - 1)
    {
      var j := 0;
      while j < any.Length
        invariant 0 <= j <= any.Length && forall k :: 0 <= k < j ==> any[k] != self.units[i]
      {
        if self.units[i] == any[j] {
          assert any[j] in any[..];
          return Value(i);
        }
        j := j + 1;
      }
      i := i + 1;
    }
    return Value(-1);
  }

  /** The window asked for is startIndex - count + 1 .. startIndex.  Its lower end is computed in 32 bits. */
  predicate BadWindow(startIndex: Int32, count: Int32) {
    startIndex < 0 || count < 0 || Wrap32(startIndex - count + 1) < 0
  }

  /** The window is refused if it begins before the string, and in one more case, where the sum wraps around. */
  lemma BadWindows(startIndex: Int32, count: Int32)
    ensures BadWindow(startIndex, count) <==>
      startIndex < 0 || count < 0 || startIndex - count + 1 < 0 || (startIndex == 0x7FFF_FFFF && count == 0)
  {
  }

  /** The part of the window that lies in the string: `startIndex` moves to the last unit and
      `count` shrinks with it, so that the lower end stays. */
  method ClampWindow(len: Int32, startIndex: Int32, count: Int32) returns (start: int, n: int)
    requires !BadWindow(startIndex, count) && 0 <= len
    ensures start == if startIndex < len then startIndex else len - 1
    ensures start - n == startIndex - count && 0 <= start - n + 1 && start < len
  {
    start, n := startIndex, count;
    if start >= len {
      n := n - (start - (len - 1));
      start := len - 1;
    }
  }

  method LastIndexOf(self: StringObject, value: Int16, startIndex: Int32, count: Int32) returns (result: Result<int>)
    requires self.Valid()
    ensures result == Raised(IndexOutOfRange) <==> BadWindow(startIndex, count)
    ensures !BadWindow(startIndex, count) ==>
      result.Value? && IsLastHit(self.Contents(), {value}, startIndex - count + 1, startIndex, result.value)
  {
    if BadWindow(startIndex, count) {
      return Raised(IndexOutOfRange);
    }
    var start, n := ClampWindow(self.length, startIndex, count);
    var buf := start;
    while n > 0
      invariant start - n == startIndex - count && buf == start < self.length
      invariant NoHit(self.Contents(), {value}, start + 1, startIndex)
      decreases n
    {
      var here := self.units[buf];
      buf := buf - 1;
      if here == value {
        return Value(start);
      }
      start := start - 1;
      n := n - 1;
    }
    return Value(-1);
  }

  method LastIndexOfAny(self: StringObject, any: array?<Int16>, startIndex: Int32, count: Int32)
      returns (result: Result<int>)
    requires self.Valid()
    ensures result == Raised(NullReference) <==> any == null
    ensures result == Raised(IndexOutOfRange) <==> any != null && BadWindow(startIndex, count)
    ensures any != null && !BadWindow(startIndex, count) ==>
      result.Value? && IsLastHit(self.Contents(), Wanted(any), startIndex - count + 1, startIndex, result.value)
  {
    if any == null {
      return Raised(NullReference);
    }
    if BadWindow(startIndex, count) {
      return Raised(IndexOutOfRange);
    }
    if any.Length == 0 {
      return Value(-1);
    }
    var start, n := ClampWindow(self.length, startIndex, count);
    var buf := start;
    while n > 0
      invariant start - n == startIndex - count && buf == start < self.length
      invariant NoHit(self.Contents(), Wanted(any), start + 1, startIndex)
      decreases n
    {
      var i := 0;
      while i < any.Length
        invariant 0 <= i <= any.Length && forall k :: 0 <= k < i ==> any[k] != self.units[buf]
      {
        if self.units[buf] == any[i] {
          assert any[i] in any[..];
          return Value(start);
        }
        i := i + 1;
      }
      buf := buf - 1;
      start := start - 1;
      n := n - 1;
    }
    return Value(-1);
  }

  // ----- The search for a string

  ghost predicate NoMatch(s: seq<Int16>, needle: seq<Int16>, lo: int, hi: int) {
    forall at {:trigger MatchAt(s, needle, at)} :: lo <= at <= hi ==> !MatchAt(s, needle, at)
  }

  /** `r` is the least match in lo .. hi, or -1 if there is none. */
  ghost predicate IsLeastMatch(s: seq<Int16>, needle: seq<Int16>, lo: int, hi: int, r: int) {
    if r == -1 then NoMatch(s, needle, lo, hi)
    else lo <= r <= hi && MatchAt(s, needle, r) && NoMatch(s, needle, lo, r - 1)
  }

  ghost predicate IsGreatestMatch(s: seq<Int16>, needle: seq<Int16>, lo: int, hi: int, r: int) {
    if r == -1 then NoMatch(s, needle, lo, hi)
    else lo <= r <= hi && MatchAt(s, needle, r) && NoMatch(s, needle, r + 1, hi)
  }

  /** What it means to be the least or the greatest match. */
  lemma MatchesInPlainTerms(s: seq<Int16>, needle: seq<Int16>, lo: nat, hi: int, r: int)
    ensures IsLeastMatch(s, needle, lo, hi, r) <==>
      || (r == -1 && forall at {:trigger MatchAt(s, needle, at)} :: lo <= at <= hi ==> !MatchAt(s, needle, at))
      || (lo <= r <= hi && MatchAt(s, needle, r)
          && forall at {:trigger MatchAt(s, needle, at)} :: lo <= at < r ==> !MatchAt(s, needle, at))
    ensures IsGreatestMatch(s, needle, lo, hi, r) <==>
      || (r == -1 && forall at {:trigger MatchAt(s, needle, at)} :: lo <= at <= hi ==> !MatchAt(s, needle, at))
      || (lo <= r <= hi && MatchAt(s, needle, r)
          && forall at {:trigger MatchAt(s, needle, at)} :: r < at <= hi ==> !MatchAt(s, needle, at))
  {
  }

  /** What callers must grant: the needle fits wherever it is looked for. */
  predicate Fits(n: nat, length: nat, srcFirst: int, srcLast: int, srcStep: int) {
    length > 0 ==>
      if srcStep > 0 then srcFirst <= srcLast ==> 0 <= srcFirst && srcLast + length <= n
      else srcLast <= srcFirst ==> 0 <= srcLast && srcFirst + length <= n
  }

  /** memcmp at one place, after a look at the first unit. */
  method SameAt(self: StringObject, at: nat, dest: StringObject) returns (same: bool)
    requires self.Valid() && dest.Valid() && dest.length > 0 && at + dest.length <= self.length
    ensures same <==> MatchAt(self.Contents(), dest.Contents(), at)
  {
    assert self.Contents()[at..at + dest.length] == self.units[at..at + dest.length];
    same := self.units[at] == dest.units[0] && self.units[at..at + dest.length] == dest.units[..dest.length];
  }

  lemma OneUnit(s: seq<Int16>, needle: seq<Int16>, at: nat)
    requires |needle| == 1 && at < |s|
    ensures MatchAt(s, needle, at) <==> s[at] == needle[0]
  {
    assert s[at..at + 1] == [s[at]] && needle == [needle[0]];
  }

  method ScanForward(self: StringObject, first: int, srcLast: int, dest: StringObject) returns (result: int)
    requires self.Valid() && dest.Valid() && dest.length > 0 && Fits(self.length, dest.length, first, srcLast, 1)
    ensures IsLeastMatch(self.Contents(), dest.Contents(), first, srcLast, result)
  {
    var srcFirst := first;
    if dest.length == 1 {
      while srcFirst <= srcLast
        invariant first <= srcFirst
        invariant NoMatch(self.Contents(), dest.Contents(), first, srcFirst - 1)
      {
        OneUnit(self.Contents(), dest.Contents(), srcFirst);
        if self.units[srcFirst] == dest.units[0] {
          return srcFirst;
        }
        srcFirst := srcFirst + 1;
      }
    } else {
      while srcFirst <= srcLast
        invariant first <= srcFirst
        invariant NoMatch(self.Contents(), dest.Contents(), first, srcFirst - 1)
      {
        var same := SameAt(self, srcFirst, dest);
        if same {
          return srcFirst;
        }
        srcFirst := srcFirst + 1;
      }
    }
    return -1;
  }

  method ScanBackward(self: StringObject, first: int, srcLast: int, dest: StringObject) returns (result: int)
    requires self.Valid() && dest.Valid() && dest.length > 0 && Fits(self.length, dest.length, first, srcLast, 0)
    ensures IsGreatestMatch(self.Contents(), dest.Contents(), srcLast, first, result)
  {
    var srcFirst := first;
    if dest.length == 1 {
      while srcFirst >= srcLast
        invariant srcFirst <= first
        invariant NoMatch(self.Contents(), dest.Contents(), srcFirst + 1, first)
      {
        OneUnit(self.Contents(), dest.Contents(), srcFirst);
        if self.units[srcFirst] == dest.units[0] {
          return srcFirst;
        }
        srcFirst := srcFirst - 1;
      }
    } else {
      while srcFirst >= srcLast
        invariant srcFirst <= first
        invariant NoMatch(self.Contents(), dest.Contents(), srcFirst + 1, first)
      {
        var same := SameAt(self, srcFirst, dest);
        if same {
          return srcFirst;
        }
        srcFirst := srcFirst - 1;
      }
    }
    return -1;
  }

  /** An empty string is always said to be found where the search begins. */
  method FindInRange(self: StringObject, srcFirst: int, srcLast: int, srcStep: int, dest: StringObject)
      returns (result: int)
    requires self.Valid() && dest.Valid() && Fits(self.length, dest.length, srcFirst, srcLast, srcStep)
    ensures dest.length == 0 ==> result == srcFirst
    ensures dest.length > 0 && srcStep > 0 ==>
      IsLeastMatch(self.Contents(), dest.Contents(), srcFirst, srcLast, result)
    ensures dest.length > 0 && srcStep <= 0 ==>
      IsGreatestMatch(self.Contents(), dest.Contents(), srcLast, srcFirst, result)
  {
    if dest.length == 0 {
      return srcFirst;
    }
    if srcStep > 0 {
      result := ScanForward(self, srcFirst, srcLast, dest);
    } else {
      result := ScanBackward(self, srcFirst, srcLast, dest);
    }
  }

  /** For the empty string the answer, which is where the search begins, is the least (greatest) match
      exactly if the range is not empty and begins inside the string; or if the search begins at -1
      and the range reaches no place in the string. */
  lemma EmptyNeedle(s: seq<Int16>, first: int, last: int)
    ensures IsLeastMatch(s, [], first, last, first)
       <==> (0 <= first <= last && first <= |s|) || (first == -1 && last < 0)
    ensures IsGreatestMatch(s, [], last, first, first) <==> (last <= first && 0 <= first <= |s|) || first == -1
  {
    if first == -1 && 0 <= last {
      assert MatchAt(s, [], 0);
    }
    if 0 <= first <= |s| {
      assert MatchAt(s, [], first);
    }
  }

  /** In an empty range the empty string is found all the same. */
  lemma EmptyNeedleInEmptyRange(s: seq<Int16>)
    ensures !IsLeastMatch(s, [], 0, -1, 0) && IsLeastMatch(s, [], 0, -1, -1)
  {
    EmptyNeedle(s, 0, -1);
  }

  /** Searching the whole string forwards finds the place of the first replacement. */
  lemma FirstReplacementIsFound(s: seq<Int16>, needle: seq<Int16>, ps: seq<nat>, r: int)
    requires |needle| > 0 && Leftmost(AllMatches(s, needle), |needle|, 0, ps)
    requires IsLeastMatch(s, needle, 0, |s| - |needle|, r)
    ensures r == if ps == [] then -1 else ps[0]
  {
    if ps != [] {
      FirstIsMatch(s, needle, ps);
    }
    if r >= 0 {
      assert r in AllMatches(s, needle);
      assert Covers(ps, |needle|, r);
    }
  }

  lemma FirstIsMatch(s: seq<Int16>, needle: seq<Int16>, ps: seq<nat>)
    requires ps != [] && Leftmost(AllMatches(s, needle), |needle|, 0, ps)
    ensures MatchAt(s, needle, ps[0])
  {
    assert ps[0] in AllMatches(s, needle);
  }
}
