/** String.Replace: of a string by a string, in two passes over the input, and of a unit by a unit. */
module StringReplace {
  import opened MachineIntegers
  import opened Strings
  import opened Text

  /** The array begins with `s`. */
  ghost predicate Holds(a: array<Int16>, s: seq<Int16>)
    reads a
  {
    |s| <= a.Length && forall k :: 0 <= k < |s| ==> a[k] == s[k]
  }

  /** memcmp of a stretch of `a`, which holds the string `s`, with the string `needle` held by `b`. */
  method EqualRange(a: array<Int16>, at: nat, n: nat, b: array<Int16>, ghost s: seq<Int16>, ghost needle: seq<Int16>)
      returns (equal: bool)
    requires Holds(a, s) && Holds(b, needle) && |needle| == n && at + n <= |s|
    ensures equal <==> MatchAt(s, needle, at)
  {
    assert a[at..at + n] == s[at..at + n] && b[..n] == needle;
    equal := a[at..at + n] == b[..n];
  }

  ghost predicate NoMatchBefore(s: seq<Int16>, needle: seq<Int16>, n: nat) {
    n == 0 || (NoMatchBefore(s, needle, n - 1) && !MatchAt(s, needle, n - 1))
  }

  lemma {:induction false} NoMatchAmong(s: seq<Int16>, needle: seq<Int16>, n: nat, at: nat)
    requires NoMatchBefore(s, needle, n) && at < n
    ensures !MatchAt(s, needle, at)
  {
    if at < n - 1 {
      NoMatchAmong(s, needle, n - 1, at);
    }
  }

  lemma NoMatchAtAll(s: seq<Int16>, needle: seq<Int16>, n: nat)
    requires NoMatchBefore(s, needle, n) && n + |needle| > |s|
    ensures !Occurs(s, needle)
  {
    forall at: nat | at < n
      ensures !MatchAt(s, needle, at)
    {
      NoMatchAmong(s, needle, n, at);
    }
  }

  // ----- The sums posn + old_length, which both passes compute in 32 bits

  /** Where the scan goes on after `at`. */
  function NextPlace(s: seq<Int16>, needle: seq<Int16>, at: nat): (next: nat)
    requires |needle| > 0 && at < |s|
    ensures at < next <= |s|
  {
    if MatchAt(s, needle, at) then at + |needle| else at + 1
  }

  /** The sum wraps around in the first pass, which stops where the needle has no room left. */
  ghost predicate CountingWraps(s: seq<Int16>, needle: seq<Int16>, at: nat)
    requires |needle| > 0 && at <= |s|
    decreases |s| - at
  {
    || at + |needle| >= 0x8000_0000
    || (at + |needle| <= |s| && CountingWraps(s, needle, NextPlace(s, needle, at)))
  }

  lemma CountingGoesOn(s: seq<Int16>, needle: seq<Int16>, at: nat)
    requires |needle| > 0 && at <= |s|
    ensures at + |needle| >= 0x8000_0000 ==> CountingWraps(s, needle, at)
    ensures at + |needle| <= |s| ==>
      (CountingWraps(s, needle, at)
       <==> at + |needle| >= 0x8000_0000 || CountingWraps(s, needle, NextPlace(s, needle, at)))
  {
  }

  /** The sum wraps around in the second pass, which goes on to the end of the string. */
  ghost predicate WritingWraps(s: seq<Int16>, needle: seq<Int16>, at: nat)
    requires |needle| > 0 && at <= |s|
    decreases |s| - at
  {
    at < |s| && (at + |needle| >= 0x8000_0000 || WritingWraps(s, needle, NextPlace(s, needle, at)))
  }

  /** The last place either pass comes to, if `ps` are the places of the matches: the end of the string if
      the last match ends there, else the last unit. */
  function LastPlace(s: seq<Int16>, needle: seq<Int16>, ps: seq<nat>): (last: int)
    requires ps != []
  {
    if ps[|ps| - 1] + |needle| == |s| then |s| else |s| - 1
  }

  lemma {:induction false} TailWraps(s: seq<Int16>, needle: seq<Int16>, at: nat)
    requires |needle| > 0 && at < |s| && Matches<Int16>(s, needle, at) == []
    ensures WritingWraps(s, needle, at) <==> |s| - 1 + |needle| >= 0x8000_0000
    decreases |s| - at
  {
    assert !MatchAt<Int16>(s, needle, at);
    if at + 1 < |s| {
      TailWraps(s, needle, at + 1);
    }
  }

  /** If there is a match, a sum wraps around in one of the passes exactly if the last one does. */
  lemma {:induction false} LastSumDecides(s: seq<Int16>, needle: seq<Int16>, at: nat)
    requires |needle| > 0 && at <= |s| <= MAX_CAPACITY && at + |needle| < 0x8000_0000
    ensures var ps := Matches<Int16>(s, needle, at);
      if ps == [] then !CountingWraps(s, needle, at)
      else CountingWraps(s, needle, at) || WritingWraps(s, needle, at)
           <==> LastPlace(s, needle, ps) + |needle| >= 0x8000_0000
    decreases |s| - at
  {
    if at + |needle| <= |s| {
      var next := NextPlace(s, needle, at);
      var ps, rest := Matches<Int16>(s, needle, at), Matches<Int16>(s, needle, next);
      if MatchAt<Int16>(s, needle, at) {
        assert ps == [at] + rest;
        if next + |needle| < 0x8000_0000 {
          LastSumDecides(s, needle, next);
          if rest == [] && next < |s| {
            TailWraps(s, needle, next);
          }
        }
      } else {
        LastSumDecides(s, needle, next);
      }
    }
  }

  /** What is counted and what is still to come add up to the whole. */
  ghost predicate Counted(n: nat, s: seq<Int16>, needle: seq<Int16>, w: seq<Int16>, posn: nat, total: nat)
    requires |needle| > 0
  {
    posn <= |s| && n + |ReplaceFrom(s, needle, w, posn)| == total
  }

  lemma CountUnit(n: nat, s: seq<Int16>, needle: seq<Int16>, w: seq<Int16>, posn: nat, total: nat)
    requires |needle| > 0 && Counted(n, s, needle, w, posn, total)
    requires posn + |needle| <= |s| && !MatchAt(s, needle, posn)
    ensures Counted(n + 1, s, needle, w, posn + 1, total)
  {
  }

  lemma CountMatch(n: nat, s: seq<Int16>, needle: seq<Int16>, w: seq<Int16>, posn: nat, total: nat)
    requires |needle| > 0 && Counted(n, s, needle, w, posn, total) && MatchAt(s, needle, posn)
    ensures Counted(n + |w|, s, needle, w, posn + |needle|, total)
  {
  }

  lemma WrapStep(x: int, d: int)
    ensures Wrap32(Wrap32(x) + d) == Wrap32(x + d)
  {
    WrapSum(d, x);
  }

  lemma CountRest(n: nat, s: seq<Int16>, needle: seq<Int16>, w: seq<Int16>, posn: nat, total: nat)
    requires |needle| > 0 && Counted(n, s, needle, w, posn, total) && posn + |needle| > |s|
    ensures n + |s| - posn == total
  {
  }

  /** What the first pass knows when it comes to `posn`: the length so far, in 32 bits, and whether
      there was a match. */
  ghost predicate Measured(finalLen: Int32, found: bool, s: seq<Int16>, needle: seq<Int16>, w: seq<Int16>,
                           posn: nat, exact: nat, total: nat)
    requires |needle| > 0
  {
    && Counted(exact, s, needle, w, posn, total) && finalLen == Wrap32(exact)
    && if found then Occurs(s, needle) else NoMatchBefore(s, needle, posn)
  }

  lemma MeasureMatch(finalLen: Int32, found: bool, s: seq<Int16>, needle: seq<Int16>, w: seq<Int16>,
                     posn: nat, exact: nat, total: nat)
    requires |needle| > 0 && Measured(finalLen, found, s, needle, w, posn, exact, total) && MatchAt(s, needle, posn)
    ensures Measured(Wrap32(finalLen + |w|), true, s, needle, w, posn + |needle|, exact + |w|, total)
    ensures NextPlace(s, needle, posn) == posn + |needle|
  {
    CountMatch(exact, s, needle, w, posn, total);
    WrapStep(exact, |w|);
  }

  lemma MeasureUnit(finalLen: Int32, found: bool, s: seq<Int16>, needle: seq<Int16>, w: seq<Int16>,
                    posn: nat, exact: nat, total: nat)
    requires |needle| > 0 && Measured(finalLen, found, s, needle, w, posn, exact, total)
    requires posn + |needle| <= |s| && !MatchAt(s, needle, posn)
    ensures Measured(Wrap32(finalLen + 1), found, s, needle, w, posn + 1, exact + 1, total)
    ensures NextPlace(s, needle, posn) == posn + 1
  {
    CountUnit(exact, s, needle, w, posn, total);
    WrapStep(exact, 1);
  }

  /** One turn of the first pass. */
  method MeasureTurn(self: array<Int16>, n: Count32, oldUnits: array<Int16>, oldLength: Count32, newLength: Count32,
                     finalLen: Int32, found: bool, posn: nat, ghost s: seq<Int16>, ghost needle: seq<Int16>,
                     ghost w: seq<Int16>, ghost exact: nat, ghost total: nat)
      returns (finalLen': Int32, found': bool, posn': nat, overrun: bool, ghost exact': nat)
    requires Holds(self, s) && Holds(oldUnits, needle) && |s| == n && |needle| == oldLength > 0 && |w| == newLength
    requires posn <= n && Wrap32(posn + oldLength) <= n
    requires Measured(finalLen, found, s, needle, w, posn, exact, total)
    ensures overrun <==> posn + |needle| >= 0x8000_0000
    ensures !overrun ==> posn + |needle| <= |s| && posn' == NextPlace(s, needle, posn)
    ensures !overrun ==> Measured(finalLen', found', s, needle, w, posn', exact', total)
  {
    finalLen', found', posn', overrun, exact' := finalLen, found, posn, false, exact;
    if Wrap32(posn + oldLength) < 0 {
      overrun := true;
      return;
    }
    var matched := EqualRange(self, posn, oldLength, oldUnits, s, needle);
    if matched {
      MeasureMatch(finalLen, found, s, needle, w, posn, exact, total);
      finalLen', exact' := Wrap32(finalLen + newLength), exact + newLength;
      posn' := posn + oldLength;
      found' := true;
    } else {
      MeasureUnit(finalLen, found, s, needle, w, posn, exact, total);
      finalLen', exact' := Wrap32(finalLen + 1), exact + 1;
      posn' := posn + 1;
    }
  }

  lemma AllMeasured(finalLen: Int32, found: bool, s: seq<Int16>, needle: seq<Int16>, w: seq<Int16>,
                    posn: nat, exact: nat, total: nat)
    requires |needle| > 0 && Measured(finalLen, found, s, needle, w, posn, exact, total)
    requires |s| < posn + |needle| < 0x8000_0000
    ensures !CountingWraps(s, needle, posn)
    ensures Wrap32(finalLen + (|s| - posn)) == Wrap32(total) && (found <==> Occurs(s, needle))
  {
    if !found {
      NoMatchAtAll(s, needle, posn);
    }
    CountRest(exact, s, needle, w, posn, total);
  }

  /** First pass: the length of the final string, in 32 bits, and whether there is anything to replace.  Where
      the sum of the position and the needle's length wraps around, the string is read beyond its end. */
  method MeasureReplacement(self: array<Int16>, n: Count32, oldUnits: array<Int16>, oldLength: Count32,
                            newLength: Count32, ghost s: seq<Int16>, ghost needle: seq<Int16>, ghost w: seq<Int16>)
      returns (finalLen: Int32, foundMatch: bool, overrun: bool)
    requires Holds(self, s) && Holds(oldUnits, needle) && |s| == n && |needle| == oldLength > 0 && |w| == newLength
    ensures overrun <==> CountingWraps(s, needle, 0)
    ensures !overrun ==> (foundMatch <==> Occurs(s, needle)) && finalLen == Wrap32(|ReplaceFrom(s, needle, w, 0)|)
  {
    ghost var exact, total := 0, |ReplaceFrom(s, needle, w, 0)|;
    finalLen, foundMatch, overrun := 0, false, false;
    var posn := 0;
    while Wrap32(posn + oldLength) <= n
      invariant 0 <= posn <= n && !overrun && exact >= 0
      invariant Measured(finalLen, foundMatch, s, needle, w, posn, exact, total)
      invariant CountingWraps(s, needle, 0) == CountingWraps(s, needle, posn)
      decreases n - posn
    {
      CountingGoesOn(s, needle, posn);
      finalLen, foundMatch, posn, overrun, exact :=
        MeasureTurn(self, n, oldUnits, oldLength, newLength, finalLen, foundMatch, posn, s, needle, w, exact, total);
      if overrun {
        return;
      }
    }
    AllMeasured(finalLen, foundMatch, s, needle, w, posn, exact, total);
    finalLen := Wrap32(finalLen + (n - posn));
  }

  /** Each of the cells 0 .. n was written once, in this order. */
  ghost predicate InOrder(stores: seq<nat>, n: nat) {
    |stores| == n && forall k :: 0 <= k < n ==> stores[k] == k
  }

  /** The first `n` cells of the buffer are final. */
  ghost predicate Filled(buf: array<Int16>, n: nat, total: seq<Int16>)
    reads buf
  {
    n <= buf.Length && n <= |total| && forall k :: 0 <= k < n ==> buf[k] == total[k]
  }

  lemma SuffixStep(total: seq<Int16>, i: nat, a: seq<Int16>, rest: seq<Int16>)
    requires i <= |total| && total[i..] == a + rest
    ensures i + |a| <= |total| && total[i + |a|..] == rest && total[i..i + |a|] == a
  {
    assert total[i + |a|..] == total[i..][|a|..];
  }

  /** What the buffer lacks from `i` on is the replacement in what the input has from `posn` on. */
  ghost predicate Rest(total: seq<Int16>, i: nat, s: seq<Int16>, needle: seq<Int16>, w: seq<Int16>, posn: nat)
    requires |needle| > 0
  {
    i <= |total| && posn <= |s| && total[i..] == ReplaceFrom(s, needle, w, posn)
  }

  lemma AfterMatch(total: seq<Int16>, i: nat, s: seq<Int16>, needle: seq<Int16>, w: seq<Int16>, posn: nat)
    requires |needle| > 0 && Rest(total, i, s, needle, w, posn) && MatchAt(s, needle, posn)
    ensures Rest(total, i + |w|, s, needle, w, posn + |needle|) && total[i..i + |w|] == w
  {
    SuffixStep(total, i, w, ReplaceFrom(s, needle, w, posn + |needle|));
  }

  lemma AfterUnit(total: seq<Int16>, i: nat, s: seq<Int16>, needle: seq<Int16>, w: seq<Int16>, posn: nat)
    requires |needle| > 0 && Rest(total, i, s, needle, w, posn) && posn < |s| && !MatchAt(s, needle, posn)
    ensures Rest(total, i + 1, s, needle, w, posn + 1) && total[i..i + 1] == [s[posn]]
  {
    SuffixStep(total, i, [s[posn]], ReplaceFrom(s, needle, w, posn + 1));
  }

  /** memcpy of a whole string into the buffer. */
  method PutString(buf: array<Int16>, at: nat, units: array<Int16>, n: nat,
                   ghost total: seq<Int16>, ghost w: seq<Int16>, ghost stores: seq<nat>)
      returns (ghost stores': seq<nat>)
    requires buf != units && Holds(units, w) && |w| == n && Filled(buf, at, total) && InOrder(stores, at)
    requires at + n <= |total| && total[at..at + n] == w && at + n <= buf.Length
    modifies buf
    ensures Filled(buf, at + n, total) && InOrder(stores', at + n)
  {
    if n > 0 {
      CopyUnits(buf, at, units, 0, n);
    }
    stores' := stores + seq(n, k requires 0 <= k < n => at + k);
    forall k | at <= k < at + n
      ensures buf[k] == total[k]
    {
      assert total[at..at + n][k - at] == w[k - at];
    }
  }

  method PutUnit(buf: array<Int16>, at: nat, x: Int16, ghost total: seq<Int16>, ghost stores: seq<nat>)
      returns (ghost stores': seq<nat>)
    requires Filled(buf, at, total) && InOrder(stores, at)
    requires at < |total| && total[at..at + 1] == [x] && at < buf.Length
    modifies buf
    ensures Filled(buf, at + 1, total) && InOrder(stores', at + 1)
  {
    buf[at] := x;
    stores' := stores + [at];
    assert total[at..at + 1][0] == total[at];
  }

  /** One match: the new string goes into the buffer. */
  method PutMatch(buf: array<Int16>, at: nat, units: array<Int16>, n: nat,
                  ghost total: seq<Int16>, ghost stores: seq<nat>,
                  ghost s: seq<Int16>, ghost needle: seq<Int16>, ghost w: seq<Int16>, ghost posn: nat)
      returns (ghost stores': seq<nat>)
    requires |needle| > 0 && Rest(total, at, s, needle, w, posn) && MatchAt(s, needle, posn)
    requires buf != units && Holds(units, w) && |w| == n && Filled(buf, at, total) && InOrder(stores, at)
    requires at + n <= buf.Length
    modifies buf
    ensures Rest(total, at + n, s, needle, w, posn + |needle|)
    ensures Filled(buf, at + n, total) && InOrder(stores', at + n)
  {
    AfterMatch(total, at, s, needle, w, posn);
    stores' := PutString(buf, at, units, n, total, w, stores);
  }

  /** No match: one unit is copied. */
  method PutOther(buf: array<Int16>, at: nat, x: Int16, ghost total: seq<Int16>, ghost stores: seq<nat>,
                  ghost s: seq<Int16>, ghost needle: seq<Int16>, ghost w: seq<Int16>, ghost posn: nat)
      returns (ghost stores': seq<nat>)
    requires |needle| > 0 && Rest(total, at, s, needle, w, posn)
    requires posn < |s| && !MatchAt(s, needle, posn) && x == s[posn]
    requires Filled(buf, at, total) && InOrder(stores, at) && at < buf.Length
    modifies buf
    ensures Rest(total, at + 1, s, needle, w, posn + 1)
    ensures Filled(buf, at + 1, total) && InOrder(stores', at + 1)
  {
    AfterUnit(total, at, s, needle, w, posn);
    stores' := PutUnit(buf, at, x, total, stores);
  }

  /** The rest is at least as long as what is written next. */
  lemma RestIsLonger(total: seq<Int16>, i: nat, s: seq<Int16>, needle: seq<Int16>, w: seq<Int16>, posn: nat)
    requires |needle| > 0 && Rest(total, i, s, needle, w, posn) && posn < |s|
    ensures i + (if MatchAt(s, needle, posn) then |w| else 1) <= |total|
  {
    if MatchAt(s, needle, posn) {
      AfterMatch(total, i, s, needle, w, posn);
    } else {
      AfterUnit(total, i, s, needle, w, posn);
    }
  }

  /** One turn of the second pass. */
  method WriteTurn(self: array<Int16>, n: Count32, oldUnits: array<Int16>, oldLength: Count32,
                   newUnits: array<Int16>, newLength: Count32, buf: array<Int16>, at: nat, posn: nat,
                   ghost s: seq<Int16>, ghost needle: seq<Int16>, ghost w: seq<Int16>,
                   ghost total: seq<Int16>, ghost stores: seq<nat>)
      returns (at': nat, posn': nat, overrun: bool, ghost stores': seq<nat>)
    requires Holds(self, s) && Holds(oldUnits, needle) && Holds(newUnits, w)
    requires |s| == n && |needle| == oldLength > 0 && |w| == newLength
    requires buf != self && buf != oldUnits && buf != newUnits
    requires posn < n && Rest(total, at, s, needle, w, posn) && Filled(buf, at, total) && InOrder(stores, at)
    modifies buf
    ensures overrun ==> posn + |needle| >= 0x8000_0000 || |total| > buf.Length
    ensures !overrun ==> posn + |needle| < 0x8000_0000 && posn' == NextPlace(s, needle, posn)
    ensures !overrun ==> Rest(total, at', s, needle, w, posn') && Filled(buf, at', total) && InOrder(stores', at')
  {
    RestIsLonger(total, at, s, needle, w, posn);
    at', posn', overrun, stores' := at, posn, true, stores;
    var matched := false;
    if Wrap32(posn + oldLength) <= n {
      if Wrap32(posn + oldLength) < 0 {
        return;
      }
      matched := EqualRange(self, posn, oldLength, oldUnits, s, needle);
    }
    if matched {
      if at + newLength > buf.Length {
        return;
      }
      stores' := PutMatch(buf, at, newUnits, newLength, total, stores, s, needle, w, posn);
      at', posn' := at + newLength, posn + oldLength;
    } else {
      if at + 1 > buf.Length {
        return;
      }
      stores' := PutOther(buf, at, self[posn], total, stores, s, needle, w, posn);
      at', posn' := at + 1, posn + 1;
    }
    overrun := false;
  }

  /** Second pass: fill `buf`.  `stores` lists the cells in the order they are written.  The pass goes wrong
      exactly if the buffer is too short or a sum wraps around. */
  method WriteReplacement(self: array<Int16>, n: Count32, oldUnits: array<Int16>, oldLength: Count32,
                          newUnits: array<Int16>, newLength: Count32, buf: array<Int16>,
                          ghost s: seq<Int16>, ghost needle: seq<Int16>, ghost w: seq<Int16>)
      returns (finalLen: nat, overrun: bool, ghost stores: seq<nat>)
    requires Holds(self, s) && Holds(oldUnits, needle) && Holds(newUnits, w)
    requires |s| == n && |needle| == oldLength > 0 && |w| == newLength
    requires buf != self && buf != oldUnits && buf != newUnits
    modifies buf
    ensures overrun <==> |ReplaceFrom(s, needle, w, 0)| > buf.Length || WritingWraps(s, needle, 0)
    ensures !overrun ==> finalLen == |ReplaceFrom(s, needle, w, 0)| && InOrder(stores, finalLen)
    ensures !overrun ==> buf[..finalLen] == ReplaceFrom(s, needle, w, 0)
    ensures !overrun ==> |stores| == finalLen && forall k :: 0 <= k < finalLen ==> stores[k] == k
  {
    ghost var total := ReplaceFrom(s, needle, w, 0);
    finalLen, overrun, stores := 0, false, [];
    var posn := 0;
    while posn < n
      invariant 0 <= posn <= n && Rest(total, finalLen, s, needle, w, posn) && !overrun
      invariant Filled(buf, finalLen, total) && InOrder(stores, finalLen)
      invariant WritingWraps(s, needle, 0) == WritingWraps(s, needle, posn)
    {
      finalLen, posn, overrun, stores :=
        WriteTurn(self, n, oldUnits, oldLength, newUnits, newLength, buf, finalLen, posn, s, needle, w, total, stores);
      if overrun {
        return;
      }
    }
    AllWritten(total, finalLen, s, needle, w, posn);
  }

  lemma AllWritten(total: seq<Int16>, i: nat, s: seq<Int16>, needle: seq<Int16>, w: seq<Int16>, posn: nat)
    requires |needle| > 0 && Rest(total, i, s, needle, w, posn) && posn == |s|
    ensures i == |total|
  {
  }

  /** Something is replaced, and either the final string is longer than any storage or the sum of a
      position and the needle's length does not fit 32 bits. */
  ghost predicate TooLong(s: seq<Int16>, needle: seq<Int16>, w: seq<Int16>)
    requires |needle| > 0
  {
    var ps := Matches<Int16>(s, needle, 0);
    && ps != []
    && (|Replace<Int16>(s, needle, w)| > MAX_CAPACITY || LastPlace(s, needle, ps) + |needle| >= 0x8000_0000)
  }

  /** The original object comes back exactly when there is nothing to replace.  Otherwise the two passes work
      exactly if the string is not too long for them. */
  method ReplaceStringString(self: StringObject, oldValue: StringObject?, newValue: StringObject?)
      returns (result: Result<StringObject>)
    requires self.Valid() && (oldValue != null ==> oldValue.Valid()) && (newValue != null ==> newValue.Valid())
    ensures oldValue == null <==> result == Raised(NullReference)
    ensures oldValue != null && oldValue.length == 0 ==> result == Value(self)
    ensures oldValue != null && oldValue.length > 0 && !Occurs(self.Contents(), oldValue.Contents()) ==>
      result == Value(self)
    ensures oldValue != null && oldValue.length > 0 && Occurs(self.Contents(), oldValue.Contents()) ==>
      if TooLong(self.Contents(), oldValue.Contents(), ContentsOrEmpty(newValue)) then result == Broken(Overrun)
      else result.Value? && fresh(result.value) && fresh(result.value.units) && result.value.Valid()
    ensures result.Value? && oldValue.length > 0 ==>
      result.value.Valid() &&
      result.value.Contents() == Replace(self.Contents(), oldValue.Contents(), ContentsOrEmpty(newValue))
  {
    if oldValue == null {
      return Raised(NullReference);
    }
    if oldValue.length == 0 {
      return Value(self);
    }
    var newUnits, newLength := oldValue.units, 0;
    if newValue != null {
      newUnits, newLength := newValue.units, newValue.length;
    }
    ghost var s, needle, w := self.Contents(), oldValue.Contents(), ContentsOrEmpty(newValue);
    ReplaceFromIsReplace(s, needle, w, 0);
    assert s[0..] == s;
    LastSumDecides(s, needle, 0);
    OccursIsMatches(s, needle);
    var finalLen, foundMatch, overrun :=
      MeasureReplacement(self.units, self.length, oldValue.units, oldValue.length, newLength, s, needle, w);
    if overrun {
      return Broken(Overrun);
    }
    if !foundMatch {
      ReplaceAbsent(s, needle, w);
      return Value(self);
    }
    result := Rewrite(self, oldValue, newUnits, newLength, finalLen, s, needle, w);
  }

  /** The second half: the buffer, the second pass and the new string. */
  method Rewrite(self: StringObject, oldValue: StringObject, newUnits: array<Int16>, newLength: Count32,
                 finalLen: Int32, ghost s: seq<Int16>, ghost needle: seq<Int16>, ghost w: seq<Int16>)
      returns (result: Result<StringObject>)
    requires self.Valid() && oldValue.Valid() && s == self.Contents() && needle == oldValue.Contents() && |needle| > 0
    requires Holds(newUnits, w) && |w| == newLength && finalLen == Wrap32(|ReplaceFrom(s, needle, w, 0)|)
    ensures result == Broken(Overrun) <==>
      |ReplaceFrom(s, needle, w, 0)| > MAX_CAPACITY || WritingWraps(s, needle, 0)
    ensures result != Broken(Overrun) ==>
      && result.Value? && fresh(result.value) && fresh(result.value.units) && result.value.Valid()
      && result.value.Contents() == ReplaceFrom(s, needle, w, 0)
  {
    if finalLen < 0 {
      return Broken(Overrun);
    }
    var buf := new Int16[finalLen](_ => 0);
    var written, overrun;
    ghost var stores;
    written, overrun, stores := WriteReplacement(self.units, self.length, oldValue.units, oldValue.length,
                                                 newUnits, newLength, buf, s, needle, w);
    if overrun {
      return Broken(Overrun);
    }
    var made := NewInstance(buf, written);
    if made == null {
      return Broken(Overrun);
    }
    return Value(made);
  }

  lemma OccursIsMatches(s: seq<Int16>, needle: seq<Int16>)
    requires |needle| > 0
    ensures Occurs<Int16>(s, needle) <==> Matches<Int16>(s, needle, 0) != []
  {
    MatchesAreLeftmost<Int16>(s, needle, 0);
    var ps := Matches<Int16>(s, needle, 0);
    if Occurs<Int16>(s, needle) {
      var at :| MatchAt<Int16>(s, needle, at);
      assert at in AllMatches<Int16>(s, needle);
      assert Covers(ps, |needle|, at);
    }
    if ps != [] {
      assert ps[0] in AllMatches<Int16>(s, needle);
    }
  }

  /** The sums are safe if they stay below 2^31 everywhere in the string. */
  lemma ShortIsNotTooLong(s: seq<Int16>, needle: seq<Int16>, w: seq<Int16>)
    requires |needle| > 0 && |s| + |needle| < 0x8000_0000 && |Replace<Int16>(s, needle, w)| <= MAX_CAPACITY
    ensures !TooLong(s, needle, w)
  {
  }

  lemma {:induction false} ReplaceEveryUnit(x: Int16, n: nat, w: seq<Int16>)
    ensures |Replace<Int16>(seq(n, _ => x), [x], w)| == n * |w|
  {
    var s: seq<Int16> := seq(n, _ => x);
    if n > 0 {
      ReplaceEveryUnit(x, n - 1, w);
      assert s[1..] == seq(n - 1, _ => x);
      assert s[0..1] == [x];
      assert n * |w| == |w| + (n - 1) * |w|;
    }
  }

  /** An input that is too long: 65536 times a unit, each replaced by 65536 units.  The counted length is zero. */
  lemma LongReplacementOverruns(x: Int16, w: seq<Int16>)
    requires |w| == 65536
    ensures var s: seq<Int16> := seq(65536, _ => x);
      TooLong(s, [x], w) && Wrap32(|Replace<Int16>(s, [x], w)|) == 0
  {
    var s: seq<Int16> := seq(65536, _ => x);
    ReplaceEveryUnit(x, 65536, w);
    assert s[0..1] == [x];
    assert MatchAt<Int16>(s, [x], 0);
  }

  // ----- One unit by another

  function Mapped(s: seq<Int16>, oldUnit: Int16, newUnit: Int16): (r: seq<Int16>)
    ensures |r| == |s|
    ensures forall k :: 0 <= k < |s| ==> r[k] == if s[k] == oldUnit then newUnit else s[k]
  {
    seq(|s|, k requires 0 <= k < |s| => if s[k] == oldUnit then newUnit else s[k])
  }

  /** Exchanging units one by one is the general replacement with strings of length one. */
  lemma {:induction false} MappedIsReplace(s: seq<Int16>, oldUnit: Int16, newUnit: Int16)
    ensures Mapped(s, oldUnit, newUnit) == Replace(s, [oldUnit], [newUnit])
  {
    if s == [] {
    } else {
      MappedIsReplace(s[1..], oldUnit, newUnit);
      ReplaceUnitStep(s[0], s[1..], oldUnit, [newUnit]);
      assert s == [s[0]] + s[1..];
      assert Mapped(s, oldUnit, newUnit)
          == [if s[0] == oldUnit then newUnit else s[0]] + Mapped(s[1..], oldUnit, newUnit);
    }
  }

  method ReplaceUnit(self: StringObject, oldUnit: Int16, newUnit: Int16) returns (result: StringObject)
    requires self.Valid()
    ensures result.Valid() && result.Contents() == Replace(self.Contents(), [oldUnit], [newUnit])
    ensures if oldUnit == newUnit || self.length == 0 then result == self else fresh(result) && fresh(result.units)
  {
    MappedIsReplace(self.Contents(), oldUnit, newUnit);
    if oldUnit == newUnit || self.length == 0 {
      assert self.Contents() == Mapped(self.Contents(), oldUnit, newUnit);
      return self;
    }
    var n := self.length;
    var literal := new Int16[n](_ => 0);
    for i := 0 to n
      invariant self.length == n
      invariant forall k :: 0 <= k < i ==> literal[k] == if self.units[k] == oldUnit then newUnit else self.units[k]
    {
      if self.units[i] == oldUnit {
        literal[i] := newUnit;
      } else {
        literal[i] := self.units[i];
      }
    }
    assert literal[..n] == Mapped(self.Contents(), oldUnit, newUnit);
    result := NewInstance(literal, n);
  }
}
