/** The StringBuilder: a builder edits its string in place while nobody else can see it, and works on
    a copy once the string has been handed out (`needsCopy`).  What the edits come to is said in
    BuilderModel; an edit that would leave the storage of a string stops there (`Ends(Overrun)`). */
module StringBuilders {
  import opened MachineIntegers
  import opened Strings
  import opened StringReplace
  import opened BuilderModel

  method GetNewCapacity(length: Int32, oldCapacity: Count32) returns (r: Int32)
    ensures r == NewCapacity(length, oldCapacity)
  {
    if length > 2047 {
      return Wrap32(length + 1023) / 1024 * 1024;
    }
    r := if oldCapacity == 0 then 1 else oldCapacity;
    while r < length
      invariant r > 0 && (r < length ==> Doubled(r, length) == NewCapacity(length, oldCapacity))
      invariant r >= length ==> r == NewCapacity(length, oldCapacity)
      decreases length - r
    {
      r := r * 2;
    }
  }

  /** memmove within one string's storage. */
  method MoveUnits(a: array<Int16>, to: nat, from: nat, n: nat)
    requires to + n <= a.Length && from + n <= a.Length
    modifies a
    ensures forall k :: to <= k < to + n ==> a[k] == old(a[from + k - to])
    ensures forall k :: 0 <= k < to || to + n <= k < a.Length ==> a[k] == old(a[k])
  {
    forall k | 0 <= k < n {
      a[to + k] := a[from + k];
    }
  }

  /** `after` is `before` with `length` more units at `index`, whatever they are; if `length` is negative,
      without the units before `index`. */
  ghost predicate HasGap(before: seq<Int16>, after: seq<Int16>, index: int, length: int) {
    && 0 <= index <= |before| && 0 <= index + length && |after| == |before| + length
    && (var kept := if length < 0 then index + length else index; after[..kept] == before[..kept])
    && after[index + length..] == before[index..]
  }

  lemma GapIsOpen(before: seq<Int16>, after: seq<Int16>, index: int, length: int)
    requires 0 <= index <= |before| && 0 <= index + length && |after| == |before| + length
    requires forall k :: 0 <= k < index && k < index + length ==> after[k] == before[k]
    requires forall k :: index + length <= k < |after| ==> after[k] == before[k - length]
    ensures HasGap(before, after, index, length)
  {
  }

  lemma UnitsMoved(before: seq<Int16>, after: seq<Int16>, n: nat, index: nat, length: int)
    requires index <= n <= |before| == |after| && 0 <= index + length && n + length <= |after|
    requires forall k :: index + length <= k < n + length ==> after[k] == before[k - length]
    requires forall k :: 0 <= k < index + length ==> after[k] == before[k]
    ensures HasGap(before[..n], after[..n + length], index, length)
  {
    GapIsOpen(before[..n], after[..n + length], index, length);
  }

  /** The gap is opened in a copy.  It begins as a copy of the whole string, so that copying one unit too few
      of the part before the gap does no harm. */
  method CopyWithGap(sbString: StringObject, str: StringObject, index: nat, length: int)
    requires sbString.Valid() && str.Valid() && str.units != sbString.units && str != sbString
    requires str.Contents() == sbString.Contents() && index <= sbString.length
    requires 0 <= index + length && sbString.length + length <= str.capacity
    modifies str, str.units
    ensures str.Valid() && str.capacity == old(str.capacity)
    ensures HasGap(sbString.Contents(), str.Contents(), index, length)
  {
    var n := sbString.length;
    ghost var was := sbString.Contents();
    assert str.units[..n] == was;
    if index > 0 {
      CopyUnits(str.units, 0, sbString.units, 0, index - 1);
    }
    CopyUnits(str.units, index + length, sbString.units, index, n - index);
    str.length := n + length;
    GapIsOpen(was, str.Contents(), index, length);
  }

  /** A copy of a string that has room for `length` units, and the capacity that was asked for it.  There is
      none exactly if that capacity wraps around. */
  method NewRoom(sbString: StringObject, length: Count32, max: Count32)
      returns (str: StringObject?, newCapacity: Int32)
    requires sbString.Valid() && sbString.capacity <= length <= max
    ensures str == null <==> length > LONGEST_REQUEST
    ensures str != null ==> fresh(str) && fresh(str.units) && str.Valid() && str.Contents() == sbString.Contents()
    ensures str != null ==> str.capacity == Grown(length, sbString.capacity, max)
    ensures str != null ==> newCapacity == AtMost(NewCapacity(length, sbString.capacity), max)
  {
    newCapacity := GetNewCapacity(length, sbString.capacity);
    if newCapacity > max {
      newCapacity := max;
    }
    str := NewBuilder(sbString, newCapacity);
  }

  class StringBuilder {
    var buildString: StringObject
    var needsCopy: bool
    const maxCapacity: Count32

    /** The strings others hold. */
    ghost var shared: set<StringObject>

    ghost predicate Valid()
      reads this, buildString
    {
      && buildString.Valid() && buildString.capacity % 8 == 0
      && (!needsCopy ==> forall s :: s in shared ==> s != buildString && s.units != buildString.units)
    }

    /** What the builder may change in place: nothing while its string is also someone else's. */
    ghost function Owned(): (owned: set<object>)
      reads this
    {
      if needsCopy then {} else {buildString, buildString.units}
    }

    function Contents(): (s: seq<Int16>)
      requires Valid()
      reads this, buildString, buildString.units
    {
      buildString.Contents()
    }

    /** The builder as a value. */
    function State(): (b: Builder)
      requires Valid()
      reads this, buildString, buildString.units
      ensures b.Valid() && b.contents == Contents()
    {
      Builder(buildString.Contents(), buildString.capacity)
    }

    constructor (value: StringObject, capacity: Count32, maxCapacity: Count32, ghost shared: set<StringObject>)
      requires value.Valid() && value.length <= RoundUp8(capacity) <= MAX_CAPACITY
      ensures Valid() && fresh(Owned()) && !needsCopy
      ensures State() == Builder(value.Contents(), RoundUp8(capacity))
      ensures this.maxCapacity == maxCapacity && this.shared == shared
    {
      var str := NewBuilder(value, capacity);
      buildString := str;
      needsCopy := false;
      this.maxCapacity := maxCapacity;
      this.shared := shared;
    }

    /** The string is handed out, as the managed ToString does. */
    method HandOut() returns (s: StringObject)
      requires Valid()
      modifies this`needsCopy, this`shared
      ensures Valid() && s == buildString && needsCopy && shared == old(shared) + {s}
    {
      needsCopy := true;
      s := buildString;
      shared := shared + {s};
    }

    /** The result of an edit that reserves `capacity` units. */
    function ReserveResult(outcome: Outcome, capacity: Int32): (result: Result<int>)
      requires Valid() && (outcome == Done ==> outcome == Decide(State(), Reserve(capacity), maxCapacity))
      reads this, buildString, buildString.units
    {
      match outcome
      case Ends(fault) => Broken(fault)
      case Refused => Raised(ArgumentOutOfRange)
      case Done =>
        if capacity < buildString.capacity then Value(buildString.capacity)
        else Value(AtMost(NewCapacity(capacity, buildString.capacity), maxCapacity))
    }

    method EnsureCapacity(capacity: Int32) returns (result: Result<int>)
      requires Valid()
      modifies this`buildString, this`needsCopy
      ensures Valid() && fresh(Owned() - old(Owned()))
      ensures result == old(ReserveResult(Decide(State(), Reserve(capacity), maxCapacity), capacity))
      ensures !result.Broken? ==> State() == Next(old(State()), Reserve(capacity), maxCapacity)
      ensures Contents() == old(Contents())
      ensures result == Broken(AssertFails) <==> maxCapacity == 0 || old(buildString.capacity) > maxCapacity
      ensures !result.Broken? ==> (result == Raised(ArgumentOutOfRange) <==> capacity < 0 || capacity > maxCapacity)
      ensures result.Value? && capacity < old(buildString.capacity) ==> result.value == buildString.capacity
      ensures result.Value? && capacity >= old(buildString.capacity) ==>
        result.value == AtMost(NewCapacity(capacity, old(buildString.capacity)), maxCapacity)
      ensures result == Broken(Overrun) <==>
        && 0 < maxCapacity && old(buildString.capacity) <= maxCapacity
        && old(buildString.capacity) <= capacity <= maxCapacity && capacity > 0x7FFF_FC00
      ensures !result.Value? || capacity < old(buildString.capacity) ==>
        buildString == old(buildString) && needsCopy == old(needsCopy)
      ensures result.Value? && capacity >= old(buildString.capacity) ==> !needsCopy
    {
      var str := buildString;
      var curCapacity := str.capacity;
      if maxCapacity <= 0 || curCapacity > maxCapacity {
        return Broken(AssertFails);
      }
      if capacity < 0 || capacity > maxCapacity {
        return Raised(ArgumentOutOfRange);
      }
      if capacity < curCapacity {
        return Value(curCapacity);
      }
      var newStr, newCapacity := NewRoom(str, capacity, maxCapacity);
      if newStr == null {
        return Broken(Overrun);
      }
      buildString := newStr;
      needsCopy := false;
      return Value(newCapacity);
    }

    /** Makes sure the string may be changed in place. */
    method Detach()
      requires Valid()
      modifies this`buildString, this`needsCopy
      ensures Valid() && !needsCopy && fresh(Owned() - old(Owned()))
      ensures State() == old(State())
      ensures !old(needsCopy) ==> buildString == old(buildString)
    {
      if needsCopy {
        var copy := NewBuilder(buildString, buildString.capacity);
        buildString := copy;
        needsCopy := false;
      }
    }

    method ReplaceCC(oldUnit: Int16, newUnit: Int16)
      requires Valid()
      modifies this`buildString, this`needsCopy, Owned()
      ensures Valid() && fresh(Owned() - old(Owned()))
      ensures State() == Next(old(State()), ReplaceUnits(oldUnit, newUnit), maxCapacity)
      ensures |Contents()| == |old(Contents())| && buildString.capacity == old(buildString.capacity)
      ensures forall k :: 0 <= k < |Contents()| ==>
        Contents()[k] == if old(Contents())[k] == oldUnit then newUnit else old(Contents())[k]
    {
      if oldUnit != newUnit {
        Detach();
        ghost var was := Contents();
        var n, literal := buildString.length, buildString.units;
        for i := 0 to n
          modifies literal
          invariant forall k :: 0 <= k < i ==> literal[k] == if was[k] == oldUnit then newUnit else was[k]
          invariant forall k :: i <= k < n ==> literal[k] == was[k]
        {
          if literal[i] == oldUnit {
            literal[i] := newUnit;
          }
        }
        assert literal[..n] == Mapped(was, oldUnit, newUnit);
      } else {
        assert Contents() == Mapped(Contents(), oldUnit, newUnit);
      }
    }

    method ReplaceCCII(oldUnit: Int16, newUnit: Int16, startIndex: Int32, count: Int32) returns (raised: bool)
      requires Valid()
      modifies this`buildString, this`needsCopy, Owned()
      ensures Valid() && fresh(Owned() - old(Owned()))
      ensures raised <==> startIndex < 0 || startIndex > |old(Contents())| || |old(Contents())| - startIndex < count
      ensures raised ==> buildString == old(buildString) && needsCopy == old(needsCopy)
      ensures State() == Next(old(State()), ReplaceRange(oldUnit, newUnit, startIndex, count), maxCapacity)
      ensures |Contents()| == |old(Contents())| && buildString.capacity == old(buildString.capacity)
      ensures forall k :: 0 <= k < |Contents()| ==>
        Contents()[k] ==
          if !raised && startIndex <= k < startIndex + count && old(Contents())[k] == oldUnit then newUnit
          else old(Contents())[k]
    {
      var n := buildString.length;
      if startIndex < 0 || startIndex > n {
        return true;
      }
      if n - startIndex < count {
        return true;
      }
      if oldUnit != newUnit {
        Detach();
        ghost var was := Contents();
        var literal: array<Int16>, at: int, left: int := buildString.units, startIndex, count;
        while left > 0
          modifies literal
          invariant startIndex <= at && at + left == startIndex + count && (left >= 0 || left == count)
          invariant forall k :: 0 <= k < n ==>
            literal[k] == if startIndex <= k < at && was[k] == oldUnit then newUnit else was[k]
        {
          if literal[at] == oldUnit {
            literal[at] := newUnit;
          }
          at := at + 1;
          left := left - 1;
        }
        assert literal[..n] == MappedRange(was, oldUnit, newUnit, startIndex, count);
      } else {
        assert Contents() == MappedRange(Contents(), oldUnit, newUnit, startIndex, count);
      }
      return false;
    }

    /** A string of the builder's own in which the code takes there to be room for `newLength` units. */
    method MakeRoom(newLength: Int32) returns (outcome: Outcome)
      requires Valid()
      modifies this`buildString, this`needsCopy
      ensures Valid() && fresh(Owned() - old(Owned())) && Contents() == old(Contents())
      ensures newLength <= old(buildString.capacity) ==> outcome == Done
      ensures newLength > old(buildString.capacity) ==>
        outcome == RoomFor(newLength, old(buildString.capacity), maxCapacity)
      ensures outcome != Done ==> buildString == old(buildString) && needsCopy == old(needsCopy)
      ensures outcome == Done && newLength <= old(buildString.capacity) ==>
        !needsCopy && buildString.capacity == old(buildString.capacity)
      ensures outcome == Done && newLength > old(buildString.capacity) ==>
        !needsCopy && buildString.capacity == Grown(newLength, old(buildString.capacity), maxCapacity)
    {
      if newLength > buildString.capacity {
        if newLength > maxCapacity {
          return Refused;
        }
        var copy, _ := NewRoom(buildString, newLength, maxCapacity);
        if copy == null {
          return Ends(Overrun);
        }
        buildString := copy;
        needsCopy := false;
      } else {
        Detach();
      }
      return Done;
    }

    method Append(value: StringObject?) returns (outcome: Outcome)
      requires Valid() && (value != null ==> value in shared && value.Valid())
      modifies this`buildString, this`needsCopy, Owned()
      ensures Valid() && fresh(Owned() - old(Owned()))
      ensures outcome == Decide(old(State()), AppendText(old(ContentsOrEmpty(value))), maxCapacity)
      ensures !outcome.Ends? ==>
        State() == Next(old(State()), AppendText(old(ContentsOrEmpty(value))), maxCapacity)
      ensures outcome == Refused || value == null || value.length == 0 ==>
        buildString == old(buildString) && needsCopy == old(needsCopy)
      ensures outcome == Done ==> Contents() == old(Contents()) + old(ContentsOrEmpty(value))
    {
      ghost var b := State();
      AppendInPlainTerms(b, ContentsOrEmpty(value), maxCapacity);
      if value == null || value.length == 0 {
        return Done;
      }
      outcome := AppendUnits(value);
    }

    /** There is something to append. */
    method AppendUnits(value: StringObject) returns (outcome: Outcome)
      requires Valid() && value in shared && value.Valid() && value.length > 0
      modifies this`buildString, this`needsCopy, Owned()
      ensures Valid() && fresh(Owned() - old(Owned()))
      ensures outcome == DecideInsert(old(State()), |old(Contents())|, old(value.Contents()), maxCapacity)
      ensures outcome == Done ==>
        State() == Inserted(old(State()), |old(Contents())|, old(value.Contents()), maxCapacity)
      ensures outcome == Refused ==>
        State() == old(State()) && buildString == old(buildString) && needsCopy == old(needsCopy)
    {
      outcome := MakeRoomFor(buildString.length, value.length);
      if outcome == Done {
        WriteAtEnd(value);
      }
    }

    /** Room for `n` more units.  Where their sum wraps around, the code goes on with too little. */
    method MakeRoomFor(oldLength: Count32, n: Count32) returns (outcome: Outcome)
      requires Valid() && oldLength == buildString.length
      modifies this`buildString, this`needsCopy
      ensures Valid() && fresh(Owned() - old(Owned())) && Contents() == old(Contents())
      ensures outcome == RoomFor(oldLength + n, old(buildString.capacity), maxCapacity)
      ensures outcome == Refused ==> buildString == old(buildString) && needsCopy == old(needsCopy)
      ensures outcome == Done ==>
        !needsCopy && buildString.capacity == CapacityFor(oldLength + n, old(buildString.capacity), maxCapacity)
    {
      SumDecides(oldLength, oldLength, n, buildString.capacity, maxCapacity);
      outcome := MakeRoom(Wrap32(oldLength + n));
      if outcome == Done && oldLength + n > buildString.capacity {
        outcome := Ends(Overrun);
      }
    }

    /** The units of `value` come after the contents. */
    method WriteAtEnd(value: StringObject)
      requires Valid() && !needsCopy && value in shared && value.Valid()
      requires buildString.length + value.length <= buildString.capacity
      modifies buildString, buildString.units
      ensures Valid() && buildString.capacity == old(buildString.capacity)
      ensures Contents() == InsertedAt(old(Contents()), |old(Contents())|, value.Contents())
    {
      ghost var was, piece := Contents(), value.Contents();
      var oldLength, n := buildString.length, value.length;
      CopyUnits(buildString.units, oldLength, value.units, 0, n);
      buildString.length := oldLength + n;
      assert buildString.units[..oldLength] == was;
      assert buildString.units[oldLength..oldLength + n] == piece;
      assert InsertedAt(was, |was|, piece) == was + piece;
    }

    /** Opens a gap of `length` units at `index`.  What the gap holds is not said.  A negative length, to which
        a product may have wrapped around, takes units away. */
    method OpenGap(index: int, length: Int32) returns (outcome: Outcome)
      requires Valid()
      modifies this`buildString, Owned()
      ensures Valid() && fresh(Owned() - old(Owned())) && needsCopy == old(needsCopy)
      ensures outcome == GapOutcome(old(State()), index, length, maxCapacity)
      ensures outcome == Done && needsCopy ==> fresh(buildString) && fresh(buildString.units)
      ensures outcome != Done ==> buildString == old(buildString) && State() == old(State())
      ensures outcome == Done ==>
        && HasGap(old(Contents()), Contents(), index, length)
        && buildString.capacity == CapacityFor(|Contents()|, old(buildString.capacity), maxCapacity)
    {
      var n := buildString.length;
      if index < 0 || index > n {
        return Refused;
      }
      SumDecides(n, index, length, buildString.capacity, maxCapacity);
      var newLength := Wrap32(n + length);
      if newLength > buildString.capacity {
        if newLength > maxCapacity {
          return Refused;
        }
        outcome := GrowWithGap(index, length);
        return;
      }
      if newLength < 0 || index + length < 0 {
        return Ends(Overrun);
      }
      GapWithoutGrowth(index, length);
      return Done;
    }

    /** There is not enough room yet. */
    method GrowWithGap(index: nat, length: nat) returns (outcome: Outcome)
      requires Valid() && index <= buildString.length
      requires buildString.capacity < buildString.length + length <= maxCapacity
      modifies this`buildString
      ensures Valid() && outcome == if |old(Contents())| + length > LONGEST_REQUEST then Ends(Overrun) else Done
      ensures outcome == Done ==> fresh(buildString) && fresh(buildString.units)
      ensures outcome != Done ==> buildString == old(buildString)
      ensures outcome == Done ==>
        && HasGap(old(Contents()), Contents(), index, length)
        && buildString.capacity == Grown(|old(Contents())| + length, old(buildString.capacity), maxCapacity)
    {
      var str, _ := NewRoom(buildString, buildString.length + length, maxCapacity);
      if str == null {
        return Ends(Overrun);
      }
      UseCopy(str, index, length);
      return Done;
    }

    /** There is enough room, at least if the string is copied. */
    method GapWithoutGrowth(index: nat, length: int)
      requires Valid() && index <= buildString.length
      requires 0 <= index + length && buildString.length + length <= buildString.capacity
      modifies this`buildString, Owned()
      ensures Valid() && fresh(Owned() - old(Owned())) && buildString.capacity == old(buildString.capacity)
      ensures needsCopy ==> fresh(buildString) && fresh(buildString.units)
      ensures HasGap(old(Contents()), Contents(), index, length)
    {
      if needsCopy {
        OpenGapInCopy(index, length);
      } else {
        OpenGapInPlace(index, length);
      }
    }

    method OpenGapInCopy(index: nat, length: int)
      requires Valid() && index <= buildString.length
      requires 0 <= index + length && buildString.length + length <= buildString.capacity
      modifies this`buildString
      ensures Valid() && buildString.capacity == old(buildString.capacity)
      ensures fresh(buildString) && fresh(buildString.units)
      ensures HasGap(old(Contents()), Contents(), index, length)
    {
      var str := NewBuilder(buildString, buildString.capacity);
      UseCopy(str, index, length);
    }

    /** `str`, a copy of the string, gets the gap and becomes the builder's string. */
    method UseCopy(str: StringObject, index: nat, length: int)
      requires Valid() && str.Valid() && str.units != buildString.units && str != buildString
      requires str.Contents() == Contents() && index <= buildString.length && str.capacity % 8 == 0
      requires 0 <= index + length && buildString.length + length <= str.capacity
      requires forall s :: s in shared ==> s != str && s.units != str.units
      modifies this`buildString, str, str.units
      ensures Valid() && buildString == str && str.capacity == old(str.capacity)
      ensures HasGap(old(Contents()), Contents(), index, length)
    {
      CopyWithGap(buildString, str, index, length);
      buildString := str;
    }

    method OpenGapInPlace(index: nat, length: int)
      requires Valid() && !needsCopy && index <= buildString.length
      requires 0 <= index + length && buildString.length + length <= buildString.capacity
      modifies buildString, buildString.units
      ensures Valid() && buildString.capacity == old(buildString.capacity)
      ensures HasGap(old(Contents()), Contents(), index, length)
    {
      ghost var before := buildString.units[..];
      var n := buildString.length;
      MoveUnits(buildString.units, index + length, index, n - index);
      buildString.length := n + length;
      UnitsMoved(before, buildString.units[..], n, index, length);
    }

    method InsertString(index: Int32, value: StringObject?) returns (outcome: Outcome)
      requires Valid() && (value != null ==> value in shared && value.Valid())
      modifies this`buildString, Owned()
      ensures Valid() && fresh(Owned() - old(Owned())) && needsCopy == old(needsCopy)
      ensures outcome == Decide(old(State()), InsertText(index, old(ContentsOrEmpty(value))), maxCapacity)
      ensures !outcome.Ends? ==>
        State() == Next(old(State()), InsertText(index, old(ContentsOrEmpty(value))), maxCapacity)
      ensures outcome == Refused ==> Contents() == old(Contents())
      ensures outcome == Done && value != null && value.length > 0 ==>
        && 0 <= index <= |old(Contents())|
        && Contents() == old(Contents())[..index] + value.Contents() + old(Contents())[index..]
    {
      if value == null || value.length == 0 {
        return Done;
      }
      outcome := InsertUnits(index, value);
    }

    /** There is something to insert. */
    method InsertUnits(index: int, value: StringObject) returns (outcome: Outcome)
      requires Valid() && value in shared && value.Valid() && value.length > 0
      modifies this`buildString, Owned()
      ensures Valid() && fresh(Owned() - old(Owned())) && needsCopy == old(needsCopy)
      ensures outcome == DecideInsert(old(State()), index, old(value.Contents()), maxCapacity)
      ensures outcome == Refused ==> State() == old(State())
      ensures outcome == Done ==> State() == Inserted(old(State()), index, old(value.Contents()), maxCapacity)
    {
      ghost var was := Contents();
      outcome := OpenGap(index, value.length);
      if outcome == Done {
        FillOnce(index, value, was);
      }
    }

    method FillOnce(index: nat, value: StringObject, ghost was: seq<Int16>)
      requires Valid() && value in shared && value.Valid() && buildString != value && buildString.units != value.units
      requires HasGap(was, Contents(), index, value.length)
      modifies buildString.units
      ensures Contents() == InsertedAt(was, index, value.Contents())
    {
      ghost var gapped := Contents();
      WriteOnce(buildString.units, index, value.units, value.length, value.Contents());
      FillGap(was, gapped, Contents(), index, value.Contents());
    }

    method InsertRepeated(index: Int32, value: StringObject?, count: Int32) returns (outcome: Outcome)
      requires Valid() && (value != null ==> value in shared && value.Valid())
      modifies this`buildString, Owned()
      ensures Valid() && fresh(Owned() - old(Owned())) && needsCopy == old(needsCopy)
      ensures outcome == Decide(old(State()), InsertTextTimes(index, old(ContentsOrEmpty(value)), count), maxCapacity)
      ensures !outcome.Ends? ==>
        State() == Next(old(State()), InsertTextTimes(index, old(ContentsOrEmpty(value)), count), maxCapacity)
      ensures outcome == Refused ==> Contents() == old(Contents())
      ensures outcome == Done && value != null && value.length > 0 && count > 0 ==>
        && 0 <= index <= |old(Contents())|
        && Contents() == old(Contents())[..index] + Repeated(value.Contents(), count) + old(Contents())[index..]
    {
      if count < 0 {
        return Refused;
      }
      NothingToRepeat(ContentsOrEmpty(value), count);
      if value == null || value.length == 0 || count == 0 {
        return Done;
      }
      outcome := InsertCopies(index, value, count);
    }

    /** There is something to insert. */
    method InsertCopies(index: int, value: StringObject, count: Count32) returns (outcome: Outcome)
      requires Valid() && value in shared && value.Valid() && value.length > 0 && count > 0
      requires Repeated(value.Contents(), count) != []
      modifies this`buildString, Owned()
      ensures Valid() && fresh(Owned() - old(Owned())) && needsCopy == old(needsCopy)
      ensures outcome == DecideInsert(old(State()), index, Repeated(old(value.Contents()), count), maxCapacity)
      ensures outcome == Refused ==> State() == old(State())
      ensures outcome == Done ==>
        State() == Inserted(old(State()), index, Repeated(old(value.Contents()), count), maxCapacity)
    {
      RepeatedLength(value.Contents(), count);
      outcome := InsertProduct(index, value, count, value.length * count);
    }

    /** The units to be inserted are `product` in number. */
    method InsertProduct(index: int, value: StringObject, count: Count32, product: nat) returns (outcome: Outcome)
      requires Valid() && value in shared && value.Valid() && |Repeated(value.Contents(), count)| == product > 0
      modifies this`buildString, Owned()
      ensures Valid() && fresh(Owned() - old(Owned())) && needsCopy == old(needsCopy)
      ensures outcome == DecideInsert(old(State()), index, Repeated(old(value.Contents()), count), maxCapacity)
      ensures outcome == Refused ==> State() == old(State())
      ensures outcome == Done ==>
        State() == Inserted(old(State()), index, Repeated(old(value.Contents()), count), maxCapacity)
    {
      ghost var was := Contents();
      outcome := OpenGapFor(index, product, Repeated(value.Contents(), count));
      if outcome == Done {
        FillWithCopies(index, value, count, was);
      }
    }

    /** A gap for `piece`, which is as long as `product`.  The code asks for the wrapped length. */
    method OpenGapFor(index: int, product: nat, ghost piece: seq<Int16>) returns (outcome: Outcome)
      requires Valid() && |piece| == product > 0
      modifies this`buildString, Owned()
      ensures Valid() && fresh(Owned() - old(Owned())) && needsCopy == old(needsCopy)
      ensures outcome == DecideInsert(old(State()), index, piece, maxCapacity)
      ensures outcome == Done && needsCopy ==> fresh(buildString) && fresh(buildString.units)
      ensures outcome == Refused ==> State() == old(State())
      ensures outcome == Done ==>
        && HasGap(old(Contents()), Contents(), index, product)
        && buildString.capacity == CapacityFor(|Contents()|, old(buildString.capacity), maxCapacity)
    {
      WrappedLengthDecides(State(), index, piece, maxCapacity);
      outcome := OpenGap(index, Wrap32(product));
      if outcome == Done && index + product > buildString.capacity {
        outcome := Ends(Overrun);
      }
    }

    /** The gap is filled. */
    method FillWithCopies(index: nat, value: StringObject, count: Count32, ghost was: seq<Int16>)
      requires Valid() && value in shared && value.Valid() && buildString != value && buildString.units != value.units
      requires HasGap(was, Contents(), index, |Repeated(value.Contents(), count)|)
      modifies buildString.units
      ensures Contents() == InsertedAt(was, index, Repeated(value.Contents(), count))
    {
      ghost var gapped, piece := Contents(), value.Contents();
      WriteRepeated(buildString.units, index, value.units, value.length, count, piece);
      FillGap(was, gapped, Contents(), index, Repeated(piece, count));
    }
  }

  /** What the tests that OpenGap makes of the sum in 32 bits amount to. */
  lemma SumDecides(n: nat, index: int, length: Int32, capacity: Count32, max: Count32)
    requires 0 <= index <= n <= capacity
    ensures var sum := Wrap32(n + length);
      && (sum > capacity ==>
            && sum == n + length && index + length >= 0
            && (sum > max ==> RoomFor(n + length, capacity, max) == Refused)
            && (sum <= max ==>
                  RoomFor(n + length, capacity, max) == if sum > LONGEST_REQUEST then Ends(Overrun) else Done))
      && (sum < 0 && index + length >= 0 ==> RoomFor(n + length, capacity, max) == Ends(Overrun))
      && (0 <= sum <= capacity && index + length >= 0 ==>
            sum == n + length && RoomFor(n + length, capacity, max) == Done)
  {
  }

  lemma NothingToRepeat(piece: seq<Int16>, count: nat)
    ensures Repeated(piece, count) == [] <==> piece == [] || count == 0
  {
    RepeatedLength(piece, count);
    if piece != [] && count > 0 {
      ProductIsPositive(|piece|, count);
    }
  }

  lemma ProductIsPositive(n: nat, count: nat)
    requires n > 0 && count > 0
    ensures n * count > 0
  {
  }

  /** Opening a gap of the wrapped length decides about the insertion of `piece`, but for one case: where the
      length did wrap around and there is room for a gap, the piece is longer than any storage. */
  lemma WrappedLengthDecides(b: Builder, index: int, piece: seq<Int16>, max: Count32)
    requires b.Valid() && piece != []
    ensures var gap := GapOutcome(b, index, Wrap32(|piece|), max);
      && (gap != Done ==> DecideInsert(b, index, piece, max) == gap)
      && (gap == Done && Wrap32(|piece|) == |piece| ==> DecideInsert(b, index, piece, max) == Done)
      && (gap == Done && Wrap32(|piece|) != |piece| ==>
            |piece| > MAX_CAPACITY && DecideInsert(b, index, piece, max) == Ends(Overrun))
  {
    WrapSum(|b.contents|, |piece|);
    WrapIsExact(|piece|);
  }

  /** Copies the string once. */
  method WriteOnce(a: array<Int16>, at: nat, b: array<Int16>, n: nat, ghost piece: seq<Int16>)
    requires a != b && n <= b.Length && piece == b[..n] && at + n <= a.Length
    modifies a
    ensures a[at..at + n] == piece
    ensures forall k :: 0 <= k < at || at + n <= k < a.Length ==> a[k] == old(a[k])
  {
    CopyUnits(a, at, b, 0, n);
  }

  /** Copies the string `count` times, one copy after the other. */
  method WriteRepeated(a: array<Int16>, at: nat, b: array<Int16>, n: nat, count: nat, ghost piece: seq<Int16>)
    requires a != b && n <= b.Length && piece == b[..n] && at + |Repeated(piece, count)| <= a.Length
    modifies a
    ensures a[at..at + |Repeated(piece, count)|] == Repeated(piece, count)
    ensures forall k :: 0 <= k < at || at + |Repeated(piece, count)| <= k < a.Length ==> a[k] == old(a[k])
  {
    var index, left := at, count;
    ghost var done := 0;
    ghost var end := at + |Repeated(piece, count)|;
    while left > 0
      invariant left + done == count && index == at + |Repeated(piece, done)| <= a.Length
      invariant a[at..index] == Repeated(piece, done)
      invariant forall k :: 0 <= k < at || end <= k < a.Length ==> a[k] == old(a[k])
    {
      RepeatedGrows(piece, done + 1, count);
      ghost var before := a[at..index];
      CopyUnits(a, index, b, 0, n);
      OneMoreCopy(a[..], at, index, n, before, piece);
      index := index + n;
      left, done := left - 1, done + 1;
    }
  }

  lemma OneMoreCopy(a: seq<Int16>, at: nat, index: nat, n: nat, before: seq<Int16>, piece: seq<Int16>)
    requires at <= index && index + n <= |a| && |piece| == n && |before| == index - at
    requires forall k :: at <= k < index ==> a[k] == before[k - at]
    requires forall k :: index <= k < index + n ==> a[k] == piece[k - index]
    ensures a[at..index + n] == before + piece
  {
  }

  lemma FillGap(was: seq<Int16>, gapped: seq<Int16>, filled: seq<Int16>, index: nat, piece: seq<Int16>)
    requires index <= |was| && |gapped| == |filled| == |was| + |piece|
    requires gapped[..index] == was[..index] && gapped[index + |piece|..] == was[index..]
    requires filled[index..index + |piece|] == piece
    requires forall k :: 0 <= k < index || index + |piece| <= k < |filled| ==> filled[k] == gapped[k]
    ensures filled == InsertedAt(was, index, piece)
  {
    assert filled[..index] == gapped[..index];
    assert filled[index + |piece|..] == gapped[index + |piece|..];
  }
}
