/** What the edits of a StringBuilder do, on plain values: a builder is its contents and its capacity.

    Lengths and capacities are added and multiplied in 32 bits.  An edit is done, refused, or ends the
    builder's life: an assertion fails, or a wrapped size makes the code leave its storage. */
module BuilderModel {
  import opened MachineIntegers
  import opened Strings
  import opened Text
  import opened StringReplace

  datatype Outcome = Done | Refused | Ends(fault: Fault)

  // ----- Capacities

  function Doubled(capacity: nat, length: nat): (r: nat)
    requires capacity > 0
    ensures length <= r && capacity <= r && (r == capacity || r < 2 * length)
    decreases length - capacity
  {
    if capacity < length then Doubled(2 * capacity, length) else capacity
  }

  function PowerOfTwo(k: nat): (r: nat)
    ensures r > 0 && (k == 0 ==> r == 1) && (k > 0 ==> r == 2 * PowerOfTwo(k - 1))
  {
    if k == 0 then 1 else 2 * PowerOfTwo(k - 1)
  }

  lemma DoubleTimes(a: nat, b: nat)
    ensures (2 * a) * b == a * (2 * b)
  {
  }

  /** Doubling stops at the first multiple by a power of two that suffices. */
  lemma {:induction false} DoublingIsLeast(capacity: nat, length: nat) returns (k: nat)
    requires capacity > 0
    ensures Doubled(capacity, length) == capacity * PowerOfTwo(k) >= length
    ensures k > 0 ==> capacity * PowerOfTwo(k - 1) < length
    decreases length - capacity
  {
    k := 0;
    if capacity < length {
      var j := DoublingIsLeast(2 * capacity, length);
      k := j + 1;
      DoubleTimes(capacity, PowerOfTwo(j));
      if j > 0 {
        DoubleTimes(capacity, PowerOfTwo(j - 1));
      }
    }
  }

  /** Beyond this length, rounding up to a multiple of 1024 wraps around. */
  const LONGEST_REQUEST: Count32 := 0x7FFF_FC00

  /** Long strings grow in steps of 1024 units, short ones by doubling. */
  function NewCapacity(length: Int32, oldCapacity: Count32): (r: Int32)
    ensures length <= 2047 ==> length <= r && 0 < r && (r == oldCapacity || r == 1 || r < 2 * length)
    ensures 2047 < length <= LONGEST_REQUEST ==> length <= r < length + 1024 && r % 1024 == 0 && r <= LONGEST_REQUEST
    ensures length > LONGEST_REQUEST ==> r == -0x8000_0000
  {
    if length > 2047 then Wrap32(length + 1023) / 1024 * 1024
    else if length < 0 then (if oldCapacity == 0 then 1 else oldCapacity)
    else Doubled(if oldCapacity == 0 then 1 else oldCapacity, length)
  }

  function AtMost(n: Int32, limit: Count32): (r: Int32)
    ensures r <= n && r <= limit && (r == n || r == limit)
  {
    if n > limit then limit else n
  }

  /** The capacity a string gets when a builder that may hold `max` units makes room for `length`. */
  function Grown(length: Count32, capacity: Count32, max: Count32): (r: Count32)
    requires capacity <= length <= max && length <= LONGEST_REQUEST
    ensures length <= r <= MAX_CAPACITY && r % 8 == 0
    ensures r == RoundUp8(AtMost(NewCapacity(length, capacity), max))
  {
    Rounded(AtMost(NewCapacity(length, capacity), max))
  }

  /** Rounding up does not pass a multiple of eight. */
  lemma RoundingStaysBelow(n: int, m: int)
    requires n <= m && m % 8 == 0
    ensures RoundUp8(n) <= m
  {
  }

  lemma GrownBelowLimit(length: Count32, capacity: Count32, max: Count32)
    requires capacity <= length <= max && length <= LONGEST_REQUEST
    ensures Grown(length, capacity, max) <= LONGEST_REQUEST
    ensures max % 8 == 0 || max > LONGEST_REQUEST ==> Grown(length, capacity, max) <= max
  {
    var asked := AtMost(NewCapacity(length, capacity), max);
    assert asked <= LONGEST_REQUEST;
    RoundingStaysBelow(asked, LONGEST_REQUEST);
    if max % 8 == 0 {
      RoundingStaysBelow(asked, max);
    }
  }

  /** No growth exceeds the maximum. */
  ghost predicate GrowsWithin(capacity: Count32, max: Count32) {
    forall length {:trigger Grown(length, capacity, max)} ::
      capacity <= length <= max && length <= LONGEST_REQUEST ==> Grown(length, capacity, max) <= max
  }

  /** Because storage is rounded up after the maximum is applied, growth respects the maximum for every
      request exactly if the maximum is a multiple of eight or too large for a request to reach it. */
  lemma GrowthRespectsMaximum(capacity: Count32, max: Count32)
    requires capacity <= max
    ensures GrowsWithin(capacity, max) <==> max % 8 == 0 || max > LONGEST_REQUEST
  {
    if max % 8 == 0 || max > LONGEST_REQUEST {
      forall length | capacity <= length <= max && length <= LONGEST_REQUEST
        ensures Grown(length, capacity, max) <= max
      {
        GrownBelowLimit(length, capacity, max);
      }
    } else {
      assert Grown(max, capacity, max) % 8 == 0;
    }
  }

  /** The code takes this for room for `total` units: it compares what is left of `total` in 32 bits. */
  function RoomFor(total: nat, capacity: Count32, max: Count32): (r: Outcome)
    ensures r == Done <==> total <= capacity || (total <= max && total <= LONGEST_REQUEST)
    ensures r == Refused <==> Wrap32(total) > capacity && Wrap32(total) > max
    ensures total < 0x8000_0000 ==> (r == Refused <==> total > capacity && total > max)
    ensures r != Ends(AssertFails)
  {
    if Wrap32(total) > capacity && Wrap32(total) > max then Refused
    else if total != Wrap32(total) then Ends(Overrun)
    else if total > capacity && NewCapacity(total, capacity) < 0 then Ends(Overrun)
    else Done
  }

  /** The capacity once there is room. */
  function CapacityFor(total: Count32, capacity: Count32, max: Count32): (r: Count32)
    requires RoomFor(total, capacity, max) == Done
    ensures total <= r && (total <= capacity ==> r == capacity)
    ensures total > capacity ==> r == Grown(total, capacity, max)
  {
    if total <= capacity then capacity else Grown(total, capacity, max)
  }

  /** The length after an insertion, as the code computes it, is exact precisely below 2^31. */
  lemma InsertedLengthIsExact(length: Count32, n: Count32, count: Count32)
    ensures Wrap32(length + Wrap32(n * count)) == length + n * count <==> length + n * count < 0x8000_0000
  {
    ProductIsCount(n, count);
    SumIsExact(length, n * count);
  }

  lemma ProductIsCount(n: nat, count: nat)
    ensures n * count >= 0
  {
  }

  lemma SumIsExact(length: nat, product: nat)
    ensures Wrap32(length + Wrap32(product)) == length + product <==> length + product < 0x8000_0000
  {
    WrapSum(length, product);
    WrapIsExact(length + product);
  }

  // ----- What the edits do to the contents

  function MappedRange(s: seq<Int16>, oldUnit: Int16, newUnit: Int16, start: int, count: int): (r: seq<Int16>)
    ensures |r| == |s|
    ensures forall k :: 0 <= k < |s| ==>
      r[k] == if start <= k < start + count && s[k] == oldUnit then newUnit else s[k]
  {
    seq(|s|, k requires 0 <= k < |s| => if start <= k < start + count && s[k] == oldUnit then newUnit else s[k])
  }

  function InsertedAt(s: seq<Int16>, index: nat, piece: seq<Int16>): (r: seq<Int16>)
    requires index <= |s|
    ensures |r| == |s| + |piece|
    ensures r[..index] == s[..index] && r[index..index + |piece|] == piece && r[index + |piece|..] == s[index..]
  {
    s[..index] + piece + s[index..]
  }

  function Repeated(piece: seq<Int16>, count: nat): (r: seq<Int16>) {
    if count == 0 then [] else Repeated(piece, count - 1) + piece
  }

  lemma {:induction false} RepeatedGrows(piece: seq<Int16>, few: nat, many: nat)
    requires few <= many
    ensures |Repeated(piece, few)| <= |Repeated(piece, many)|
  {
    if few < many {
      RepeatedGrows(piece, few, many - 1);
    }
  }

  lemma {:induction false} RepeatedLength(piece: seq<Int16>, count: nat)
    ensures |Repeated(piece, count)| == |piece| * count
  {
    if count > 0 {
      RepeatedLength(piece, count - 1);
    }
  }

  /** The copies, one after the other. */
  lemma {:induction false} RepeatedIsCopies(piece: seq<Int16>, count: nat, j: nat)
    requires j < count
    ensures |piece| * j <= |piece| * (j + 1) <= |Repeated(piece, count)| == |piece| * count
    ensures Repeated(piece, count)[|piece| * j..|piece| * (j + 1)] == piece
  {
    RepeatedLength(piece, count);
    TimesGrow(|piece|, j, count);
    if j < count - 1 {
      RepeatedIsCopies(piece, count - 1, j);
      SliceOfPrefix(Repeated(piece, count - 1), piece, |piece| * j, |piece| * (j + 1));
    } else {
      RepeatedLength(piece, j);
    }
  }

  lemma TimesGrow(n: nat, j: nat, count: nat)
    requires j < count
    ensures n * j <= n * j + n == n * (j + 1) <= n * count
  {
    if j + 1 < count {
      TimesGrow(n, j, count - 1);
    }
  }

  lemma SliceOfPrefix(a: seq<Int16>, b: seq<Int16>, lo: nat, hi: nat)
    requires lo <= hi <= |a|
    ensures (a + b)[lo..hi] == a[lo..hi]
  {
  }

  /** Over the whole range, replacing in a range is replacing everywhere, which is String.Replace. */
  lemma WholeRangeIsReplace(s: seq<Int16>, oldUnit: Int16, newUnit: Int16)
    ensures MappedRange(s, oldUnit, newUnit, 0, |s|) == Mapped(s, oldUnit, newUnit)
    ensures Mapped(s, oldUnit, newUnit) == Replace<Int16>(s, [oldUnit], [newUnit])
  {
    MappedIsReplace(s, oldUnit, newUnit);
  }

  /** `piece` inserted `count` times at the same place. */
  function InsertedTimes(s: seq<Int16>, index: nat, piece: seq<Int16>, count: nat): (r: seq<Int16>)
    requires index <= |s|
    ensures index <= |r|
  {
    if count == 0 then s else InsertedAt(InsertedTimes(s, index, piece, count - 1), index, piece)
  }

  lemma {:induction false} RepeatedFront(piece: seq<Int16>, count: nat)
    requires count > 0
    ensures Repeated(piece, count) == piece + Repeated(piece, count - 1)
  {
    if count > 1 {
      RepeatedFront(piece, count - 1);
      assert (piece + Repeated(piece, count - 2)) + piece == piece + (Repeated(piece, count - 2) + piece);
    }
  }

  /** Inserting a repeated string is inserting the string repeatedly. */
  lemma {:induction false} InsertRepeatedIsInsertTimes(s: seq<Int16>, index: nat, piece: seq<Int16>, count: nat)
    requires index <= |s|
    ensures InsertedAt(s, index, Repeated(piece, count)) == InsertedTimes(s, index, piece, count)
  {
    if count == 0 {
      assert InsertedAt(s, index, []) == s;
    } else {
      InsertRepeatedIsInsertTimes(s, index, piece, count - 1);
      RepeatedFront(piece, count);
      var before := InsertedAt(s, index, Repeated(piece, count - 1));
      assert before[..index] == s[..index] && before[index..] == Repeated(piece, count - 1) + s[index..];
      assert InsertedAt(before, index, piece) == s[..index] + (piece + Repeated(piece, count - 1)) + s[index..];
    }
  }

  // ----- Builders and edits

  datatype Builder = Builder(contents: seq<Int16>, capacity: int) {
    predicate Valid() {
      |contents| <= capacity <= MAX_CAPACITY && capacity % 8 == 0
    }
  }

  /** The edits; `T` is what stands for the text of an appended or inserted string. */
  datatype Edit<T> =
    | ReplaceUnits(oldUnit: Int16, newUnit: Int16)
    | ReplaceRange(oldUnit: Int16, newUnit: Int16, startIndex: Int32, count: Int32)
    | Reserve(capacity: Int32)
    | AppendText(value: T)
    | InsertText(index: Int32, value: T)
    | InsertTextTimes(index: Int32, value: T, times: Int32)
    | Share

  type TextEdit = Edit<seq<Int16>>

  /** Inserting nothing succeeds at any index, even outside the string. */
  function DecideInsert(b: Builder, index: int, piece: seq<Int16>, max: Count32): (r: Outcome)
    requires b.Valid()
  {
    if piece == [] then Done
    else if !(0 <= index <= |b.contents|) then Refused
    else RoomFor(|b.contents| + |piece|, b.capacity, max)
  }

  /** What becomes of opening a gap of `length` units, or, if that is negative, of taking units away. */
  function GapOutcome(b: Builder, index: int, length: Int32, max: Count32): (r: Outcome)
    requires b.Valid()
  {
    if !(0 <= index <= |b.contents|) then Refused
    else if index + length < 0 then Ends(Overrun)
    else RoomFor(|b.contents| + length, b.capacity, max)
  }

  /** EnsureCapacity asserts that there may be contents at all and that the capacity is in bounds. */
  function DecideReserve(b: Builder, capacity: Int32, max: Count32): (r: Outcome)
    requires b.Valid()
  {
    if max == 0 || b.capacity > max then Ends(AssertFails)
    else if !(0 <= capacity <= max) then Refused
    else if capacity < b.capacity || capacity <= LONGEST_REQUEST then Done
    else Ends(Overrun)
  }

  /** Reserving what the greatest maximum allows: the rounded request wraps around. */
  lemma LongRequestOverruns(b: Builder)
    requires b.Valid()
    ensures NewCapacity(0x7FFF_FFFF, b.capacity) == -0x8000_0000
    ensures DecideReserve(b, 0x7FFF_FFFF, 0x7FFF_FFFF) == Ends(Overrun)
  {
  }

  /** What becomes of an edit of a builder that may hold `max` units. */
  function Decide(b: Builder, edit: TextEdit, max: Count32): (r: Outcome)
    requires b.Valid()
  {
    match edit
    case ReplaceUnits(_, _) => Done
    case ReplaceRange(_, _, startIndex, count) =>
      if 0 <= startIndex <= |b.contents| && count <= |b.contents| - startIndex then Done else Refused
    case Reserve(capacity) => DecideReserve(b, capacity, max)
    case AppendText(piece) => DecideInsert(b, |b.contents|, piece, max)
    case InsertText(index, piece) => DecideInsert(b, index, piece, max)
    case InsertTextTimes(index, piece, times) =>
      if times < 0 then Refused else DecideInsert(b, index, Repeated(piece, times), max)
    case Share => Done
  }

  /** Inserting two units 2^30 times into an empty builder: the product wraps around, so that there seems to
      be room without growing. */
  lemma RepeatedInsertionOverruns(capacity: Count32, piece: seq<Int16>)
    requires capacity <= MAX_CAPACITY && capacity % 8 == 0 && |piece| == 2
    ensures Wrap32(|piece| * 0x4000_0000) == -0x8000_0000
    ensures Decide(Builder([], capacity), InsertTextTimes(0, piece, 0x4000_0000), 0x7FFF_FFFF) == Ends(Overrun)
  {
    RepeatedLength(piece, 0x4000_0000);
  }

  function Inserted(b: Builder, index: int, piece: seq<Int16>, max: Count32): (r: Builder)
    requires b.Valid() && DecideInsert(b, index, piece, max) == Done
    ensures r.Valid()
  {
    if piece == [] then b
    else Builder(InsertedAt(b.contents, index, piece),
                 CapacityFor(|b.contents| + |piece|, b.capacity, max))
  }

  /** The builder after an edit; one that is not done changes nothing. */
  function Next(b: Builder, edit: TextEdit, max: Count32): (r: Builder)
    requires b.Valid()
    ensures r.Valid()
  {
    if Decide(b, edit, max) != Done then b
    else
      match edit
      case ReplaceUnits(oldUnit, newUnit) => b.(contents := Mapped(b.contents, oldUnit, newUnit))
      case ReplaceRange(oldUnit, newUnit, startIndex, count) =>
        b.(contents := MappedRange(b.contents, oldUnit, newUnit, startIndex, count))
      case Reserve(capacity) =>
        if capacity < b.capacity then b else b.(capacity := Grown(capacity, b.capacity, max))
      case AppendText(piece) => Inserted(b, |b.contents|, piece, max)
      case InsertText(index, piece) => Inserted(b, index, piece, max)
      case InsertTextTimes(index, piece, times) => Inserted(b, index, Repeated(piece, times), max)
      case Share => b
  }

  // ----- The edits in plain terms

  lemma ReplaceInPlainTerms(b: Builder, oldUnit: Int16, newUnit: Int16, startIndex: Int32, count: Int32, max: Count32)
    requires b.Valid()
    ensures Decide(b, ReplaceUnits(oldUnit, newUnit), max) == Done
    ensures var r := Next(b, ReplaceUnits(oldUnit, newUnit), max);
      && r.capacity == b.capacity && |r.contents| == |b.contents|
      && forall k :: 0 <= k < |b.contents| ==>
           r.contents[k] == if b.contents[k] == oldUnit then newUnit else b.contents[k]
    ensures Decide(b, ReplaceRange(oldUnit, newUnit, startIndex, count), max) ==
      if 0 <= startIndex && startIndex <= |b.contents| && startIndex + count <= |b.contents| then Done else Refused
    ensures var r := Next(b, ReplaceRange(oldUnit, newUnit, startIndex, count), max);
      && r.capacity == b.capacity && |r.contents| == |b.contents|
      && (Decide(b, ReplaceRange(oldUnit, newUnit, startIndex, count), max) == Refused ==> r == b)
      && (Decide(b, ReplaceRange(oldUnit, newUnit, startIndex, count), max) == Done ==>
            forall k :: 0 <= k < |b.contents| ==>
              r.contents[k] == if startIndex <= k < startIndex + count && b.contents[k] == oldUnit then newUnit
                               else b.contents[k])
  {
  }

  lemma ReserveInPlainTerms(b: Builder, capacity: Int32, max: Count32)
    requires b.Valid()
    ensures var outcome, r := Decide(b, Reserve(capacity), max), Next(b, Reserve(capacity), max);
      && (outcome == Ends(AssertFails) <==> max == 0 || b.capacity > max)
      && (outcome == Refused <==> 0 < max && b.capacity <= max && (capacity < 0 || capacity > max))
      && (outcome == Ends(Overrun) <==> b.capacity <= capacity <= max && capacity > 0x7FFF_FC00)
      && r.contents == b.contents
      && (outcome != Done || capacity < b.capacity ==> r.capacity == b.capacity)
      && (outcome == Done && capacity >= b.capacity ==>
            r.capacity == RoundUp8(AtMost(NewCapacity(capacity, b.capacity), max)))
  {
  }

  lemma InsertionInPlainTerms(b: Builder, index: int, piece: seq<Int16>, max: Count32)
    requires b.Valid()
    ensures DecideInsert(b, index, piece, max) == Done ==>
      IsInserted(b, Inserted(b, index, piece, max), index, piece, max, Done)
    ensures DecideInsert(b, index, piece, max) != Done ==>
      IsInserted(b, b, index, piece, max, DecideInsert(b, index, piece, max))
  {
  }

  /** Inserting: what happens, and where the piece is afterwards.  An empty piece may be inserted anywhere. */
  lemma InsertInPlainTerms(b: Builder, index: Int32, piece: seq<Int16>, max: Count32)
    requires b.Valid()
    ensures var outcome, r := Decide(b, InsertText(index, piece), max), Next(b, InsertText(index, piece), max);
      && IsInserted(b, r, index, piece, max, outcome)
  {
    InsertionInPlainTerms(b, index, piece, max);
  }

  lemma AppendInPlainTerms(b: Builder, piece: seq<Int16>, max: Count32)
    requires b.Valid()
    ensures var outcome, r := Decide(b, AppendText(piece), max), Next(b, AppendText(piece), max);
      && IsInserted(b, r, |b.contents|, piece, max, outcome)
      && (outcome == Done ==> r.contents == b.contents + piece)
  {
    InsertionInPlainTerms(b, |b.contents|, piece, max);
    assert b.contents + [] == b.contents;
    assert InsertedAt(b.contents, |b.contents|, piece) == b.contents + piece;
  }

  lemma InsertTimesInPlainTerms(b: Builder, index: Int32, piece: seq<Int16>, times: Int32, max: Count32)
    requires b.Valid()
    ensures var edit := InsertTextTimes(index, piece, times);
      if times < 0 then Decide(b, edit, max) == Refused && Next(b, edit, max) == b
      else IsInserted(b, Next(b, edit, max), index, Repeated(piece, times), max, Decide(b, edit, max))
  {
    if times >= 0 {
      InsertionInPlainTerms(b, index, Repeated(piece, times), max);
    }
  }

  /** `r` is `b` with the piece at the index, if the outcome is Done, and otherwise unchanged. */
  ghost predicate IsInserted(b: Builder, r: Builder, index: int, piece: seq<Int16>, max: Count32, outcome: Outcome)
    requires b.Valid()
  {
    var total := |b.contents| + |piece|;
    && (outcome == Done <==>
          || piece == []
          || (0 <= index <= |b.contents| && (total <= b.capacity || (total <= max && total <= 0x7FFF_FC00))))
    && (outcome == Refused <==>
          && piece != []
          && (index < 0 || index > |b.contents| || (Wrap32(total) > b.capacity && Wrap32(total) > max)))
    && outcome != Ends(AssertFails)
    && (outcome != Done || piece == [] ==> r == b)
    && (outcome == Done && piece != [] ==>
          && r.contents == b.contents[..index] + piece + b.contents[index..]
          && r.capacity == if total <= b.capacity then b.capacity
                           else RoundUp8(AtMost(NewCapacity(total, b.capacity), max)))
  }

  // ----- Runs

  /** The builder after the first `n` edits. */
  function StateAfter(b: Builder, edits: seq<TextEdit>, max: Count32, n: nat): (r: Builder)
    requires b.Valid() && n <= |edits|
    ensures r.Valid()
  {
    if n == 0 then b else Next(StateAfter(b, edits, max, n - 1), edits[n - 1], max)
  }

  function OutcomeAt(b: Builder, edits: seq<TextEdit>, max: Count32, k: nat): (r: Outcome)
    requires b.Valid() && k < |edits|
  {
    Decide(StateAfter(b, edits, max, k), edits[k], max)
  }

  /** None of the first `n` edits ends the builder's life. */
  ghost predicate Survives(b: Builder, edits: seq<TextEdit>, max: Count32, n: nat)
    requires b.Valid() && n <= |edits|
  {
    forall k {:trigger OutcomeAt(b, edits, max, k)} :: 0 <= k < n ==> !OutcomeAt(b, edits, max, k).Ends?
  }

  /** How many of the first `n` edits hand the string out. */
  function Shares<T>(edits: seq<Edit<T>>, n: nat): (r: nat)
    requires n <= |edits|
  {
    if n == 0 then 0 else Shares(edits, n - 1) + if edits[n - 1].Share? then 1 else 0
  }

  /** What was in the builder each time its string was handed out, among the first `n` edits. */
  function Snapshots(b: Builder, edits: seq<TextEdit>, max: Count32, n: nat): (r: seq<seq<Int16>>)
    requires b.Valid() && n <= |edits|
    ensures |r| == Shares(edits, n)
  {
    if n == 0 then []
    else if edits[n - 1].Share? then Snapshots(b, edits, max, n - 1) + [StateAfter(b, edits, max, n - 1).contents]
    else Snapshots(b, edits, max, n - 1)
  }

  /** A run, edit by edit. */
  lemma RunInPlainTerms(b: Builder, edits: seq<TextEdit>, max: Count32, n: nat)
    requires b.Valid() && n < |edits|
    ensures StateAfter(b, edits, max, 0) == b
    ensures OutcomeAt(b, edits, max, n) == Decide(StateAfter(b, edits, max, n), edits[n], max)
    ensures StateAfter(b, edits, max, n + 1) == Next(StateAfter(b, edits, max, n), edits[n], max)
    ensures Snapshots(b, edits, max, 0) == []
    ensures Snapshots(b, edits, max, n + 1) ==
      Snapshots(b, edits, max, n) + if edits[n].Share? then [StateAfter(b, edits, max, n).contents] else []
    ensures Decide(b, Share, max) == Done && Next(b, Share, max) == b
  {
  }

  /** One more edit does not change what the earlier ones came to. */
  lemma {:induction false} PrefixStays(b: Builder, edits: seq<TextEdit>, edit: TextEdit, max: Count32, n: nat)
    requires b.Valid() && n <= |edits|
    ensures StateAfter(b, edits + [edit], max, n) == StateAfter(b, edits, max, n)
    ensures Snapshots(b, edits + [edit], max, n) == Snapshots(b, edits, max, n)
  {
    if n > 0 {
      PrefixStays(b, edits, edit, max, n - 1);
      assert (edits + [edit])[n - 1] == edits[n - 1];
    }
  }

  // ----- The assertions of EnsureCapacity over whole runs

  /** No run of edits, whatever they are, comes to an edit whose assertion fails. */
  ghost predicate NeverAsserts(b: Builder, max: Count32)
    requires b.Valid()
  {
    forall edits: seq<TextEdit>, k: nat {:trigger OutcomeAt(b, edits, max, k)} ::
      k < |edits| && Survives(b, edits, max, k) ==> OutcomeAt(b, edits, max, k) != Ends(AssertFails)
  }

  /** The maximum is one that rounded storage cannot exceed, and the capacity does not exceed it. */
  ghost predicate InBounds(b: Builder, max: Count32) {
    0 < max && b.capacity <= max && (max % 8 == 0 || max > LONGEST_REQUEST)
  }

  /** The capacity stays within the maximum if storage that is rounded up cannot exceed it. */
  lemma EditRespectsMaximum(b: Builder, edit: TextEdit, max: Count32)
    requires b.Valid() && InBounds(b, max)
    ensures InBounds(Next(b, edit, max), max)
  {
    if Decide(b, edit, max) == Done {
      match edit
      case Reserve(capacity) =>
        if capacity >= b.capacity {
          GrownBelowLimit(capacity, b.capacity, max);
        }
      case AppendText(piece) => InsertionRespectsMaximum(b, |b.contents|, piece, max);
      case InsertText(index, piece) => InsertionRespectsMaximum(b, index, piece, max);
      case InsertTextTimes(index, piece, times) => InsertionRespectsMaximum(b, index, Repeated(piece, times), max);
      case _ =>
    }
  }

  lemma InsertionRespectsMaximum(b: Builder, index: int, piece: seq<Int16>, max: Count32)
    requires b.Valid() && InBounds(b, max)
    requires DecideInsert(b, index, piece, max) == Done
    ensures Inserted(b, index, piece, max).capacity <= max
  {
    var total := |b.contents| + |piece|;
    if piece != [] && total > b.capacity {
      GrownBelowLimit(total, b.capacity, max);
    }
  }

  lemma {:induction false} RunRespectsMaximum(b: Builder, edits: seq<TextEdit>, max: Count32, n: nat)
    requires b.Valid() && InBounds(b, max) && n <= |edits|
    ensures InBounds(StateAfter(b, edits, max, n), max)
  {
    if n > 0 {
      RunRespectsMaximum(b, edits, max, n - 1);
      EditRespectsMaximum(StateAfter(b, edits, max, n - 1), edits[n - 1], max);
    }
  }

  /** EnsureCapacity's assertions hold in every run exactly if they hold at the start and the maximum is a
      multiple of eight or too large to be reached.  Otherwise reserving the maximum, and then anything,
      makes one fail. */
  lemma AssertionsHold(b: Builder, max: Count32)
    requires b.Valid()
    ensures NeverAsserts(b, max) <==> InBounds(b, max)
  {
    if 0 < max && b.capacity <= max {
      if InBounds(b, max) {
        forall edits: seq<TextEdit>, k: nat | k < |edits|
          ensures OutcomeAt(b, edits, max, k) != Ends(AssertFails)
        {
          RunRespectsMaximum(b, edits, max, k);
        }
      } else {
        ReservingBreaks(b, max);
      }
    } else {
      var edits: seq<TextEdit> := [Reserve(0)];
      assert Survives(b, edits, max, 0) && OutcomeAt(b, edits, max, 0) == Ends(AssertFails);
    }
  }

  lemma ReservingBreaks(b: Builder, max: Count32)
    requires b.Valid() && 0 < max && b.capacity <= max <= LONGEST_REQUEST && max % 8 != 0
    ensures !NeverAsserts(b, max)
  {
    var edits: seq<TextEdit> := [Reserve(max), Reserve(0)];
    assert StateAfter(b, edits, max, 0) == b;
    assert OutcomeAt(b, edits, max, 0) == Done;
    assert StateAfter(b, edits, max, 1) == Next(b, edits[0], max);
    assert StateAfter(b, edits, max, 1).capacity == RoundUp8(max) > max;
    assert Survives(b, edits, max, 1) && OutcomeAt(b, edits, max, 1) == Ends(AssertFails);
  }

  /** A builder of capacity 8 that may hold 9 units gets 16 when a ninth is appended; reserving fails then. */
  lemma NinthUnitBreaks(s: seq<Int16>, x: Int16)
    requires |s| == 8
    ensures var edits: seq<TextEdit> := [AppendText([x]), Reserve(5)];
      && Survives(Builder(s, 8), edits, 9, 1)
      && StateAfter(Builder(s, 8), edits, 9, 1) == Builder(s + [x], 16)
      && OutcomeAt(Builder(s, 8), edits, 9, 1) == Ends(AssertFails)
  {
    var b, edits: seq<TextEdit> := Builder(s, 8), [AppendText([x]), Reserve(5)];
    assert StateAfter(b, edits, 9, 0) == b;
    assert OutcomeAt(b, edits, 9, 0) == Done;
    assert Doubled(8, 9) == 16;
    assert Grown(9, 8, 9) == 16;
    assert InsertedAt(s, 8, [x]) == s + [x];
  }
}
