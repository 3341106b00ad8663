/** String objects of the runtime and the part of the string manager that makes new ones. */
module Strings {
  import opened MachineIntegers

  /** What a runtime call gives back: a value, or the exception it raises.  A call that is broken does
      not come back in a state of which anything is known. */
  datatype Result<+T> = Value(value: T) | Raised(exception: Exception) | Broken(fault: Fault)

  /** An assertion in the code fails; or a size has wrapped around and the code reaches outside its storage. */
  datatype Fault = AssertFails | Overrun

  datatype Exception =
    | NullReference
    | ArgumentNull
    | ArgumentOutOfRange
    | IndexOutOfRange

  /** The greatest multiple of eight in a JITINT32: no storage is larger. */
  const MAX_CAPACITY: Count32 := 0x7FFF_FFF8

  /** A System.String: its units in the storage behind the header, of which the first `length` count
      and the first `capacity` may be used. */
  class StringObject {
    const units: array<Int16>
    var length: nat
    var capacity: nat

    ghost predicate Valid()
      reads this
    {
      length <= capacity <= units.Length && capacity <= MAX_CAPACITY
    }

    function Contents(): (s: seq<Int16>)
      requires Valid()
      reads this, units
    {
      units[..length]
    }

    constructor (storage: nat)
      requires storage <= MAX_CAPACITY
      ensures Valid() && fresh(units)
      ensures units.Length == storage && capacity == storage && length == 0
    {
      units := new Int16[storage](_ => 0);
      capacity := storage;
      length := 0;
    }
  }

  /** Lengths are rounded to a multiple of eight units. */
  function RoundUp8(n: int): (r: int)
    ensures n <= r < n + 8 && r % 8 == 0
  {
    (n + 7) / 8 * 8
  }

  /** The same in 32 bits, where the sum may wrap around. */
  function Rounded(n: Int32): (r: Int32)
    ensures n <= MAX_CAPACITY ==> r == RoundUp8(n)
    ensures n > MAX_CAPACITY ==> r == -0x8000_0000
    ensures 0 <= n <= MAX_CAPACITY ==> n <= r <= MAX_CAPACITY
  {
    Wrap32(n + 7) / 8 * 8
  }

  /** memcpy of `n` units. */
  method CopyUnits(dst: array<Int16>, to: nat, src: array<Int16>, from: nat, n: nat)
    requires to + n <= dst.Length && from + n <= src.Length && dst != src
    modifies dst
    ensures forall k :: to <= k < to + n ==> dst[k] == src[from + k - to]
    ensures forall k :: 0 <= k < to || to + n <= k < dst.Length ==> dst[k] == old(dst[k])
  {
    forall k | 0 <= k < n {
      dst[to + k] := src[from + k];
    }
  }

  /** A string of the first `length` units of `literal`; its capacity is its length.  Without a result
      where the rounded length is negative and there is nothing the code could have allocated. */
  method NewInstance(literal: array<Int16>, length: Count32) returns (s: StringObject?)
    requires length <= literal.Length
    ensures s == null <==> length > MAX_CAPACITY
    ensures s != null ==> fresh(s) && fresh(s.units) && s.Valid()
    ensures s != null ==> s.Contents() == literal[..length] && s.capacity == length
  {
    var roundLen := Rounded(length);
    if roundLen < 0 {
      return null;
    }
    s := new StringObject(roundLen);
    CopyUnits(s.units, 0, literal, 0, length);
    s.length := length;
    s.capacity := length;
  }

  /** The contents of a possibly missing string. */
  function ContentsOrEmpty(s: StringObject?): (contents: seq<Int16>)
    requires s != null ==> s.Valid()
    reads s, if s == null then {} else {s.units}
    ensures s == null ==> contents == []
    ensures s != null ==> |contents| == s.length && forall k :: 0 <= k < s.length ==> contents[k] == s.units[k]
  {
    if s == null then [] else s.Contents()
  }

  /** The capacity NewBuilder is asked for: -1 stands for the string's own length. */
  function Requested(length: Int32, own: Count32): (requested: Int32) {
    if length == -1 then own else length
  }

  /** What is left of `s` in storage of `capacity` units. */
  function Cut(s: seq<Int16>, capacity: nat): (r: seq<Int16>)
    ensures |s| <= capacity ==> r == s
    ensures r <= s && |r| <= capacity && (|r| == |s| || |r| == capacity)
  {
    if |s| <= capacity then s else s[..capacity]
  }

  /** The rounded capacity: the least multiple of eight that suffices, or a negative number.  That is for requests that
      wrap around and for negative ones other than -1 down to -7. */
  lemma CapacityInPlainTerms(length: Int32, own: Count32)
    requires own <= MAX_CAPACITY
    ensures var r := Rounded(Requested(length, own));
      && r % 8 == 0
      && (length >= 0 && r >= 0 ==> length <= r < length + 8)
      && (length == -1 ==> own <= r < own + 8)
      && (-8 < length < -1 ==> r == 0)
      && (r < 0 <==> length > 0x7FFF_FFF8 || length <= -8)
  {
  }

  /** A copy of `value` with room for `length` units, rounded up; units beyond the room are dropped. */
  method NewBuilder(value: StringObject?, length: Int32) returns (s: StringObject?)
    requires value != null ==> value.Valid()
    ensures s == null <==> Rounded(Requested(length, |ContentsOrEmpty(value)|)) < 0
    ensures s != null ==> fresh(s) && fresh(s.units) && s.Valid()
    ensures s != null ==> s.capacity == Rounded(Requested(length, |ContentsOrEmpty(value)|))
    ensures s != null ==> s.Contents() == Cut(ContentsOrEmpty(value), s.capacity)
  {
    var roundLen: int := length;
    if length == -1 {
      roundLen := if value == null then 0 else value.length;
    }
    roundLen := Rounded(roundLen);
    if roundLen < 0 {
      return null;
    }
    s := new StringObject(roundLen);
    if value != null {
      if value.length <= roundLen {
        CopyUnits(s.units, 0, value.units, 0, value.length);
        s.length := value.length;
      } else {
        CopyUnits(s.units, 0, value.units, 0, roundLen);
        s.length := roundLen;
      }
    }
  }
}
