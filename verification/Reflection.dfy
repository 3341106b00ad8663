/** Looking up the fields of a class by name: the comparison of names and the two lookups built on it. */
module Reflection {
  import opened MachineIntegers
  import opened Strings
  import opened StringCompare
  import opened StringSplit

  // ----- Comparing names

  function ToLower(ch: Int8): (r: Int8) {
    if 'A' as int <= ch <= 'Z' as int then ch - 'A' as int + 'a' as int else ch
  }

  /** Two bytes fold together exactly if they are equal or one letter in two cases. */
  lemma FoldingInPlainTerms(c: Int8, d: Int8)
    ensures ToLower(c) == ToLower(d) <==>
      c == d || (65 <= c <= 90 && d == c + 32) || (65 <= d <= 90 && c == d + 32)
    ensures ToLower(c) == if 65 <= c <= 90 then c + 32 else c
  {
  }

  /** A name is a zero-terminated string; this is what precedes the zero. */
  function Name(buf: seq<Int8>): (r: seq<Int16>) {
    UpToZero(buf)
  }

  function Lowered(name: seq<Int16>): (r: seq<Int16>)
    ensures |r| == |name|
    ensures forall k :: 0 <= k < |name| ==> r[k] == if -0x80 <= name[k] < 0x80 then ToLower(name[k]) else name[k]
  {
    seq(|name|, k requires 0 <= k < |name| => if -0x80 <= name[k] < 0x80 then ToLower(name[k]) as Int16 else name[k])
  }

  function UnsignedByte(x: int): (r: Int16) {
    x % 0x100
  }

  /** Bytes as strcmp sees them. */
  function AsUnsigned(name: seq<Int16>): (r: seq<Int16>)
    ensures |r| == |name| && forall k :: 0 <= k < |name| ==> r[k] == UnsignedByte(name[k])
  {
    seq(|name|, k requires 0 <= k < |name| => UnsignedByte(name[k]))
  }

  /** What names are compared by. */
  function Key(buf: seq<Int8>, ignoreCase: bool): (r: Slice) {
    Units(if ignoreCase then Lowered(Name(buf)) else AsUnsigned(Name(buf)))
  }

  lemma NameEnds(buf: seq<Int8>) returns (end: nat)
    requires 0 in buf
    ensures EndsAt(buf, 0, end) && Name(buf) == buf[..end]
  {
    end := 0;
    while buf[end] != 0
      invariant 0 <= end < |buf| && 0 in buf[end..] && forall k :: 0 <= k < end ==> buf[k] != 0
      decreases |buf| - end
    {
      assert buf[end..] == [buf[end]] + buf[end + 1..];
      end := end + 1;
    }
    UpToZeroEnds(buf, end);
  }

  /** The comparison of two strings up to their ends, given what was found where they first differ. */
  lemma DecidedAt(result: int, a: seq<Int16>, b: seq<Int16>, n: nat)
    requires n <= |a| && n <= |b| && forall k :: 0 <= k < n ==> a[k] == b[k]
    requires result < 0 ==> n < |b| && (n == |a| || a[n] < b[n])
    requires result > 0 ==> n < |a| && (n == |b| || b[n] < a[n])
    requires result == 0 ==> n == |a| == |b|
    ensures Decides(result, Units(a), Units(b))
  {
    assert a[..n] == b[..n];
    if result < 0 {
      assert DiffersFirstAt(a, b, n);
    } else if result > 0 {
      assert DiffersFirstAt(b, a, n);
    } else {
      assert a == b;
    }
    DecidedByOrder(result, Units(a), Units(b));
  }

  /** strcmp. */
  method StrCmp(name1: seq<Int8>, name2: seq<Int8>) returns (result: int)
    requires 0 in name1 && 0 in name2
    ensures Decides(result, Key(name1, false), Key(name2, false))
  {
    ghost var end1 := NameEnds(name1);
    ghost var end2 := NameEnds(name2);
    ghost var a, b := AsUnsigned(Name(name1)), AsUnsigned(Name(name2));
    var n := 0;
    while name1[n] != 0 && name1[n] == name2[n]
      invariant n <= end1 && n <= end2 && forall k :: 0 <= k < n ==> name1[k] == name2[k]
      decreases end1 - n
    {
      n := n + 1;
    }
    var byte1: int := UnsignedByte(name1[n]);
    var byte2: int := UnsignedByte(name2[n]);
    result := byte1 - byte2;
    assert forall k :: 0 <= k < n ==> a[k] == b[k];
    DecidedAt(result, a, b, n);
  }

  method ReflectionStringCmp(name1: seq<Int8>, name2: seq<Int8>, ignoreCase: bool) returns (result: int)
    requires 0 in name1 && 0 in name2
    ensures Decides(result, Key(name1, ignoreCase), Key(name2, ignoreCase))
  {
    if !ignoreCase {
      result := StrCmp(name1, name2);
      return;
    }
    ghost var end1 := NameEnds(name1);
    ghost var end2 := NameEnds(name2);
    ghost var a, b := Lowered(Name(name1)), Lowered(Name(name2));
    var p1, p2 := 0, 0;
    while name1[p1] != 0 && name2[p2] != 0
      invariant p1 == p2 && p1 <= end1 && p2 <= end2
      invariant forall k :: 0 <= k < p1 ==> a[k] == b[k]
      decreases end1 - p1
    {
      var ch1: int := name1[p1];
      p1 := p1 + 1;
      if 'A' as int <= ch1 <= 'Z' as int {
        ch1 := ch1 - 'A' as int + 'a' as int;
      }
      var ch2: int := name2[p2];
      p2 := p2 + 1;
      if 'A' as int <= ch2 <= 'Z' as int {
        ch2 := ch2 - 'A' as int + 'a' as int;
      }
      assert a[p1 - 1] == ch1 && b[p1 - 1] == ch2;
      if ch1 < ch2 {
        DecidedAt(-1, a, b, p1 - 1);
        return -1;
      } else if ch1 > ch2 {
        DecidedAt(1, a, b, p1 - 1);
        return 1;
      }
    }
    if name1[p1] != 0 {
      result := 1;
    } else if name2[p2] != 0 {
      result := -1;
    } else {
      result := 0;
    }
    DecidedAt(result, a, b, p1);
  }

  /** Comparing with case ignored finds exactly the names that agree after folding, without exactly the equal ones. */
  predicate SameName(buf1: seq<Int8>, buf2: seq<Int8>, ignoreCase: bool) {
    if ignoreCase then Lowered(Name(buf1)) == Lowered(Name(buf2)) else Name(buf1) == Name(buf2)
  }

  lemma {:induction false} NamesAreBytes(buf: seq<Int8>, k: nat)
    requires k < |Name(buf)|
    ensures -0x80 <= Name(buf)[k] < 0x80
  {
    if k > 0 {
      NamesAreBytes(buf[1..], k - 1);
    }
  }

  /** When names are taken for the same; the names end at `end1` and `end2`. */
  lemma SameNameInPlainTerms(buf1: seq<Int8>, buf2: seq<Int8>, ignoreCase: bool, end1: nat, end2: nat)
    requires EndsAt(buf1, 0, end1) && EndsAt(buf2, 0, end2)
    ensures SameName(buf1, buf2, ignoreCase) <==>
      end1 == end2 && forall k :: 0 <= k < end1 ==>
        || buf1[k] == buf2[k]
        || (ignoreCase && 65 <= buf1[k] <= 90 && buf2[k] == buf1[k] + 32)
        || (ignoreCase && 65 <= buf2[k] <= 90 && buf1[k] == buf2[k] + 32)
  {
    UpToZeroEnds(buf1, end1);
    UpToZeroEnds(buf2, end2);
    var a, b := Name(buf1), Name(buf2);
    assert a == buf1[..end1] && b == buf2[..end2];
    if end1 == end2 {
      forall k | 0 <= k < end1
        ensures a[k] == buf1[k] && b[k] == buf2[k]
        ensures Lowered(a)[k] == ToLower(buf1[k]) && Lowered(b)[k] == ToLower(buf2[k])
      {
      }
      assert Lowered(a) == Lowered(b) <==> forall k :: 0 <= k < end1 ==> Lowered(a)[k] == Lowered(b)[k];
    } else {
      assert |Lowered(a)| != |Lowered(b)|;
    }
  }

  /** What names are compared by: signed bytes after folding, or unsigned bytes. */
  lemma KeyInPlainTerms(buf: seq<Int8>, end: nat, k: nat)
    requires EndsAt(buf, 0, end) && k < end
    ensures Key(buf, true).Units? && |Key(buf, true).units| == end
    ensures Key(buf, true).units[k] == if 65 <= buf[k] <= 90 then buf[k] + 32 else buf[k]
    ensures Key(buf, false).Units? && |Key(buf, false).units| == end
    ensures var x: int := buf[k]; Key(buf, false).units[k] == if x < 0 then x + 0x100 else x
  {
    UpToZeroEnds(buf, end);
    NameAt(Name(buf), k);
    assert Name(buf)[k] == buf[k];
  }

  lemma NameAt(name: seq<Int16>, k: nat)
    requires k < |name| && -0x80 <= name[k] < 0x80
    ensures Lowered(name)[k] == if 65 <= name[k] <= 90 then name[k] + 32 else name[k]
    ensures var x: int := name[k]; AsUnsigned(name)[k] == if x < 0 then x + 0x100 else x
  {
  }

  lemma SameNameIsSameKey(buf1: seq<Int8>, buf2: seq<Int8>, ignoreCase: bool)
    ensures SameName(buf1, buf2, ignoreCase) <==> Key(buf1, ignoreCase) == Key(buf2, ignoreCase)
  {
    var a, b := Name(buf1), Name(buf2);
    if AsUnsigned(a) == AsUnsigned(b) {
      forall k | 0 <= k < |a|
        ensures a[k] == b[k]
      {
        NamesAreBytes(buf1, k);
        NamesAreBytes(buf2, k);
        assert AsUnsigned(a)[k] == AsUnsigned(b)[k];
      }
      assert a == b;
    }
  }

  /** The names differ first where one has a byte above 127 and the other has not. */
  ghost predicate PartAtHighByte(a: seq<Int16>, b: seq<Int16>, n: nat) {
    n < |a| && n < |b| && a[..n] == b[..n] && (a[n] < 0) != (b[n] < 0)
  }

  lemma SharedPrefix(a: seq<Int16>, b: seq<Int16>, n: nat, k: nat)
    requires n <= |a| && n <= |b| && a[..n] == b[..n]
    ensures k < n ==> a[k] == b[k]
  {
    if k < n {
      assert a[..n][k] == b[..n][k];
    }
  }

  /** A high byte can only part the sequences where they differ first. */
  lemma PartsAtDifference(a: seq<Int16>, b: seq<Int16>, n: nat, m: nat)
    requires n <= |a| && n <= |b| && a[..n] == b[..n] && (n < |a| && n < |b| ==> a[n] != b[n])
    requires PartAtHighByte(a, b, m)
    ensures m == n
  {
    SharedPrefix(a, b, m, n);
    SharedPrefix(a, b, n, m);
  }

  lemma UnsignedPrefix(a: seq<Int16>, b: seq<Int16>, n: nat)
    requires n <= |a| && n <= |b| && a[..n] == b[..n]
    ensures AsUnsigned(a)[..n] == AsUnsigned(b)[..n]
  {
    forall k | 0 <= k < n
      ensures a[k] == b[k]
    {
      SharedPrefix(a, b, n, k);
    }
  }

  /** Signed and unsigned, two bytes are ordered alike exactly if both or neither of them are above 127. */
  lemma SignMatters(x: Int8, y: Int8)
    requires x != y
    ensures UnsignedByte(x) != UnsignedByte(y)
    ensures (x < y <==> UnsignedByte(x) < UnsignedByte(y)) <==> (x < 0) == (y < 0)
  {
  }

  /** Signed and unsigned, names are ordered alike exactly if they do not differ first at a byte above 127. */
  lemma SignMattersAtHighBytes(a: seq<Int16>, b: seq<Int16>)
    requires forall k :: 0 <= k < |a| ==> -0x80 <= a[k] < 0x80
    requires forall k :: 0 <= k < |b| ==> -0x80 <= b[k] < 0x80
    ensures (Before(Units(a), Units(b)) <==> Before(Units(AsUnsigned(a)), Units(AsUnsigned(b))))
       <==> !exists n: nat :: PartAtHighByte(a, b, n)
  {
    var n := FirstDifference(a, b);
    UnsignedPrefix(a, b, n);
    if n < |a| && n < |b| {
      SignMatters(a[n], b[n]);
    }
    BeforeAtDifference(a, b, n);
    BeforeAtDifference(AsUnsigned(a), AsUnsigned(b), n);
    forall m: nat | PartAtHighByte(a, b, m)
      ensures m == n
    {
      PartsAtDifference(a, b, n, m);
    }
    if n < |a| && n < |b| && (a[n] < 0) != (b[n] < 0) {
      assert PartAtHighByte(a, b, n);
    }
  }

  lemma LoweredAreBytes(buf: seq<Int8>)
    ensures forall k :: 0 <= k < |Lowered(Name(buf))| ==> -0x80 <= Lowered(Name(buf))[k] < 0x80
  {
    forall k | 0 <= k < |Name(buf)|
      ensures -0x80 <= Name(buf)[k] < 0x80
    {
      NamesAreBytes(buf, k);
    }
  }

  /** Ignoring case orders two names as strcmp orders them after folding, exactly if the folded names do not
      differ first at a byte above 127.  For names that need no folding, these are the two modes. */
  lemma ModesAgree(buf1: seq<Int8>, buf2: seq<Int8>)
    ensures var a, b := Lowered(Name(buf1)), Lowered(Name(buf2));
      (Before(Key(buf1, true), Key(buf2, true)) <==> Before(Units(AsUnsigned(a)), Units(AsUnsigned(b))))
      <==> !exists n: nat :: PartAtHighByte(a, b, n)
    ensures Lowered(Name(buf1)) == Name(buf1) && Lowered(Name(buf2)) == Name(buf2) ==>
      ((Before(Key(buf1, true), Key(buf2, true)) <==> Before(Key(buf1, false), Key(buf2, false)))
       <==> !exists n: nat :: PartAtHighByte(Name(buf1), Name(buf2), n))
  {
    LoweredAreBytes(buf1);
    LoweredAreBytes(buf2);
    SignMattersAtHighBytes(Lowered(Name(buf1)), Lowered(Name(buf2)));
  }

  /** The two modes do not order bytes above 127 alike: 0x80 comes after 'a' for strcmp and before it otherwise. */
  lemma ModesDisagreeOnHighBytes()
    ensures Before(Key([0x61, 0], false), Key([-0x80, 0], false))
    ensures Before(Key([-0x80, 0], true), Key([0x61, 0], true))
  {
    UpToZeroEnds([0x61, 0], 1);
    UpToZeroEnds([-0x80, 0], 1);
    assert Name([0x61, 0]) == [0x61] && Name([-0x80, 0]) == [-0x80];
    var a, b := AsUnsigned([0x61]), AsUnsigned([-0x80]);
    assert a[..0] == b[..0] && DiffersFirstAt(a, b, 0);
    var c, d := Lowered([-0x80]), Lowered([0x61]);
    assert c[..0] == d[..0] && DiffersFirstAt(c, d, 0);
  }

  // ----- Looking up fields

  datatype Field = Field(name: seq<Int8>, id: nat)

  /** A list of fields, item by item. */
  datatype XanList = End | Item(data: Field, next: XanList)

  function Fields(list: XanList): (r: seq<Field>) {
    match list
    case End => []
    case Item(field, next) => [field] + Fields(next)
  }

  /** The fields of a list, in the order of the list. */
  lemma {:induction false} FieldsInOrder(list: XanList, k: nat)
    requires k < |Fields(list)|
    ensures list.Item? && Fields(list)[k] == if k == 0 then list.data else Fields(list.next)[k - 1]
    ensures |Fields(list)| == |Fields(list.next)| + 1
  {
  }

  ghost predicate Named(list: XanList) {
    list.Item? ==> 0 in list.data.name && Named(list.next)
  }

  /** The matching fields, in the order of their declaration. */
  function Matching(list: XanList, name: seq<Int8>, ignoreCase: bool): (r: seq<Field>) {
    match list
    case End => []
    case Item(field, next) =>
      (if SameName(name, field.name, ignoreCase) then [field] else []) + Matching(next, name, ignoreCase)
  }

  /** `places` are the places of all the matching fields, in increasing order. */
  ghost predicate MatchingPlaces(fields: seq<Field>, name: seq<Int8>, ignoreCase: bool, places: seq<nat>) {
    && (forall k :: 0 <= k < |places| ==> places[k] < |fields|)
    && (forall k, l :: 0 <= k < l < |places| ==> places[k] < places[l])
    && (forall p: nat :: p < |fields| ==> (SameName(name, fields[p].name, ignoreCase) <==> p in places))
  }

  ghost predicate FoundAt(found: seq<Field>, fields: seq<Field>, places: seq<nat>) {
    |found| == |places| &&
    forall k :: 0 <= k < |places| ==> places[k] < |fields| && found[k] == fields[places[k]]
  }

  /** The fields found are the ones at the matching places: none is missed, none repeated, none moved. */
  lemma {:induction false} MatchingIsExact(list: XanList, name: seq<Int8>, ignoreCase: bool) returns (places: seq<nat>)
    ensures MatchingPlaces(Fields(list), name, ignoreCase, places)
    ensures FoundAt(Matching(list, name, ignoreCase), Fields(list), places)
  {
    match list
    case End =>
      places := [];
    case Item(field, next) =>
      var rest := MatchingIsExact(next, name, ignoreCase);
      var moved := Moved(rest);
      places := (if SameName(name, field.name, ignoreCase) then [0] else []) + moved;
      PlacesMove(field, Fields(next), name, ignoreCase, rest, moved, places);
      FoundMove(field, Fields(next), SameName(name, field.name, ignoreCase), Matching(next, name, ignoreCase), rest);
  }

  function Moved(places: seq<nat>): (r: seq<nat>)
    ensures |r| == |places| && forall k :: 0 <= k < |places| ==> r[k] == places[k] + 1
  {
    seq(|places|, k requires 0 <= k < |places| => places[k] + 1)
  }

  lemma FoundMove(field: Field, fields: seq<Field>, first: bool, found: seq<Field>, places: seq<nat>)
    requires FoundAt(found, fields, places)
    ensures FoundAt((if first then [field] else []) + found, [field] + fields,
                    (if first then [0] else []) + Moved(places))
  {
    var all := [field] + fields;
    assert forall k :: 0 <= k < |places| ==> all[Moved(places)[k]] == fields[places[k]];
  }

  lemma PlacesMove(field: Field, fields: seq<Field>, name: seq<Int8>, ignoreCase: bool,
                   rest: seq<nat>, moved: seq<nat>, places: seq<nat>)
    requires MatchingPlaces(fields, name, ignoreCase, rest)
    requires |moved| == |rest| && forall k :: 0 <= k < |rest| ==> moved[k] == rest[k] + 1
    requires places == (if SameName(name, field.name, ignoreCase) then [0] else []) + moved
    ensures MatchingPlaces([field] + fields, name, ignoreCase, places)
  {
    var all := [field] + fields;
    forall p: nat | p < |all|
      ensures SameName(name, all[p].name, ignoreCase) <==> p in places
    {
      if p > 0 {
        assert all[p] == fields[p - 1];
        if p - 1 in rest {
          var k :| 0 <= k < |rest| && rest[k] == p - 1;
          assert moved[k] == p;
        }
        if p in places {
          assert p in moved;
          var k :| 0 <= k < |moved| && moved[k] == p;
          assert rest[k] == p - 1;
        }
      } else {
        assert 0 !in moved;
      }
    }
  }

  const BF_IGNORE_CASE: bv32 := 0x01
  const BF_DEFAULT: bv32 := 0x1C  // public, instance and static

  /** Case is ignored if asked for, but never for names of 128 units or more. */
  predicate IgnoresCase(bindingAttrs: bv32, nameLength: nat) {
    var attrs := if bindingAttrs == 0 then BF_DEFAULT else bindingAttrs;
    nameLength < 128 && attrs & BF_IGNORE_CASE != 0
  }

  lemma IgnoresCaseInPlainTerms(bindingAttrs: bv32, nameLength: nat)
    ensures IgnoresCase(bindingAttrs, nameLength) <==> nameLength < 128 && bindingAttrs & 1 == 1
  {
  }

  /** A cell of the array that is returned: empty at first. */
  datatype Member = Nothing | MemberOf(field: Field)

  /** The test both passes make. */
  method IsNamed(field: Field, name: seq<Int8>, ignoreCase: bool) returns (yes: bool)
    requires 0 in name && 0 in field.name
    ensures yes <==> SameName(name, field.name, ignoreCase)
  {
    var cmp := ReflectionStringCmp(name, field.name, ignoreCase);
    SameNameIsSameKey(name, field.name, ignoreCase);
    return cmp == 0;
  }

  /** First pass: how many fields match. */
  method CountMatching(list: XanList, name: seq<Int8>, ignoreCase: bool) returns (arraySize: nat)
    requires 0 in name && Named(list)
    ensures arraySize == |Matching(list, name, ignoreCase)|
  {
    arraySize := 0;
    var item := list;
    while item.Item?
      invariant Named(item)
      invariant arraySize + |Matching(item, name, ignoreCase)| == |Matching(list, name, ignoreCase)|
      decreases item
    {
      var named := IsNamed(item.data, name, ignoreCase);
      if named {
        arraySize := arraySize + 1;
      }
      item := item.next;
    }
  }

  /** The array holds exactly these fields. */
  ghost predicate Holds(a: array<Member>, fields: seq<Field>)
    reads a
  {
    a.Length == |fields| && forall k :: 0 <= k < a.Length ==> a[k] == MemberOf(fields[k])
  }

  /** The first `position` fields are in the array, `rest` is still to come. */
  ghost predicate Progress(a: array<Member>, position: nat, all: seq<Field>, rest: seq<Field>)
    reads a
  {
    && position <= |all| == a.Length && all[position..] == rest
    && forall k :: 0 <= k < position ==> a[k] == MemberOf(all[k])
  }

  method StoreNext(a: array<Member>, position: nat, field: Field, ghost all: seq<Field>, ghost rest: seq<Field>)
      returns (next: nat)
    requires Progress(a, position, all, [field] + rest)
    modifies a
    ensures next == position + 1 && Progress(a, next, all, rest)
  {
    assert all[position] == all[position..][0] && all[position + 1..] == all[position..][1..];
    a[position] := MemberOf(field);
    next := position + 1;
  }

  /** Second pass: store them.  No store is out of bounds, and `position` ends at the size of the array. */
  method StoreMatching(list: XanList, name: seq<Int8>, ignoreCase: bool, a: array<Member>) returns (position: nat)
    requires 0 in name && Named(list) && a.Length == |Matching(list, name, ignoreCase)|
    modifies a
    ensures position == a.Length && Holds(a, Matching(list, name, ignoreCase))
  {
    position := 0;
    var item := list;
    ghost var all := Matching(list, name, ignoreCase);
    while item.Item?
      invariant Named(item) && Progress(a, position, all, Matching(item, name, ignoreCase))
      decreases item
    {
      var named := IsNamed(item.data, name, ignoreCase);
      if named {
        position := StoreNext(a, position, item.data, all, Matching(item.next, name, ignoreCase));
      }
      item := item.next;
    }
  }

  /** Without a name all fields are returned. */
  method StoreAll(list: XanList, a: array<Member>) returns (position: nat)
    requires a.Length == |Fields(list)|
    modifies a
    ensures position == a.Length && Holds(a, Fields(list))
  {
    position := 0;
    var item := list;
    ghost var all := Fields(list);
    while item.Item?
      invariant Progress(a, position, all, Fields(item))
      decreases item
    {
      position := StoreNext(a, position, item.data, all, Fields(item.next));
      item := item.next;
    }
  }

  method Length(list: XanList) returns (n: nat)
    ensures n == |Fields(list)|
  {
    n := 0;
    var item := list;
    while item.Item?
      invariant n + |Fields(item)| == |Fields(list)|
      decreases item
    {
      n := n + 1;
      item := item.next;
    }
  }

  /** The bytes of a name as the lookup sees them. */
  function NameBytes(name: seq<Int16>): (r: seq<Int8>)
    ensures |r| == |name| + 1 && r[|name|] == 0 && forall k :: 0 <= k < |name| ==> r[k] == LowByte(name[k])
  {
    seq(|name| + 1, k requires 0 <= k <= |name| => if k < |name| then LowByte(name[k]) else 0)
  }

  /** The field branch of GetMembersImpl, whose final assertion is arraySize == position. */
  method GetFields(list: XanList, bindingAttrs: bv32, nameString: StringObject?)
      returns (a: array<Member>, arraySize: nat, position: nat)
    requires Named(list) && (nameString != null ==> nameString.Valid())
    ensures fresh(a) && arraySize == position == a.Length
    ensures nameString == null ==> Holds(a, Fields(list))
    ensures var found := if nameString == null then Fields(list)
        else Matching(list, NameBytes(nameString.Contents()), IgnoresCase(bindingAttrs, nameString.length));
      a.Length == |found| && forall k :: 0 <= k < a.Length ==> a[k] == MemberOf(found[k])
    ensures nameString != null ==>
      Holds(a, Matching(list, NameBytes(nameString.Contents()), IgnoresCase(bindingAttrs, nameString.length)))
  {
    if nameString == null {
      arraySize := Length(list);
      a := new Member[arraySize](_ => Nothing);
      position := StoreAll(list, a);
      return;
    }
    var ignoreCase := IgnoresCase(bindingAttrs, nameString.length);
    var literal := CopyLowBytes(nameString.units, nameString.length);
    assert literal[..] == NameBytes(nameString.Contents());
    assert literal[..][nameString.length] == 0;
    arraySize := CountMatching(list, literal[..], ignoreCase);
    a := new Member[arraySize](_ => Nothing);
    position := StoreMatching(list, literal[..], ignoreCase, a);
  }

  /** The field branch of GetMemberImpl: the first of the fields that GetFields returns, if any. */
  method GetField(list: XanList, bindingAttrs: bv32, name: StringObject?) returns (result: Result<Member>)
    requires Named(list) && (name != null ==> name.Valid())
    ensures name == null <==> result == Raised(ArgumentNull)
    ensures name != null ==>
      var found := Matching(list, NameBytes(name.Contents()), IgnoresCase(bindingAttrs, name.length));
      result == Value(if found == [] then Nothing else MemberOf(found[0]))
  {
    if name == null {
      return Raised(ArgumentNull);
    }
    var ignoreCase := IgnoresCase(bindingAttrs, name.length);
    var literal := CopyLowBytes(name.units, name.length);
    var bytes := literal[..];
    assert bytes == NameBytes(name.Contents());
    assert bytes[name.length] == 0;
    var item := list;
    while item.Item?
      invariant Named(item) && Matching(item, bytes, ignoreCase) == Matching(list, bytes, ignoreCase)
      decreases item
    {
      var named := IsNamed(item.data, bytes, ignoreCase);
      if named {
        return Value(MemberOf(item.data));
      }
      item := item.next;
    }
    return Value(Nothing);
  }
}
