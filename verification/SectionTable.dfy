/** The section table of a PE image: reading it, with the checks made on the way, and translating
    virtual addresses with it afterwards.  The entries are those of ECMA-335, section II.25.3. */
module SectionTable {
  import opened MachineIntegers

  type Byte = x: int | 0 <= x < 0x100

  const MAX_UINT: UInt32 := 0xFFFF_FFFF
  const ENTRY_SIZE: nat := 40

  datatype Section = Section(
    name: seq<Byte>,
    virtualSize: UInt32,
    virtualAddress: UInt32,
    realSize: UInt32,
    realAddress: UInt32,
    relocationPointer: UInt32,
    relocationNumber: UInt32,
    characteristic: UInt32)

  // ".text$il", ".cormeta", ".bss" padded with zeros
  const DOTTEXT_SECTION: seq<Byte> := [0x2E, 0x74, 0x65, 0x78, 0x74, 0x24, 0x69, 0x6C]
  const CORMETA_SECTION: seq<Byte> := [0x2E, 0x63, 0x6F, 0x72, 0x6D, 0x65, 0x74, 0x61]
  const BSS_SECTION: seq<Byte> := [0x2E, 0x62, 0x73, 0x73, 0, 0, 0, 0]

  // ----- One entry

  /** A little-endian number of up to four bytes. */
  function Number(bytes: seq<Byte>): (r: UInt32)
    requires |bytes| <= 4
  {
    var b0: int := if |bytes| > 0 then bytes[0] else 0;
    var b1: int := if |bytes| > 1 then bytes[1] else 0;
    var b2: int := if |bytes| > 2 then bytes[2] else 0;
    var b3: int := if |bytes| > 3 then bytes[3] else 0;
    b0 + 0x100 * b1 + 0x1_0000 * b2 + 0x100_0000 * b3
  }

  function ReadEntry(buffer: seq<Byte>): (r: Section)
    requires |buffer| == ENTRY_SIZE
  {
    Section(buffer[..8], Number(buffer[8..12]), Number(buffer[12..16]), Number(buffer[16..20]),
            Number(buffer[20..24]), Number(buffer[24..28]), Number(buffer[32..34]), Number(buffer[36..40]))
  }

  /** Numbers as they are written, lowest byte first. */
  function Bytes2(x: int): (r: seq<Byte>)
    requires 0 <= x < 0x1_0000
    ensures |r| == 2 && r[0] == x % 0x100 && r[1] == x / 0x100
  {
    [x % 0x100, x / 0x100]
  }

  function Bytes4(x: UInt32): (r: seq<Byte>)
    ensures |r| == 4
    ensures r[0] == x % 0x100 && r[1] == x / 0x100 % 0x100 && r[2] == x / 0x1_0000 % 0x100 && r[3] == x / 0x100_0000
  {
    [x % 0x100, x / 0x100 % 0x100, x / 0x1_0000 % 0x100, x / 0x100_0000]
  }

  lemma NumberRoundTrip(x: UInt32)
    ensures Number(Bytes4(x)) == x
    ensures x < 0x1_0000 ==> Number(Bytes2(x)) == x
  {
    BytesMakeNumber(x);
  }

  lemma BytesMakeNumber(x: UInt32)
    ensures x == x % 0x100 + 0x100 * (x / 0x100 % 0x100) + 0x1_0000 * (x / 0x1_0000 % 0x100)
                 + 0x100_0000 * (x / 0x100_0000)
  {
    var y, z := x / 0x100, x / 0x1_0000;
    assert x == x % 0x100 + 0x100 * y;
    assert z == y / 0x100 && y == y % 0x100 + 0x100 * z;
    assert x / 0x100_0000 == z / 0x100 && z == z % 0x100 + 0x100 * (z / 0x100);
  }

  /** An entry written in the order of section II.25.3 of ECMA-335 is read back, whatever is in the two fields
      that the loader does not keep (the pointer to and the number of line numbers). */
  lemma EntryRoundTrip(s: Section, lineNumbers: seq<Byte>, lineNumberCount: seq<Byte>)
    requires |s.name| == 8 && s.relocationNumber < 0x1_0000 && |lineNumbers| == 4 && |lineNumberCount| == 2
    ensures var image := s.name + Bytes4(s.virtualSize) + Bytes4(s.virtualAddress) + Bytes4(s.realSize)
                         + Bytes4(s.realAddress) + Bytes4(s.relocationPointer) + lineNumbers
                         + Bytes2(s.relocationNumber) + lineNumberCount + Bytes4(s.characteristic);
      |image| == 40 && ReadEntry(image) == s
  {
    var upTo12 := s.name + Bytes4(s.virtualSize);
    var upTo20 := upTo12 + Bytes4(s.virtualAddress) + Bytes4(s.realSize);
    var upTo28 := upTo20 + Bytes4(s.realAddress) + Bytes4(s.relocationPointer);
    var upTo36 := upTo28 + lineNumbers + Bytes2(s.relocationNumber) + lineNumberCount;
    var image := upTo36 + Bytes4(s.characteristic);
    assert image[..8] == s.name && image[8..12] == Bytes4(s.virtualSize);
    assert image[12..16] == Bytes4(s.virtualAddress) && image[16..20] == Bytes4(s.realSize);
    assert image[20..24] == Bytes4(s.realAddress) && image[24..28] == Bytes4(s.relocationPointer);
    assert image[32..34] == Bytes2(s.relocationNumber) && image[36..40] == Bytes4(s.characteristic);
    NumberRoundTrip(s.virtualSize);
    NumberRoundTrip(s.virtualAddress);
    NumberRoundTrip(s.realSize);
    NumberRoundTrip(s.realAddress);
    NumberRoundTrip(s.relocationPointer);
    NumberRoundTrip(s.relocationNumber);
    NumberRoundTrip(s.characteristic);
  }

  /** Not more memory than the file has; all of it, at the file's address, if nothing is said. */
  function Normalised(s: Section): (r: Section)
    ensures r.virtualSize <= r.realSize && r.realSize == s.realSize && r.realAddress == s.realAddress
    ensures r.name == s.name
    ensures r.virtualAddress != s.virtualAddress ==>
      s.virtualAddress == 0 && s.virtualSize == 0 && r.virtualAddress == s.realAddress
    ensures s.virtualAddress == 0 && s.virtualSize == 0 ==> r.virtualAddress == s.realAddress
    ensures s.virtualSize == 0 ==> r.virtualSize == s.realSize
    ensures r.virtualSize != s.virtualSize ==>
      r.virtualSize == s.realSize && (s.virtualSize == 0 || s.virtualSize > s.realSize)
  {
    if s.virtualSize > s.realSize then s.(virtualSize := s.realSize)
    else if s.virtualSize == 0 then
      s.(virtualSize := s.realSize, virtualAddress := if s.virtualAddress == 0 then s.realAddress else s.virtualAddress)
    else s
  }

  /** The overflow tests of the loader. */
  predicate PassesChecks(s: Section) {
    U32(s.virtualAddress + s.virtualSize) >= s.virtualAddress && U32(s.realAddress + s.realSize) >= s.realAddress
  }

  /** They test exactly that neither range leaves the 32-bit address space. */
  lemma ChecksMeanNoWrap(s: Section)
    ensures PassesChecks(s) <==>
      s.virtualAddress + s.virtualSize < 0x1_0000_0000 && s.realAddress + s.realSize < 0x1_0000_0000
  {
  }

  predicate Skipped(s: Section) {
    s.name == BSS_SECTION && s.realAddress == 0
  }

  /** The section takes up room in the file. */
  predicate Counts(s: Section) {
    !Skipped(s) && s.realSize > 0
  }

  /** The k-th entry of the table at `start`, as the loader keeps it. */
  function Entry(image: seq<Byte>, start: nat, k: nat): (r: Section)
    requires start + ENTRY_SIZE * (k + 1) <= |image|
  {
    Normalised(ReadEntry(image[start + ENTRY_SIZE * k..start + ENTRY_SIZE * (k + 1)]))
  }

  function Entries(image: seq<Byte>, start: nat, n: nat): (entries: seq<Section>)
    requires start + ENTRY_SIZE * n <= |image|
    ensures |entries| == n
  {
    if n == 0 then [] else Entries(image, start, n - 1) + [Entry(image, start, n - 1)]
  }

  lemma {:induction false} EntriesAt(image: seq<Byte>, start: nat, n: nat, k: nat)
    requires start + ENTRY_SIZE * n <= |image| && k < n
    ensures Entries(image, start, n)[k] == Entry(image, start, k)
  {
    var before, last := Entries(image, start, n - 1), Entry(image, start, n - 1);
    assert Entries(image, start, n) == before + [last];
    if k < n - 1 {
      EntriesAt(image, start, n - 1, k);
      assert (before + [last])[k] == before[k];
    }
  }

  /** The entries lie one after the other, 40 bytes each. */
  lemma EntriesInPlainTerms(image: seq<Byte>, start: nat, n: nat, k: nat)
    requires start + 40 * n <= |image| && k < n
    ensures |Entries(image, start, n)| == n
    ensures Entries(image, start, n)[k] == Normalised(ReadEntry(image[start + 40 * k..start + 40 * k + 40]))
  {
    EntriesAt(image, start, n, k);
  }

  // ----- The whole table

  /** `lo` .. `hi` is the smallest range that holds the file ranges of all sections that count. */
  ghost predicate IsHull(entries: seq<Section>, lo: int, hi: int) {
    && (forall k :: 0 <= k < |entries| && Counts(entries[k]) ==>
          lo <= entries[k].realAddress && entries[k].realAddress + entries[k].realSize <= hi)
    && (exists k :: 0 <= k < |entries| && Counts(entries[k]) && lo == entries[k].realAddress)
    && (exists k :: 0 <= k < |entries| && Counts(entries[k]) && hi == entries[k].realAddress + entries[k].realSize)
  }

  ghost predicate NoneCounts(entries: seq<Section>) {
    forall k :: 0 <= k < |entries| ==> !Counts(entries[k])
  }

  /** What the loader has after some entries: the hull, or its initial values. */
  ghost predicate Bounds(entries: seq<Section>, lo: int, hi: int) {
    if NoneCounts(entries) then lo == MAX_UINT && hi == 0 else IsHull(entries, lo, hi)
  }

  lemma BoundsGrow(entries: seq<Section>, s: Section, lo: int, hi: int)
    requires Bounds(entries, lo, hi) && PassesChecks(s)
    ensures !Counts(s) ==> Bounds(entries + [s], lo, hi)
    ensures Counts(s) ==>
      var end := s.realAddress + s.realSize;
      Bounds(entries + [s], if s.realAddress < lo then s.realAddress else lo, if end > hi then end else hi)
  {
    var more := entries + [s];
    assert more[|entries|] == s && forall k :: 0 <= k < |entries| ==> more[k] == entries[k];
    if !NoneCounts(entries) {
      var i :| 0 <= i < |entries| && Counts(entries[i]) && lo == entries[i].realAddress;
      var j :| 0 <= j < |entries| && Counts(entries[j]) && hi == entries[j].realAddress + entries[j].realSize;
      assert more[i] == entries[i] && more[j] == entries[j];
    }
  }

  /** The loader's final test finds out exactly whether some section counts. */
  lemma BoundsTellWhetherAnyCounts(entries: seq<Section>, lo: int, hi: int)
    requires Bounds(entries, lo, hi)
    ensures hi <= lo <==> NoneCounts(entries)
  {
  }

  /** The address of the last section that holds IL, or what was known before. */
  function BaseAfter(entries: seq<Section>, base: UInt32): (r: UInt32) {
    if entries == [] then base
    else
      var last := entries[|entries| - 1];
      if last.name == DOTTEXT_SECTION || last.name == CORMETA_SECTION then last.virtualAddress
      else BaseAfter(entries[..|entries| - 1], base)
  }

  ghost predicate AllPass(entries: seq<Section>) {
    forall k :: 0 <= k < |entries| ==> PassesChecks(entries[k])
  }

  /** The table is accepted. */
  ghost predicate Acceptable(image: seq<Byte>, start: nat, n: nat, base: UInt32) {
    && start + ENTRY_SIZE * n <= |image|
    && var entries := Entries(image, start, n);
       AllPass(entries) && !NoneCounts(entries) && BaseAfter(entries, base) != 0
  }

  /** The image ends inside the table, and nothing was wrong up to there. */
  ghost predicate EndsEarly(image: seq<Byte>, start: nat, n: nat) {
    exists k :: 0 <= k < n && start + ENTRY_SIZE * k <= |image| < start + ENTRY_SIZE * (k + 1)
      && AllPass(Entries(image, start, k))
  }

  // ----- The conditions in plain terms

  lemma CountsInPlainTerms(s: Section)
    ensures Skipped(s) <==> s.name == [0x2E, 0x62, 0x73, 0x73, 0, 0, 0, 0] && s.realAddress == 0
    ensures Counts(s) <==> s.realSize > 0 && !(s.name == [0x2E, 0x62, 0x73, 0x73, 0, 0, 0, 0] && s.realAddress == 0)
  {
  }

  /** The section is called ".text$il" or ".cormeta". */
  ghost predicate HoldsIL(s: Section) {
    || s.name == [0x2E, 0x74, 0x65, 0x78, 0x74, 0x24, 0x69, 0x6C]
    || s.name == [0x2E, 0x63, 0x6F, 0x72, 0x6D, 0x65, 0x74, 0x61]
  }

  ghost predicate IsCalled(s: Section, name: string) {
    |s.name| == |name| && forall k :: 0 <= k < |name| ==> s.name[k] == name[k] as int
  }

  lemma NamesInPlainTerms(s: Section)
    ensures HoldsIL(s) <==> IsCalled(s, ".text$il") || IsCalled(s, ".cormeta")
    ensures s.name == BSS_SECTION <==> IsCalled(s, ".bss\0\0\0\0")
  {
    if |s.name| == 8 {
      assert s.name == [s.name[0], s.name[1], s.name[2], s.name[3], s.name[4], s.name[5], s.name[6], s.name[7]];
    }
  }

  /** The base is the address of the last section that holds IL, here the one before place `n`, or what was
      known before. */
  lemma {:induction false} BaseInPlainTerms(entries: seq<Section>, base: UInt32, n: nat)
    requires n <= |entries| && (n > 0 ==> HoldsIL(entries[n - 1]))
    requires forall k :: n <= k < |entries| ==> !HoldsIL(entries[k])
    ensures BaseAfter(entries, base) == if n == 0 then base else entries[n - 1].virtualAddress
  {
    if n < |entries| {
      BaseInPlainTerms(entries[..|entries| - 1], base, n);
    }
  }

  lemma HullInPlainTerms(entries: seq<Section>, lo: int, hi: int)
    ensures IsHull(entries, lo, hi) <==>
      && (forall k :: 0 <= k < |entries| && Counts(entries[k]) ==>
            lo <= entries[k].realAddress && entries[k].realAddress + entries[k].realSize <= hi)
      && (exists k :: 0 <= k < |entries| && Counts(entries[k]) && entries[k].realAddress == lo)
      && (exists k :: 0 <= k < |entries| && Counts(entries[k]) && entries[k].realAddress + entries[k].realSize == hi)
  {
  }

  lemma AllPassInPlainTerms(entries: seq<Section>)
    ensures AllPass(entries) <==> forall k :: 0 <= k < |entries| ==> NoOverflow(entries[k])
  {
    forall s: Section
      ensures PassesChecks(s) <==> NoOverflow(s)
    {
      ChecksMeanNoWrap(s);
    }
  }

  /** When a table is accepted. */
  lemma AcceptableInPlainTerms(image: seq<Byte>, start: nat, n: nat, base: UInt32)
    ensures Acceptable(image, start, n, base) <==>
      && start + 40 * n <= |image|
      && (forall k :: 0 <= k < n ==> NoOverflow(Entries(image, start, n)[k]))
      && (exists k :: 0 <= k < n && Counts(Entries(image, start, n)[k]))
      && BaseAfter(Entries(image, start, n), base) != 0
  {
    if start + 40 * n <= |image| {
      AllPassInPlainTerms(Entries(image, start, n));
    }
  }

  /** The image ends in the `k`-th entry, and the ones before it are in order. */
  ghost predicate CutAt(image: seq<Byte>, start: nat, k: nat) {
    && start + 40 * k <= |image| < start + 40 * k + 40
    && forall j :: 0 <= j < k ==> NoOverflow(Entries(image, start, k)[j])
  }

  /** When the loader aborts. */
  lemma EndsEarlyInPlainTerms(image: seq<Byte>, start: nat, n: nat)
    ensures EndsEarly(image, start, n) <==> exists k: nat :: k < n && CutAt(image, start, k)
  {
    forall k: nat | start + 40 * k <= |image|
      ensures AllPass(Entries(image, start, k)) <==>
        (forall j :: 0 <= j < k ==> NoOverflow(Entries(image, start, k)[j]))
    {
      AllPassInPlainTerms(Entries(image, start, k));
    }
    if EndsEarly(image, start, n) {
      var k: nat :| k < n && start + ENTRY_SIZE * k <= |image| < start + ENTRY_SIZE * (k + 1)
                    && AllPass(Entries(image, start, k));
      assert CutAt(image, start, k);
    }
    if k: nat :| k < n && CutAt(image, start, k) {
      assert AllPass(Entries(image, start, k));
    }
  }

  ghost predicate NoOverflow(s: Section) {
    s.virtualAddress + s.virtualSize <= 0xFFFF_FFFF && s.realAddress + s.realSize <= 0xFFFF_FFFF
  }

  lemma RejectedAt(image: seq<Byte>, start: nat, n: nat, base: UInt32, k: nat)
    requires k < n && start + ENTRY_SIZE * (k + 1) <= |image| && !PassesChecks(Entry(image, start, k))
    ensures !Acceptable(image, start, n, base) && !EndsEarly(image, start, n)
  {
    if start + ENTRY_SIZE * n <= |image| {
      EntriesAt(image, start, n, k);
    }
    forall j | k < j < n && start + ENTRY_SIZE * j <= |image|
      ensures !AllPass(Entries(image, start, j))
    {
      EntriesAt(image, start, j, k);
    }
  }

  lemma AbortedAt(image: seq<Byte>, start: nat, n: nat, base: UInt32, k: nat)
    requires k < n && start + ENTRY_SIZE * k <= |image| < start + ENTRY_SIZE * (k + 1)
    requires AllPass(Entries(image, start, k))
    ensures !Acceptable(image, start, n, base) && EndsEarly(image, start, n)
  {
  }

  lemma Completed(image: seq<Byte>, start: nat, n: nat, base: UInt32, lo: int, hi: int)
    requires start + ENTRY_SIZE * n <= |image|
    requires var entries := Entries(image, start, n); AllPass(entries) && Bounds(entries, lo, hi)
    ensures !EndsEarly(image, start, n)
    ensures Acceptable(image, start, n, base) <==> lo < hi && BaseAfter(Entries(image, start, n), base) != 0
    ensures lo < hi ==> IsHull(Entries(image, start, n), lo, hi)
  {
    BoundsTellWhetherAnyCounts(Entries(image, start, n), lo, hi);
  }

  /** The entry as it is kept. */
  method Normalise(raw: Section) returns (current: Section)
    ensures current == Normalised(raw)
  {
    current := raw;
    if current.virtualSize > current.realSize {
      current := current.(virtualSize := current.realSize);
    } else {
      if current.virtualSize == 0 {
        current := current.(virtualSize := current.realSize);
        if current.virtualAddress == 0 {
          current := current.(virtualAddress := current.realAddress);
        }
      }
    }
  }

  /** The running minimum and maximum. */
  method Widen(current: Section, minAddress: UInt32, maxAddress: UInt32, ghost entries: seq<Section>)
      returns (lo: UInt32, hi: UInt32)
    requires Bounds(entries, minAddress, maxAddress) && PassesChecks(current) && !Skipped(current)
    ensures Bounds(entries + [current], lo, hi)
  {
    BoundsGrow(entries, current, minAddress, maxAddress);
    ChecksMeanNoWrap(current);
    lo, hi := minAddress, maxAddress;
    if current.realSize > 0 {
      if current.realAddress < lo {
        lo := current.realAddress;
      }
      if U32(current.realAddress + current.realSize) > hi {
        hi := U32(current.realAddress + current.realSize);
      }
    }
  }

  lemma BaseGrows(entries: seq<Section>, s: Section, base: UInt32)
    ensures BaseAfter(entries + [s], base) ==
      if s.name == DOTTEXT_SECTION || s.name == CORMETA_SECTION then s.virtualAddress else BaseAfter(entries, base)
  {
    assert (entries + [s])[..|entries|] == entries;
  }

  /** What the loader knows after `k` entries. */
  ghost predicate Knows(image: seq<Byte>, start: nat, k: nat, base: UInt32, lo: int, hi: int, currentBase: UInt32)
    requires start + ENTRY_SIZE * k <= |image|
  {
    var entries := Entries(image, start, k);
    AllPass(entries) && Bounds(entries, lo, hi) && currentBase == BaseAfter(entries, base)
  }

  lemma OneMoreEntry(before: seq<Section>, image: seq<Byte>, start: nat, k: nat)
    requires start + ENTRY_SIZE * (k + 1) <= |image|
    ensures (before + Entries(image, start, k)) + [Entry(image, start, k)] == before + Entries(image, start, k + 1)
  {
  }

  /** Reading past the end of the image aborts the process; other faults make the loader return -1. */
  datatype Status = Loaded | Rejected | Aborted

  ghost predicate RightlyRefused(status: Status, image: seq<Byte>, start: nat, n: nat, base: UInt32) {
    !Acceptable(image, start, n, base) && (status.Aborted? <==> EndsEarly(image, start, n))
  }

  /** The loop has come to the end of the table. */
  lemma LoopEnds(image: seq<Byte>, start: nat, done: nat, n: nat, base: UInt32, before: seq<Section>,
                 sections: seq<Section>, lo: int, hi: int, currentBase: UInt32)
    requires done == n && start + ENTRY_SIZE * done <= |image|
    requires sections == before + Entries(image, start, done) && Knows(image, start, done, base, lo, hi, currentBase)
    ensures start + ENTRY_SIZE * n <= |image|
    ensures sections == before + Entries(image, start, n) && Knows(image, start, n, base, lo, hi, currentBase)
  {
  }

  class BinaryInfo {
    const image: seq<Byte>
    var offset: nat
    var sections: seq<Section>

    constructor (image: seq<Byte>, offset: nat)
      ensures this.image == image && this.offset == offset && sections == []
    {
      this.image := image;
      this.offset := offset;
      sections := [];
    }

    /** The next entry, if the image has that much left. */
    method ReadNext() returns (buffer: seq<Byte>, ok: bool)
      modifies this`offset
      ensures ok <==> old(offset) + ENTRY_SIZE <= |image|
      ensures ok ==> offset == old(offset) + ENTRY_SIZE && buffer == image[old(offset)..offset]
      ensures !ok ==> offset == old(offset)
    {
      if offset + ENTRY_SIZE > |image| {
        return [], false;
      }
      buffer := image[offset..offset + ENTRY_SIZE];
      offset := offset + ENTRY_SIZE;
      return buffer, true;
    }

    /** The entry is classified by its name and widens the bounds, unless it is an empty .bss section. */
    method Classify(current: Section, minAddress: UInt32, max: UInt32, currentBase: UInt32,
                    ghost start: nat, ghost k: nat, ghost base: UInt32)
        returns (lo: UInt32, hi: UInt32, newBase: UInt32)
      requires start + ENTRY_SIZE * (k + 1) <= |image| && current == Entry(image, start, k) && PassesChecks(current)
      requires Knows(image, start, k, base, minAddress, max, currentBase)
      ensures Knows(image, start, k + 1, base, lo, hi, newBase)
    {
      ghost var entries := Entries(image, start, k);
      BaseGrows(entries, current, base);
      lo, hi, newBase := minAddress, max, currentBase;
      if current.name == DOTTEXT_SECTION {
        newBase := current.virtualAddress;
      } else if current.name == CORMETA_SECTION {
        newBase := current.virtualAddress;
      } else if current.name == BSS_SECTION {
        if current.realAddress == 0 {
          BoundsGrow(entries, current, minAddress, max);
          return;
        }
      }
      lo, hi := Widen(current, minAddress, max, entries);
    }

    /** Reads one entry, keeps it and checks it. */
    method LoadEntry(ghost start: nat, ghost k: nat) returns (status: Status, current: Section)
      requires offset == start + ENTRY_SIZE * k <= |image|
      modifies this
      ensures status.Aborted? <==> start + ENTRY_SIZE * (k + 1) > |image|
      ensures !status.Aborted? ==>
        && offset == start + ENTRY_SIZE * (k + 1) && current == Entry(image, start, k)
        && sections == old(sections) + [current] && (status.Loaded? <==> PassesChecks(current))
    {
      var buffer, ok := ReadNext();
      if !ok {
        return Aborted, Section([], 0, 0, 0, 0, 0, 0, 0);
      }
      current := Normalise(ReadEntry(buffer));
      sections := sections + [current];
      if U32(current.virtualAddress + current.virtualSize) < current.virtualAddress {
        return Rejected, current;
      }
      if U32(current.realAddress + current.realSize) < current.realAddress {
        return Rejected, current;
      }
      return Loaded, current;
    }

    /** One turn of the loop over the entries. */
    method LoadNext(minAddress: UInt32, max: UInt32, currentBase: UInt32,
                    ghost start: nat, ghost k: nat, ghost cardinality: nat, ghost base: UInt32,
                    ghost before: seq<Section>)
        returns (status: Status, lo: UInt32, hi: UInt32, newBase: UInt32)
      requires k < cardinality && offset == start + ENTRY_SIZE * k <= |image|
      requires sections == before + Entries(image, start, k)
      requires Knows(image, start, k, base, minAddress, max, currentBase)
      modifies this
      ensures status.Loaded? ==>
        && offset == start + ENTRY_SIZE * (k + 1) <= |image|
        && sections == before + Entries(image, start, k + 1)
        && Knows(image, start, k + 1, base, lo, hi, newBase)
      ensures !status.Loaded? ==> RightlyRefused(status, image, start, cardinality, base)
    {
      lo, hi, newBase := minAddress, max, currentBase;
      var current;
      status, current := LoadEntry(start, k);
      if status.Aborted? {
        AbortedAt(image, start, cardinality, base, k);
        return;
      }
      if status.Rejected? {
        RejectedAt(image, start, cardinality, base, k);
        return;
      }
      OneMoreEntry(before, image, start, k);
      lo, hi, newBase := Classify(current, minAddress, max, currentBase, start, k, base);
    }

    /** The loop over the entries. */
    method LoadEntries(cardinality: nat, base: UInt32)
        returns (status: Status, minAddress: UInt32, max: UInt32, currentBase: UInt32)
      requires offset <= |image|
      modifies this
      ensures status.Loaded? ==>
        && offset == old(offset) + ENTRY_SIZE * cardinality <= |image|
        && sections == old(sections) + Entries(image, old(offset), cardinality)
        && Knows(image, old(offset), cardinality, base, minAddress, max, currentBase)
      ensures !status.Loaded? ==> RightlyRefused(status, image, old(offset), cardinality, base)
    {
      var numSections: int := cardinality;
      max, currentBase, minAddress := 0, base, MAX_UINT;
      ghost var start, done, before := offset, 0, sections;
      while numSections > 0
        invariant done + numSections == cardinality && 0 <= numSections
        invariant offset == start + ENTRY_SIZE * done <= |image|
        invariant sections == before + Entries(image, start, done)
        invariant Knows(image, start, done, base, minAddress, max, currentBase)
      {
        status, minAddress, max, currentBase :=
          LoadNext(minAddress, max, currentBase, start, done, cardinality, base, before);
        if !status.Loaded? {
          return;
        }
        numSections, done := numSections - 1, done + 1;
      }
      LoopEnds(image, start, done, cardinality, base, before, sections, minAddress, max, currentBase);
      status := Loaded;
    }

    method LoadSections(cardinality: nat, base: UInt32)
        returns (status: Status, minAddress: UInt32, ghost maxAddress: int)
      requires offset <= |image|
      modifies this
      ensures status.Loaded? <==> Acceptable(image, old(offset), cardinality, base)
      ensures status.Aborted? <==> EndsEarly(image, old(offset), cardinality)
      ensures status.Loaded? ==>
        && offset == old(offset) + ENTRY_SIZE * cardinality <= |image|
        && sections == old(sections) + Entries(image, old(offset), cardinality)
        && IsHull(Entries(image, old(offset), cardinality), minAddress, maxAddress)
    {
      var max, currentBase;
      status, minAddress, max, currentBase := LoadEntries(cardinality, base);
      maxAddress := max;
      if !status.Loaded? {
        return;
      }
      Completed(image, old(offset), cardinality, base, minAddress, max);
      if max <= minAddress {
        return Rejected, minAddress, max;
      }
      if currentBase == 0 {
        return Rejected, minAddress, max;
      }
    }
  }

  // ----- Translating addresses with the table

  /** The address lies in the section, in memory. */
  predicate Contains(s: Section, address: UInt32) {
    s.virtualAddress <= address < U32(s.virtualAddress + s.virtualSize)
  }

  /** The first section that contains the address, or how many there are. */
  function FirstContaining(sections: seq<Section>, address: UInt32, from: nat): (n: nat)
    requires from <= |sections|
    ensures from <= n <= |sections|
    ensures forall k :: from <= k < n ==> !Contains(sections[k], address)
    ensures n < |sections| ==> Contains(sections[n], address)
    decreases |sections| - from
  {
    if from == |sections| || Contains(sections[from], address) then from
    else FirstContaining(sections, address, from + 1)
  }

  /** The file address of a virtual address in the section. */
  function FileAddress(s: Section, address: UInt32): (r: int) {
    s.realAddress + (address - s.virtualAddress)
  }

  /** Where a virtual address is in the file, or -1.  The unsigned address is returned as a signed number. */
  method ConvertVirtualAddress(sections: seq<Section>, address: UInt32) returns (place: Int32)
    ensures var n := FirstContaining(sections, address, 0);
      place == if n == |sections| then -1 else Wrap32(FileAddress(sections[n], address))
    ensures var n := FirstContaining(sections, address, 0);
      && (n == |sections| ==> place == -1)
      && (n < |sections| ==>
            && sections[n].virtualAddress <= address < U32(sections[n].virtualAddress + sections[n].virtualSize)
            && place == Wrap32(sections[n].realAddress + (address - sections[n].virtualAddress)))
      && forall k :: 0 <= k < n ==>
           !(sections[k].virtualAddress <= address < U32(sections[k].virtualAddress + sections[k].virtualSize))
  {
    var current := 0;
    while current < |sections|
      invariant current <= |sections|
      invariant FirstContaining(sections, address, 0) == FirstContaining(sections, address, current)
    {
      var s := sections[current];
      if address >= s.virtualAddress && address < U32(s.virtualAddress + s.virtualSize) {
        var offset: int := address - s.virtualAddress;
        return Wrap32(s.realAddress + offset);
      }
      current := current + 1;
    }
    return -1;
  }

  lemma TranslatesInside(s: Section, address: UInt32)
    requires PassesChecks(s) && s.virtualSize <= s.realSize && Contains(s, address)
    ensures s.realAddress <= FileAddress(s, address) < s.realAddress + s.realSize < 0x1_0000_0000
    ensures Wrap32(FileAddress(s, address)) != -1 && U32(Wrap32(FileAddress(s, address))) == FileAddress(s, address)
  {
    ChecksMeanNoWrap(s);
  }

  lemma HullHolds(entries: seq<Section>, lo: int, hi: int, n: nat)
    requires IsHull(entries, lo, hi) && n < |entries| && Counts(entries[n])
    ensures lo <= entries[n].realAddress && entries[n].realAddress + entries[n].realSize <= hi
  {
  }

  /** Thanks to the loader's checks and its normalisation, addresses translate safely with the table it
      accepted: -1 means that no section contains the address and nothing else; otherwise the result,
      read as unsigned, lies in the file range of the first section that does and, unless that is an
      empty .bss, between the loader's bounds. */
  lemma LoadedTableTranslatesSafely(image: seq<Byte>, start: nat, count: nat, base: UInt32, lo: int, hi: int,
                                    address: UInt32)
    requires Acceptable(image, start, count, base) && IsHull(Entries(image, start, count), lo, hi)
    ensures var entries := Entries(image, start, count);
            var n := FirstContaining(entries, address, 0);
      n < count ==>
        && Wrap32(FileAddress(entries[n], address)) != -1
        && U32(Wrap32(FileAddress(entries[n], address))) == FileAddress(entries[n], address)
        && entries[n].realAddress <= FileAddress(entries[n], address) < entries[n].realAddress + entries[n].realSize
        && (!Skipped(entries[n]) ==> lo <= FileAddress(entries[n], address) < hi)
  {
    var entries := Entries(image, start, count);
    var n := FirstContaining(entries, address, 0);
    if n < count {
      EntriesAt(image, start, count, n);
      assert PassesChecks(entries[n]);
      TranslatesInside(entries[n], address);
      if !Skipped(entries[n]) {
        HullHolds(entries, lo, hi, n);
      }
    }
  }
}
