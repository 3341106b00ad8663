/** How String.Split relates to joining and to String.Replace, and for which strings.

    Split works on bytes.  A unit survives it only if it is its own low byte, sign-extended, and not
    zero; the exact condition for all the laws below is `Faithful`. */
module SplitLaws {
  import opened MachineIntegers
  import opened Text
  import opened StringReplace
  import opened StringSplit

  /** All the fields Split yields for one separator. */
  function SplitAll(s: seq<Int16>, c: Int16): (fields: seq<seq<Int16>>)
    ensures |fields| > 0
  {
    Tokens(s, [c])
  }

  /** Every unit of `s` is told apart from the separator, and restored, by its low byte alone. */
  predicate Faithful(s: seq<Int16>, c: Int16) {
    forall k :: 0 <= k < |s| ==>
      LowByte(s[k]) != 0 && (if LowByte(s[k]) == LowByte(c) then s[k] == c else s[k] == LowByte(s[k]))
  }

  /** With no limit and no option, Split returns all the fields. */
  lemma SplitWithoutLimit(s: seq<Int16>, c: Int16, count: nat)
    requires count >= |SplitAll(s, c)|
    ensures SplitResult(s, [c], count, 0) == SplitAll(s, c)
  {
    KeepsAll(SplitAll(s, c), |SplitAll(s, c)|, 0);
  }

  /** With a limit, Split returns the first `count` fields, or all if there are fewer, but one if `count` is zero.
      RemoveEmptyEntries, which is option 1, drops the empty ones among those, and only those, and does not
      make up for them; any other option drops nothing. */
  lemma SplitWithLimit(s: seq<Int16>, separators: seq<Int16>, count: nat, options: nat)
    requires options != 1
    ensures var all := Fields<Int16>(UpToZero(LowBytes(s)), Delimiters(separators));
      var r := SplitResult(s, separators, count, options);
      && 1 <= |r| <= |all| && r == all[..|r|]
      && (count > 0 ==> |r| <= count)
      && (count == 0 ==> |r| == 1)
      && (|r| < |all| ==> |r| == count || count == 0)
      && SplitResult(s, separators, count, 1) == NonEmpty(r)
  {
    var all := Tokens(s, separators);
    KeepsAll(all, TokenLimit(|all|, count), options);
    KeepsNonEmpty(all, TokenLimit(|all|, count));
  }

  /** `places` are the places of all the fields that are not empty, in increasing order. */
  ghost predicate NonEmptyPlaces(fields: seq<seq<Int16>>, places: seq<nat>) {
    && (forall k :: 0 <= k < |places| ==> places[k] < |fields|)
    && (forall k, l :: 0 <= k < l < |places| ==> places[k] < places[l])
    && (forall p: nat :: p < |fields| ==> (fields[p] != [] <==> p in places))
  }

  /** `found` are the fields at these places. */
  ghost predicate ListedAt(found: seq<seq<Int16>>, fields: seq<seq<Int16>>, places: seq<nat>) {
    |found| == |places| &&
    forall k :: 0 <= k < |places| ==> places[k] < |fields| && found[k] == fields[places[k]]
  }

  /** What is kept are the fields at exactly those places. */
  lemma {:induction false} NonEmptyIsExact(fields: seq<seq<Int16>>) returns (places: seq<nat>)
    ensures NonEmptyPlaces(fields, places) && ListedAt(NonEmpty(fields), fields, places)
  {
    if fields == [] {
      places := [];
    } else {
      var init, last := fields[..|fields| - 1], fields[|fields| - 1];
      var rest := NonEmptyIsExact(init);
      assert fields == init + [last];
      NonEmptyLast(init, last);
      places := if last == [] then rest else rest + [|init|];
      PlacesGrow(init, last, rest);
      ListGrows(NonEmpty(init), init, last, rest);
    }
  }

  lemma NonEmptyLast(init: seq<seq<Int16>>, last: seq<Int16>)
    ensures NonEmpty(init + [last]) == if last == [] then NonEmpty(init) else NonEmpty(init) + [last]
  {
    NonEmptyConcat(init, [last]);
    NonEmptyCons(last, []);
    assert [last] + [] == [last];
  }

  lemma ListGrows(found: seq<seq<Int16>>, init: seq<seq<Int16>>, last: seq<Int16>, rest: seq<nat>)
    requires ListedAt(found, init, rest)
    ensures ListedAt(found, init + [last], rest)
    ensures ListedAt(found + [last], init + [last], rest + [|init|])
  {
  }

  lemma PlacesGrow(init: seq<seq<Int16>>, last: seq<Int16>, rest: seq<nat>)
    requires NonEmptyPlaces(init, rest)
    ensures NonEmptyPlaces(init + [last], if last == [] then rest else rest + [|init|])
  {
    var fields, places := init + [last], if last == [] then rest else rest + [|init|];
    forall p: nat | p < |fields|
      ensures fields[p] != [] <==> p in places
    {
      if p < |init| {
        assert fields[p] == init[p];
        assert p in places <==> p in rest;
      } else {
        assert p !in rest;
      }
    }
  }

  function NonEmpty(fields: seq<seq<Int16>>): (r: seq<seq<Int16>>) {
    if fields == [] then []
    else (if fields[0] == [] then [] else [fields[0]]) + NonEmpty(fields[1..])
  }

  lemma NonEmptyCons(field: seq<Int16>, fields: seq<seq<Int16>>)
    ensures NonEmpty([field] + fields) == (if field == [] then [] else [field]) + NonEmpty(fields)
  {
    assert ([field] + fields)[1..] == fields;
  }

  lemma Regroup(a: seq<seq<Int16>>, b: seq<seq<Int16>>, c: seq<seq<Int16>>)
    ensures (a + b) + c == a + (b + c)
  {
  }

  lemma {:induction false} NonEmptyConcat(f: seq<seq<Int16>>, g: seq<seq<Int16>>)
    ensures NonEmpty(f + g) == NonEmpty(f) + NonEmpty(g)
  {
    if f == [] {
      assert f + g == g;
    } else {
      NonEmptyConcat(f[1..], g);
      NonEmptyCons(f[0], f[1..] + g);
      assert f + g == [f[0]] + (f[1..] + g);
      Regroup(if f[0] == [] then [] else [f[0]], NonEmpty(f[1..]), NonEmpty(g));
    }
  }

  lemma {:induction false} KeepsNonEmpty(fields: seq<seq<Int16>>, n: nat)
    requires n <= |fields|
    ensures KeptOf(fields, n, REMOVE_EMPTY_ENTRIES) == NonEmpty(fields[..n])
  {
    if n > 0 {
      KeepsNonEmpty(fields, n - 1);
      NonEmptyConcat(fields[..n - 1], [fields[n - 1]]);
      assert fields[..n] == fields[..n - 1] + [fields[n - 1]];
    }
  }

  // ----- What one pass of Split and Join leaves of a string

  lemma OneDelimiter(c: Int16)
    ensures Delimiters([c]) == if LowByte(c) == 0 then {} else {LowByte(c) as Int16}
  {
    var low := LowBytes([c]);
    assert UpToZero(low[1..]) == [];
    assert UpToZero(low) == if low[0] == 0 then [] else [low[0]];
  }

  lemma {:induction false} FieldsWithoutSeparators(s: seq<Int16>)
    ensures Fields<Int16>(s, {}) == [s]
  {
    FieldsFirst<Int16>(s, {}, |s|);
  }

  /** The separator's low byte becomes the separator; of the rest the low bytes remain. */
  lemma JoinOfSplit(s: seq<Int16>, c: Int16)
    ensures var text := UpToZero(LowBytes(s));
      Join<Int16>([c], SplitAll(s, c)) == if LowByte(c) == 0 then text else Mapped(text, LowByte(c), c)
  {
    OneDelimiter(c);
    var text := UpToZero(LowBytes(s));
    if LowByte(c) == 0 {
      FieldsWithoutSeparators(text);
    } else {
      ReplaceIsJoin<Int16>(text, LowByte(c), [c]);
      MappedIsReplace(text, LowByte(c), c);
    }
  }

  lemma {:induction false} UpToZeroLength(s: seq<Int16>)
    ensures UpToZero(s) <= s
    ensures |UpToZero(s)| == |s| <==> 0 !in s
    ensures 0 !in UpToZero(s)
  {
    if s != [] {
      UpToZeroLength(s[1..]);
      if s[0] != 0 {
        assert s == [s[0]] + s[1..];
      }
    }
  }

  lemma FaithfulText(s: seq<Int16>, c: Int16)
    requires Faithful(s, c)
    ensures UpToZero(LowBytes(s)) == LowBytes(s)
  {
    UpToZeroLength(LowBytes(s));
  }

  /** Joining what Split yields gives the string back, exactly for the faithful strings. */
  lemma JoinSplitRoundTrip(s: seq<Int16>, c: Int16)
    ensures Join<Int16>([c], SplitAll(s, c)) == s <==> Faithful(s, c)
  {
    var text := UpToZero(LowBytes(s));
    JoinOfSplit(s, c);
    UpToZeroLength(LowBytes(s));
    if Join<Int16>([c], SplitAll(s, c)) == s {
      assert |text| == |s|;
      forall k | 0 <= k < |s|
        ensures LowByte(s[k]) != 0
        ensures if LowByte(s[k]) == LowByte(c) then s[k] == c else s[k] == LowByte(s[k])
      {
        assert text[k] == LowBytes(s)[k] && text[k] in text;
      }
    }
    if Faithful(s, c) {
      FaithfulText(s, c);
    }
  }

  lemma {:induction false} FieldsAgree(s: seq<Int16>, t: seq<Int16>, c: Int16, separators: set<Int16>)
    requires |s| == |t|
    requires forall k :: 0 <= k < |s| ==> (s[k] == c <==> t[k] in separators) && (s[k] != c ==> s[k] == t[k])
    ensures Fields<Int16>(s, {c}) == Fields<Int16>(t, separators)
  {
    if s != [] {
      FieldsAgree(s[1..], t[1..], c, separators);
    }
  }

  /** For the faithful strings, and no others, Split yields the fields between the separators. */
  lemma SplitYieldsFields(s: seq<Int16>, c: Int16)
    ensures SplitAll(s, c) == Fields<Int16>(s, {c}) <==> Faithful(s, c)
  {
    if Faithful(s, c) {
      FaithfulText(s, c);
      OneDelimiter(c);
      FieldsAgree(s, LowBytes(s), c, Delimiters([c]));
    }
    if SplitAll(s, c) == Fields<Int16>(s, {c}) {
      JoinFields<Int16>(s, c);
      JoinSplitRoundTrip(s, c);
    }
  }

  /** Replacing `c` by `w` in `s` is the same as splitting at `c` and joining with `w`. */
  predicate ReplacesLikeSplit(s: seq<Int16>, c: Int16, w: seq<Int16>) {
    Replace<Int16>(s, [c], w) == Join<Int16>(w, SplitAll(s, c))
  }

  /** Replacing a unit by any string is splitting at it and joining again, exactly for the faithful strings. */
  lemma ReplaceIsJoinOfSplit(s: seq<Int16>, c: Int16)
    ensures (forall w :: ReplacesLikeSplit(s, c, w)) <==> Faithful(s, c)
  {
    if Faithful(s, c) {
      SplitYieldsFields(s, c);
      forall w
        ensures ReplacesLikeSplit(s, c, w)
      {
        ReplaceIsJoin<Int16>(s, c, w);
      }
    } else {
      ReplaceIsJoin<Int16>(s, c, [c]);
      JoinFields<Int16>(s, c);
      JoinSplitRoundTrip(s, c);
      assert !ReplacesLikeSplit(s, c, [c]);
    }
  }

  /** Splitting a join gives the fields back, exactly if the join is faithful. */
  lemma SplitJoinRoundTrip(fields: seq<seq<Int16>>, c: Int16)
    requires |fields| > 0 && forall k :: 0 <= k < |fields| ==> c !in fields[k]
    ensures SplitAll(Join<Int16>([c], fields), c) == fields <==> Faithful(Join<Int16>([c], fields), c)
  {
    FieldsJoin<Int16>(fields, c);
    SplitYieldsFields(Join<Int16>([c], fields), c);
  }

  /** A string that is not faithful: the unit U+0161 comes back as U+0061. */
  lemma WideUnitsAreLost()
    ensures SplitAll([0x161], 0x2C) == [[0x61]] && !Faithful([0x161], 0x2C)
  {
    var low := LowBytes([0x161]);
    assert low == [0x61];
    assert UpToZero(low[1..]) == [];
    assert UpToZero(low) == [0x61];
    OneDelimiter(0x2C);
    FieldsFirst<Int16>([0x61], {0x2C}, 1);
  }
}
