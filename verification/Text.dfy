/** Replacement, splitting and joining on sequences: what the string algorithms of the runtime
    compute, and the laws that tie the three together. */
module Text {

  // ----- Occurrences

  predicate MatchAt<T(==)>(s: seq<T>, needle: seq<T>, at: int) {
    0 <= at && at + |needle| <= |s| && s[at..at + |needle|] == needle
  }

  ghost predicate Occurs<T>(s: seq<T>, needle: seq<T>) {
    exists at :: MatchAt(s, needle, at)
  }

  // ----- Replacement

  /** Left to right: a needle at the front is replaced and skipped, anything else is kept. */
  function Replace<T(==)>(s: seq<T>, needle: seq<T>, w: seq<T>): (r: seq<T>)
    requires |needle| > 0
  {
    if |s| < |needle| then s
    else if MatchAt(s, needle, 0) then w + Replace(s[|needle|..], needle, w)
    else [s[0]] + Replace(s[1..], needle, w)
  }

  ghost function AllMatches<T>(s: seq<T>, needle: seq<T>): (r: set<nat>) {
    set at: nat | at <= |s| && MatchAt(s, needle, at)
  }

  ghost predicate Covers(ps: seq<nat>, n: nat, at: nat) {
    exists k :: 0 <= k < |ps| && ps[k] <= at < ps[k] + n
  }

  /** `ps` picks, of the places `all` where something of length `n` matches, the leftmost non-overlapping
      ones from `from` on: every match is one of them or begins inside one of them. */
  ghost predicate Leftmost(all: set<nat>, n: nat, from: nat, ps: seq<nat>) {
    && (forall k :: 0 <= k < |ps| ==> from <= ps[k])
    && (forall k {:trigger ps[k] in all} :: 0 <= k < |ps| ==> ps[k] in all)
    && (forall k, l :: 0 <= k < l < |ps| ==> ps[k] + n <= ps[l])
    && (forall at {:trigger at in all} :: at in all && from <= at ==> Covers(ps, n, at))
  }

  /** Places between `from` and `to` where pieces of length `n` can be cut out. */
  ghost predicate Apart(from: nat, ps: seq<nat>, n: nat, to: nat)
    decreases |ps|
  {
    ps == [] || (from <= ps[0] && ps[0] + n <= to && Apart(ps[0] + n, ps[1..], n, to))
  }

  /** `s` from `from` on, with the `n` elements at each of the places `ps` exchanged for `w`. */
  ghost function Spliced<T>(s: seq<T>, from: nat, ps: seq<nat>, n: nat, w: seq<T>): (r: seq<T>)
    requires from <= |s|
    requires Apart(from, ps, n, |s|)
    decreases |ps|
  {
    if ps == [] then s[from..]
    else s[from..ps[0]] + w + Spliced(s, ps[0] + n, ps[1..], n, w)
  }

  ghost function Matches<T>(s: seq<T>, needle: seq<T>, from: nat): (r: seq<nat>)
    requires |needle| > 0 && from <= |s|
    decreases |s| - from
  {
    if from + |needle| > |s| then []
    else if MatchAt(s, needle, from) then [from] + Matches(s, needle, from + |needle|)
    else Matches(s, needle, from + 1)
  }

  lemma CoversCons(p: nat, ps: seq<nat>, n: nat, at: nat)
    ensures Covers([p] + ps, n, at) <==> p <= at < p + n || Covers(ps, n, at)
  {
    var qs := [p] + ps;
    if Covers(ps, n, at) {
      var k :| 0 <= k < |ps| && ps[k] <= at < ps[k] + n;
      assert qs[k + 1] == ps[k];
    }
    if p <= at < p + n {
      assert qs[0] == p;
    }
  }

  lemma LeftmostCons(all: set<nat>, n: nat, from: nat, rest: seq<nat>)
    requires n > 0 && from in all && Leftmost(all, n, from + n, rest)
    ensures Leftmost(all, n, from, [from] + rest)
  {
    forall at | at in all && from <= at
      ensures Covers([from] + rest, n, at)
    {
      CoversCons(from, rest, n, at);
    }
  }

  lemma LeftmostStart(all: set<nat>, n: nat, from: nat, ps: seq<nat>)
    requires n > 0 && from in all && Leftmost(all, n, from, ps)
    ensures |ps| > 0 && ps[0] == from && ps == [from] + ps[1..]
  {
    assert Covers(ps, n, from);
  }

  lemma LeftmostTail(all: set<nat>, n: nat, from: nat, ps: seq<nat>)
    requires n > 0 && from in all && Leftmost(all, n, from, ps)
    ensures |ps| > 0 && ps[0] == from && Leftmost(all, n, from + n, ps[1..])
  {
    LeftmostStart(all, n, from, ps);
    var rest := ps[1..];
    forall at | at in all && from + n <= at
      ensures Covers(rest, n, at)
    {
      CoversCons(from, rest, n, at);
    }
    forall k | 0 <= k < |rest|
      ensures rest[k] in all && from + n <= rest[k]
    {
      assert ps[k + 1] in all;
    }
  }

  lemma LeftmostSkip(all: set<nat>, n: nat, from: nat, ps: seq<nat>)
    requires from !in all
    ensures Leftmost(all, n, from, ps) <==> Leftmost(all, n, from + 1, ps)
  {
    if Leftmost(all, n, from, ps) {
      forall k | 0 <= k < |ps|
        ensures from + 1 <= ps[k]
      {
        assert ps[k] in all;
      }
    }
  }

  lemma NoRoomLeft<T>(s: seq<T>, needle: seq<T>, from: nat, ps: seq<nat>)
    requires from + |needle| > |s| && Leftmost(AllMatches(s, needle), |needle|, from, ps)
    ensures ps == []
  {
    if ps != [] {
      RoomAt(s, needle, from, ps, 0);
    }
  }

  lemma RoomAt<T>(s: seq<T>, needle: seq<T>, from: nat, ps: seq<nat>, k: nat)
    requires k < |ps| && Leftmost(AllMatches(s, needle), |needle|, from, ps)
    ensures from + |needle| <= |s|
  {
    assert ps[k] in AllMatches(s, needle);
  }

  lemma {:induction false} MatchesAreLeftmost<T>(s: seq<T>, needle: seq<T>, from: nat)
    requires |needle| > 0 && from <= |s|
    ensures Leftmost(AllMatches(s, needle), |needle|, from, Matches(s, needle, from))
    decreases |s| - from
  {
    if from + |needle| <= |s| {
      if MatchAt(s, needle, from) {
        MatchesAreLeftmost(s, needle, from + |needle|);
        LeftmostCons(AllMatches(s, needle), |needle|, from, Matches(s, needle, from + |needle|));
      } else {
        MatchesAreLeftmost(s, needle, from + 1);
        LeftmostSkip(AllMatches(s, needle), |needle|, from, Matches(s, needle, from + 1));
      }
    }
  }

  lemma LeftmostStep<T>(s: seq<T>, needle: seq<T>, from: nat, ps: seq<nat>) returns (rest: seq<nat>)
    requires |needle| > 0 && from + |needle| <= |s| && Leftmost(AllMatches(s, needle), |needle|, from, ps)
    ensures var found := MatchAt(s, needle, from);
      && ps == (if found then [from] + rest else rest)
      && Leftmost(AllMatches(s, needle), |needle|, if found then from + |needle| else from + 1, rest)
  {
    if MatchAt(s, needle, from) {
      LeftmostTail(AllMatches(s, needle), |needle|, from, ps);
      rest := ps[1..];
    } else {
      LeftmostSkip(AllMatches(s, needle), |needle|, from, ps);
      rest := ps;
    }
  }

  /** There is only one way to choose the leftmost matches. */
  lemma {:induction false} LeftmostIsUnique<T>(s: seq<T>, needle: seq<T>, from: nat, ps: seq<nat>)
    requires |needle| > 0 && from <= |s| && Leftmost(AllMatches(s, needle), |needle|, from, ps)
    ensures ps == Matches(s, needle, from)
    decreases |s| - from
  {
    if from + |needle| > |s| {
      NoRoomLeft(s, needle, from, ps);
    } else {
      var rest := LeftmostStep(s, needle, from, ps);
      LeftmostIsUnique(s, needle, if MatchAt(s, needle, from) then from + |needle| else from + 1, rest);
    }
  }

  lemma MatchInSuffix<T>(s: seq<T>, needle: seq<T>, from: nat, at: nat)
    requires from <= |s|
    ensures MatchAt(s[from..], needle, at) == MatchAt(s, needle, from + at)
  {
    if from + at + |needle| <= |s| {
      assert s[from..][at..at + |needle|] == s[from + at..from + at + |needle|];
    }
  }

  /** Replacement in what is left of `s` from `at` on. */
  ghost function ReplaceFrom<T>(s: seq<T>, needle: seq<T>, w: seq<T>, at: nat): (r: seq<T>)
    requires |needle| > 0 && at <= |s|
    decreases |s| - at
  {
    if at + |needle| > |s| then s[at..]
    else if MatchAt(s, needle, at) then w + ReplaceFrom(s, needle, w, at + |needle|)
    else [s[at]] + ReplaceFrom(s, needle, w, at + 1)
  }

  /** One step of the replacement in a suffix. */
  lemma ReplaceInSuffix<T>(s: seq<T>, needle: seq<T>, w: seq<T>, at: nat)
    requires |needle| > 0 && at + |needle| <= |s|
    ensures Replace(s[at..], needle, w) ==
      if MatchAt(s, needle, at) then w + Replace(s[at + |needle|..], needle, w)
      else [s[at]] + Replace(s[at + 1..], needle, w)
  {
    MatchInSuffix(s, needle, at, 0);
    assert s[at..][|needle|..] == s[at + |needle|..];
    assert s[at..][1..] == s[at + 1..];
  }

  lemma {:induction false} ReplaceFromIsReplace<T>(s: seq<T>, needle: seq<T>, w: seq<T>, at: nat)
    requires |needle| > 0 && at <= |s|
    ensures ReplaceFrom(s, needle, w, at) == Replace(s[at..], needle, w)
    decreases |s| - at
  {
    if at + |needle| <= |s| {
      ReplaceInSuffix(s, needle, w, at);
      ReplaceFromIsReplace(s, needle, w, if MatchAt(s, needle, at) then at + |needle| else at + 1);
    }
  }

  lemma Prepend<T>(x: T, a: seq<T>, b: seq<T>)
    ensures [x] + (a + b) == ([x] + a) + b
  {
  }

  /** Where nothing matches, everything is kept. */
  lemma {:induction false} ReplaceSkips<T>(s: seq<T>, needle: seq<T>, w: seq<T>, from: nat, p: nat)
    requires |needle| > 0 && from <= p && p + |needle| <= |s|
    requires forall at {:trigger MatchAt(s, needle, at)} :: from <= at < p ==> !MatchAt(s, needle, at)
    ensures ReplaceFrom(s, needle, w, from) == s[from..p] + ReplaceFrom(s, needle, w, p)
    decreases p - from
  {
    if from < p {
      ReplaceSkips(s, needle, w, from + 1, p);
      Prepend(s[from], s[from + 1..p], ReplaceFrom(s, needle, w, p));
      assert s[from..p] == [s[from]] + s[from + 1..p];
    }
  }

  lemma {:induction false} ReplaceFromFirstMatch<T>(s: seq<T>, needle: seq<T>, w: seq<T>, p: nat)
    requires |needle| > 0 && MatchAt(s, needle, p)
    requires forall at {:trigger MatchAt(s, needle, at)} :: 0 <= at < p ==> !MatchAt(s, needle, at)
    ensures ReplaceFrom(s, needle, w, 0) == s[..p] + (w + ReplaceFrom(s, needle, w, p + |needle|))
  {
    ReplaceSkips(s, needle, w, 0, p);
    ReplaceFromMatch(s, needle, w, p);
    assert s[0..p] == s[..p];
  }

  lemma {:induction false} ReplaceIsFromStart<T>(s: seq<T>, needle: seq<T>, w: seq<T>)
    requires |needle| > 0
    ensures ReplaceFrom(s, needle, w, 0) == Replace(s, needle, w)
  {
    ReplaceFromIsReplace(s, needle, w, 0);
    assert s[0..] == s;
  }

  /** The first match is replaced; then the rest.  With `ReplaceAbsent` that determines the replacement. */
  lemma {:induction false} ReplaceAtFirstMatch<T>(s: seq<T>, needle: seq<T>, w: seq<T>, p: nat)
    requires |needle| > 0 && MatchAt(s, needle, p)
    requires forall at {:trigger MatchAt(s, needle, at)} :: 0 <= at < p ==> !MatchAt(s, needle, at)
    ensures Replace(s, needle, w) == s[..p] + (w + Replace(s[p + |needle|..], needle, w))
  {
    ReplaceFromFirstMatch(s, needle, w, p);
    ReplaceIsFromStart(s, needle, w);
    ReplaceFromIsReplace(s, needle, w, p + |needle|);
  }

  lemma ReplaceFromMatch<T>(s: seq<T>, needle: seq<T>, w: seq<T>, p: nat)
    requires |needle| > 0 && MatchAt(s, needle, p)
    ensures ReplaceFrom(s, needle, w, p) == w + ReplaceFrom(s, needle, w, p + |needle|)
  {
  }

  lemma SplicedSkip<T>(s: seq<T>, from: nat, ps: seq<nat>, n: nat, w: seq<T>)
    requires from < |s|
    requires Apart(from + 1, ps, n, |s|)
    ensures Spliced(s, from, ps, n, w) == [s[from]] + Spliced(s, from + 1, ps, n, w)
  {
    if ps == [] {
      assert s[from..] == [s[from]] + s[from + 1..];
    } else {
      var tail := Spliced(s, ps[0] + n, ps[1..], n, w);
      assert s[from..ps[0]] + w + tail == [s[from]] + (s[from + 1..ps[0]] + w + tail);
    }
  }

  lemma SplicedMatch<T>(s: seq<T>, from: nat, rest: seq<nat>, n: nat, w: seq<T>)
    requires from + n <= |s| && Apart(from + n, rest, n, |s|)
    ensures Apart(from, [from] + rest, n, |s|)
    ensures Spliced(s, from, [from] + rest, n, w) == w + Spliced(s, from + n, rest, n, w)
  {
    assert ([from] + rest)[1..] == rest;
    assert s[from..from] == [];
  }

  lemma ApartSkip(from: nat, ps: seq<nat>, n: nat, to: nat)
    requires Apart(from + 1, ps, n, to)
    ensures Apart(from, ps, n, to)
  {
  }

  /** `r` is `s` from `from` on with the pieces at `ps` exchanged. */
  ghost predicate IsSpliced<T>(r: seq<T>, s: seq<T>, from: nat, ps: seq<nat>, n: nat, w: seq<T>) {
    from <= |s| && Apart(from, ps, n, |s|) && r == Spliced(s, from, ps, n, w)
  }

  lemma IsSplicedMatch<T>(r: seq<T>, s: seq<T>, from: nat, rest: seq<nat>, n: nat, w: seq<T>)
    requires IsSpliced(r, s, from + n, rest, n, w)
    ensures IsSpliced(w + r, s, from, [from] + rest, n, w)
  {
    SplicedMatch(s, from, rest, n, w);
  }

  lemma IsSplicedSkip<T>(r: seq<T>, s: seq<T>, from: nat, ps: seq<nat>, n: nat, w: seq<T>)
    requires IsSpliced(r, s, from + 1, ps, n, w)
    ensures IsSpliced([s[from]] + r, s, from, ps, n, w)
  {
    ApartSkip(from, ps, n, |s|);
    SplicedSkip(s, from, ps, n, w);
  }

  /** Replacement exchanges the matches that the scan finds. */
  lemma {:induction false} ReplaceSplices<T>(s: seq<T>, needle: seq<T>, w: seq<T>, from: nat)
    requires |needle| > 0 && from <= |s|
    ensures IsSpliced(ReplaceFrom(s, needle, w, from), s, from, Matches(s, needle, from), |needle|, w)
    decreases |s| - from
  {
    if from + |needle| <= |s| {
      var next := if MatchAt(s, needle, from) then from + |needle| else from + 1;
      ReplaceSplices(s, needle, w, next);
      if MatchAt(s, needle, from) {
        IsSplicedMatch(ReplaceFrom(s, needle, w, next), s, from, Matches(s, needle, next), |needle|, w);
      } else {
        IsSplicedSkip(ReplaceFrom(s, needle, w, next), s, from, Matches(s, needle, next), |needle|, w);
      }
    }
  }

  lemma OneMoreTimes(n: nat, d: int)
    requires n > 0
    ensures n * d == (n - 1) * d + d
  {
  }

  lemma {:induction false} SplicedLength<T>(s: seq<T>, from: nat, ps: seq<nat>, n: nat, w: seq<T>)
    requires from <= |s| && Apart(from, ps, n, |s|)
    ensures |Spliced(s, from, ps, n, w)| == |s| - from + |ps| * (|w| - n)
    decreases |ps|
  {
    if ps != [] {
      SplicedLength(s, ps[0] + n, ps[1..], n, w);
      OneMoreTimes(|ps|, |w| - n);
    }
  }

  /** Replacement exchanges exactly the leftmost non-overlapping matches, and these are well defined. */
  lemma ReplaceIsLeftmost<T>(s: seq<T>, needle: seq<T>, w: seq<T>) returns (ps: seq<nat>)
    requires |needle| > 0
    ensures Leftmost(AllMatches(s, needle), |needle|, 0, ps)
    ensures forall qs :: Leftmost(AllMatches(s, needle), |needle|, 0, qs) ==> qs == ps
    ensures Apart(0, ps, |needle|, |s|)
    ensures Replace(s, needle, w) == Spliced(s, 0, ps, |needle|, w)
    ensures |Replace(s, needle, w)| == |s| + |ps| * (|w| - |needle|)
  {
    ps := Matches(s, needle, 0);
    MatchesAreLeftmost(s, needle, 0);
    forall qs | Leftmost(AllMatches(s, needle), |needle|, 0, qs)
      ensures qs == ps
    {
      LeftmostIsUnique(s, needle, 0, qs);
    }
    ReplaceSplices(s, needle, w, 0);
    SplicedLength(s, 0, ps, |needle|, w);
    ReplaceFromIsReplace(s, needle, w, 0);
    assert s[0..] == s;
  }

  /** Without an occurrence nothing is replaced. */
  lemma {:induction false} ReplaceAbsent<T>(s: seq<T>, needle: seq<T>, w: seq<T>)
    requires |needle| > 0 && !Occurs(s, needle)
    ensures Replace(s, needle, w) == s
  {
    if |s| >= |needle| {
      assert !MatchAt(s, needle, 0);
      forall at | MatchAt(s[1..], needle, at)
        ensures false
      {
        MatchInSuffix(s, needle, 1, at);
      }
      ReplaceAbsent(s[1..], needle, w);
    }
  }

  lemma NoUnit<T>(s: seq<T>, c: T)
    ensures Occurs(s, [c]) <==> c in s
  {
    if c in s {
      var at :| 0 <= at < |s| && s[at] == c;
      assert MatchAt(s, [c], at);
    }
    if Occurs(s, [c]) {
      var at :| MatchAt(s, [c], at);
      assert s[at] == s[at..at + 1][0];
    }
  }

  lemma ReplaceUnitStep<T>(x: T, s: seq<T>, c: T, w: seq<T>)
    ensures Replace([x] + s, [c], w) == (if x == c then w else [x]) + Replace(s, [c], w)
  {
    assert ([x] + s)[1..] == s;
    assert MatchAt([x] + s, [c], 0) == (x == c);
  }

  /** A fresh unit can stand for the needle and be turned back into it. */
  lemma {:induction false} ReplaceRoundTrip<T>(s: seq<T>, needle: seq<T>, c: T)
    requires |needle| > 0 && c !in s
    ensures Replace(Replace(s, needle, [c]), [c], needle) == s
  {
    if |s| < |needle| {
      NoUnit(s, c);
      ReplaceAbsent(s, [c], needle);
    } else if MatchAt(s, needle, 0) {
      var rest := s[|needle|..];
      ReplaceRoundTrip(rest, needle, c);
      ReplaceUnitStep(c, Replace(rest, needle, [c]), c, needle);
      assert s == needle + rest;
    } else {
      ReplaceRoundTrip(s[1..], needle, c);
      ReplaceUnitStep(s[0], Replace(s[1..], needle, [c]), c, needle);
      assert s == [s[0]] + s[1..] && s[0] in s;
    }
  }

  // ----- Fields and join

  /** The fields between the separators, empty ones included; there is always at least one. */
  function Fields<T(==)>(s: seq<T>, separators: set<T>): (fields: seq<seq<T>>)
    ensures |fields| > 0
  {
    if s == [] then [[]]
    else
      var rest := Fields(s[1..], separators);
      if s[0] in separators then [[]] + rest else [[s[0]] + rest[0]] + rest[1..]
  }

  function Join<T>(w: seq<T>, fields: seq<seq<T>>): (r: seq<T>)
    requires |fields| > 0
  {
    if |fields| == 1 then fields[0] else fields[0] + w + Join(w, fields[1..])
  }

  lemma JoinPrepend<T>(w: seq<T>, x: seq<T>, fields: seq<seq<T>>)
    requires |fields| > 0
    ensures Join(w, [x + fields[0]] + fields[1..]) == x + Join(w, fields)
  {
    assert ([x + fields[0]] + fields[1..])[1..] == fields[1..];
    if |fields| > 1 {
      assert (x + fields[0]) + w + Join(w, fields[1..]) == x + (fields[0] + w + Join(w, fields[1..]));
    }
  }

  /** Replacing one unit is splitting at it and joining again, whatever it is replaced by. */
  lemma {:induction false} ReplaceIsJoin<T>(s: seq<T>, c: T, w: seq<T>)
    ensures Replace(s, [c], w) == Join(w, Fields(s, {c}))
  {
    if s != [] {
      ReplaceIsJoin(s[1..], c, w);
      assert s == [s[0]] + s[1..];
      ReplaceUnitStep(s[0], s[1..], c, w);
      var rest := Fields(s[1..], {c});
      if s[0] == c {
        assert ([[]] + rest)[1..] == rest;
        assert [] + w == w;
      } else {
        JoinPrepend(w, [s[0]], rest);
      }
    }
  }

  lemma {:induction false} JoinFields<T>(s: seq<T>, c: T)
    ensures Join([c], Fields(s, {c})) == s
  {
    if s != [] {
      JoinFields(s[1..], c);
      var rest := Fields(s[1..], {c});
      if s[0] == c {
        assert ([[]] + rest)[1..] == rest;
        assert s == [] + [c] + s[1..];
      } else {
        JoinPrepend([c], [s[0]], rest);
      }
    }
  }

  /** The first field ends at the first separator. */
  lemma {:induction false} FieldsFirst<T>(s: seq<T>, separators: set<T>, n: nat)
    requires n <= |s| && forall k :: 0 <= k < n ==> s[k] !in separators
    ensures n == |s| ==> Fields(s, separators) == [s]
    ensures n < |s| && s[n] in separators ==> Fields(s, separators) == [s[..n]] + Fields(s[n + 1..], separators)
  {
    if n > 0 {
      FieldsFirst(s[1..], separators, n - 1);
      if n < |s| {
        assert s[1..][n..] == s[n + 1..];
        assert s[..n] == [s[0]] + s[1..][..n - 1];
      } else {
        assert s == [s[0]] + s[1..];
      }
    } else if |s| > 0 {
      assert s[0 + 1..] == s[1..] && s[..0] == [];
    }
  }

  /** No field contains a separator. */
  lemma {:induction false} FieldsAreFree<T>(s: seq<T>, separators: set<T>)
    ensures forall k, x :: 0 <= k < |Fields(s, separators)| && x in Fields(s, separators)[k] ==> x !in separators
  {
    if s != [] {
      FieldsAreFree(s[1..], separators);
    }
  }

  lemma {:induction false} FieldsJoin<T>(fields: seq<seq<T>>, c: T)
    requires |fields| > 0 && forall k :: 0 <= k < |fields| ==> c !in fields[k]
    ensures Fields(Join([c], fields), {c}) == fields
  {
    var s := Join([c], fields);
    if |fields| == 1 {
      FieldsFirst(s, {c}, |s|);
    } else {
      var n := |fields[0]|;
      assert s[n] == c && s[..n] == fields[0] && s[n + 1..] == Join([c], fields[1..]);
      assert forall k :: 0 <= k < n ==> s[k] == fields[0][k];
      FieldsFirst(s, {c}, n);
      FieldsJoin(fields[1..], c);
    }
  }

  /** The fields are the only list of pieces without a separator that joins to the sequence. */
  lemma FieldsAreTheOnlySplit<T>(s: seq<T>, c: T, fields: seq<seq<T>>)
    requires |fields| > 0
    ensures fields == Fields(s, {c}) <==>
      Join([c], fields) == s && forall k :: 0 <= k < |fields| ==> c !in fields[k]
  {
    JoinFields(s, c);
    FieldsAreFree(s, {c});
    if Join([c], fields) == s && forall k :: 0 <= k < |fields| ==> c !in fields[k] {
      FieldsJoin(fields, c);
    }
  }

  /** A match, element by element. */
  lemma MatchInPlainTerms<T>(s: seq<T>, needle: seq<T>, at: int)
    ensures MatchAt(s, needle, at) <==>
      0 <= at && at + |needle| <= |s| && forall k :: 0 <= k < |needle| ==> s[at + k] == needle[k]
  {
    if 0 <= at && at + |needle| <= |s| {
      if MatchAt(s, needle, at) {
        forall k | 0 <= k < |needle|
          ensures s[at + k] == needle[k]
        {
          assert s[at..at + |needle|][k] == needle[k];
        }
      }
    }
  }
}
