/** String.Split: the string is copied byte by byte into a zero-terminated buffer, strsep cuts the
    buffer into tokens in place, and every token becomes a string again. */
module StringSplit {
  import opened MachineIntegers
  import opened Strings
  import opened Text

  // ----- Units, bytes and zero-terminated strings

  /** The byte that is left of a unit. */
  function LowByte(x: Int16): (r: Int8) {
    (x + 0x80) % 0x100 - 0x80
  }

  function LowBytes(s: seq<Int16>): (r: seq<Int16>)
    ensures |r| == |s| && forall k :: 0 <= k < |s| ==> r[k] == LowByte(s[k])
  {
    seq(|s|, k requires 0 <= k < |s| => LowByte(s[k]) as Int16)
  }

  /** The byte is the unit's remainder, read as a signed byte. */
  lemma LowByteIsCongruent(x: Int16)
    ensures (x - LowByte(x)) % 0x100 == 0
  {
  }

  /** What precedes the first zero. */
  function UpToZero(s: seq<Int16>): (r: seq<Int16>) {
    if s == [] || s[0] == 0 then [] else [s[0]] + UpToZero(s[1..])
  }

  /** `end` is where the string that starts at `at` is terminated. */
  ghost predicate EndsAt(buf: seq<Int8>, at: nat, end: nat) {
    at <= end < |buf| && buf[end] == 0 && forall k :: at <= k < end ==> buf[k] != 0
  }

  lemma {:induction false} UpToZeroEnds(s: seq<Int16>, end: nat)
    requires end <= |s| && (end < |s| ==> s[end] == 0) && forall k :: 0 <= k < end ==> s[k] != 0
    ensures UpToZero(s) == s[..end]
  {
    if end > 0 {
      UpToZeroEnds(s[1..], end - 1);
      assert s[..end] == [s[0]] + s[1..][..end - 1];
    }
  }

  /** The string that is found in a buffer. */
  lemma BufferHolds(buf: seq<Int8>, s: seq<Int16>) returns (end: nat)
    requires |buf| == |s| + 1 && buf[|s|] == 0 && forall k :: 0 <= k < |s| ==> buf[k] == LowByte(s[k])
    ensures EndsAt(buf, 0, end) && buf[..end] == UpToZero(LowBytes(s))
  {
    end := 0;
    while buf[end] != 0
      invariant end <= |s| && forall k :: 0 <= k < end ==> buf[k] != 0
      decreases |s| - end
    {
      end := end + 1;
    }
    UpToZeroEnds(LowBytes(s), end);
    assert buf[..end] == LowBytes(s)[..end];
  }

  // ----- strsep

  /** Where the first separator is, or the end. */
  ghost predicate StopsAt(buf: seq<Int8>, at: nat, end: nat, separators: seq<Int8>, stop: nat)
    requires end < |buf|
  {
    && at <= stop <= end
    && (forall k :: at <= k < stop ==> buf[k] !in separators)
    && (stop < end ==> buf[stop] in separators)
  }

  /** Cuts the string at `at` in place at its first separator.  The next string starts at `next`,
      which is -1 (NULL) when there is none. */
  method Strsep(buf: array<Int8>, at: nat, delim: array<Int8>, ghost end: nat, ghost d: nat)
      returns (next: int, ghost stop: nat)
    requires buf != delim && EndsAt(buf[..], at, end) && EndsAt(delim[..], 0, d)
    modifies buf
    ensures StopsAt(old(buf[..]), at, end, delim[..d], stop)
    ensures next == if stop == end then -1 else stop + 1
    ensures buf[..] == old(buf[..])[stop := 0]
  {
    var s := at;
    while true
      invariant at <= s <= end
      invariant buf[..] == old(buf[..])
      invariant forall k :: at <= k < s ==> buf[k] !in delim[..d]
      decreases end - s
    {
      var c := buf[s];
      s := s + 1;
      var spanp := 0;
      while true
        invariant 0 <= spanp <= d
        invariant forall j :: 0 <= j < spanp ==> delim[j] != c
        invariant buf[..] == old(buf[..])
        decreases d - spanp
      {
        var sc := delim[spanp];
        spanp := spanp + 1;
        if sc == c {
          stop := s - 1;
          if c == 0 {
            next := -1;
          } else {
            assert delim[..d][spanp - 1] == c;
            buf[s - 1] := 0;
            next := s;
          }
          return;
        }
        if sc == 0 {
          break;
        }
      }
      assert c !in delim[..d];
    }
  }

  /** strlen. */
  method Strlen(buf: array<Int8>, at: nat, ghost end: nat) returns (n: nat)
    requires EndsAt(buf[..], at, end)
    ensures n == end - at
  {
    n := 0;
    while buf[at + n] != 0
      invariant n <= end - at
      decreases end - at - n
    {
      n := n + 1;
    }
  }

  /** A string of `n` bytes, each sign-extended to a unit. */
  method NewInstanceFromUTF8(buf: array<Int8>, at: nat, n: Count32) returns (s: StringObject?)
    requires at + n <= buf.Length
    ensures s == null <==> n > MAX_CAPACITY
    ensures s != null ==> fresh(s) && fresh(s.units) && s.Valid() && s.Contents() == buf[at..at + n]
  {
    var literal := new Int16[n](k requires 0 <= k < n && at + n <= buf.Length reads buf => buf[at + k]);
    s := NewInstance(literal, n);
    assert literal[..n] == buf[at..at + n];
  }

  // ----- What Split computes

  /** The separators as strsep sees them. */
  function Delimiters(separators: seq<Int16>): (r: set<Int16>) {
    Members(UpToZero(LowBytes(separators)))
  }

  function Members(s: seq<Int16>): (r: set<Int16>) {
    set x | x in s
  }

  /** A byte separates exactly if it is the low byte of a unit before which, and at which, no low byte is zero. */
  lemma DelimitersInPlainTerms(separators: seq<Int16>, x: Int16)
    ensures x in Delimiters(separators) <==> exists k :: SeparatesAt(separators, x, k)
  {
    var low := LowBytes(separators);
    var end := ZeroAt(low);
    UpToZeroEnds(low, end);
    if x in Delimiters(separators) {
      var k :| 0 <= k < end && low[..end][k] == x;
      assert SeparatesAt(separators, x, k);
    }
    if k :| SeparatesAt(separators, x, k) {
      assert k < end;
      assert low[..end][k] == x;
    }
  }

  ghost predicate SeparatesAt(separators: seq<Int16>, x: Int16, k: int) {
    0 <= k < |separators| && LowByte(separators[k]) == x && forall j :: 0 <= j <= k ==> LowByte(separators[j]) != 0
  }

  /** Where the first zero is, or the end. */
  lemma ZeroAt(s: seq<Int16>) returns (end: nat)
    ensures end <= |s| && (end < |s| ==> s[end] == 0) && forall k :: 0 <= k < end ==> s[k] != 0
  {
    end := 0;
    while end < |s| && s[end] != 0
      invariant end <= |s| && forall k :: 0 <= k < end ==> s[k] != 0
    {
      end := end + 1;
    }
  }

  /** All the tokens of `s`. */
  function Tokens(s: seq<Int16>, separators: seq<Int16>): (tokens: seq<seq<Int16>>)
    ensures |tokens| > 0
  {
    Fields<Int16>(UpToZero(LowBytes(s)), Delimiters(separators))
  }

  const REMOVE_EMPTY_ENTRIES: nat := 1

  /** The first `n` fields, without the empty ones if so asked. */
  function KeptOf(fields: seq<seq<Int16>>, n: nat, options: nat): (r: seq<seq<Int16>>)
    requires n <= |fields|
  {
    if n == 0 then []
    else if options == REMOVE_EMPTY_ENTRIES && fields[n - 1] == [] then KeptOf(fields, n - 1, options)
    else KeptOf(fields, n - 1, options) + [fields[n - 1]]
  }

  /** Without the option, the first `n` fields are all kept. */
  lemma {:induction false} KeepsAll(fields: seq<seq<Int16>>, n: nat, options: nat)
    requires n <= |fields| && options != REMOVE_EMPTY_ENTRIES
    ensures KeptOf(fields, n, options) == fields[..n]
  {
    if n > 0 {
      KeepsAll(fields, n - 1, options);
    }
  }

  /** How many of `n` tokens are cut off: the first `count`, but at least one. */
  function TokenLimit(n: nat, count: nat): (limit: nat)
    requires n > 0
    ensures 1 <= limit <= n
  {
    if count == 0 then 1 else if count < n then count else n
  }

  function SplitResult(s: seq<Int16>, separators: seq<Int16>, count: nat, options: nat): (r: seq<seq<Int16>>) {
    var all := Tokens(s, separators);
    KeptOf(all, TokenLimit(|all|, count), options)
  }

  ghost predicate IsString(token: StringObject, contents: seq<Int16>, repr: set<object>)
    reads repr
  {
    token in repr && token.units in repr && token.Valid() && token.Contents() == contents
  }

  /** `tokens` are strings with these contents; they and their storage are in `repr`. */
  ghost predicate AreStrings(tokens: seq<StringObject>, contents: seq<seq<Int16>>, repr: set<object>)
    reads repr
  {
    && |tokens| == |contents|
    && forall k :: 0 <= k < |tokens| ==> IsString(tokens[k], contents[k], repr)
  }

  /** getUTF8copy, and likewise the copy of the separators: the low bytes and a terminating zero. */
  method CopyLowBytes(units: array<Int16>, n: nat) returns (buf: array<Int8>)
    requires n <= units.Length
    ensures fresh(buf) && buf.Length == n + 1 && buf[n] == 0
    ensures forall k :: 0 <= k < n ==> buf[k] == LowByte(units[k])
  {
    buf := new Int8[n + 1](_ => 0);
    for i := 0 to n
      invariant buf[n] == 0 && forall k :: 0 <= k < i ==> buf[k] == LowByte(units[k])
    {
      buf[i] := LowByte(units[i]);
    }
  }

  /** From the `i`-th on, the fields in `all` are those of the string that starts at `at` in the buffer. */
  ghost predicate Left(buf: seq<Int8>, at: int, end: nat, separators: set<Int16>, all: seq<seq<Int16>>, i: nat) {
    && i <= |all|
    && if at < 0 then i == |all|
       else EndsAt(buf, at, end) && Fields<Int16>(buf[at..end], separators) == all[i..]
  }

  lemma OneToken(buf: seq<Int8>, at: nat, end: nat, delim: seq<Int8>, separators: set<Int16>,
                 all: seq<seq<Int16>>, i: nat, stop: nat)
    requires Left(buf, at, end, separators, all, i) && StopsAt(buf, at, end, delim, stop)
    requires separators == Members(delim)
    ensures i < |all| && all[i] == buf[at..stop]
    ensures Left(buf[stop := 0], if stop == end then -1 else stop + 1, end, separators, all, i + 1)
    ensures EndsAt(buf[stop := 0], at, stop)
  {
    var text: seq<Int16> := buf[at..end];
    FieldsFirst<Int16>(text, separators, stop - at);
    assert text[..stop - at] == buf[at..stop];
    assert all[i] == all[i..][0] && all[i + 1..] == all[i..][1..];
    if stop < end {
      assert text[stop - at] == buf[stop];
      assert text[stop - at + 1..] == buf[stop + 1..end] == buf[stop := 0][stop + 1..end];
    }
  }

  /** The next token as a string of its own, and where the one after it starts. */
  method NextToken(buf: array<Int8>, at: nat, delim: array<Int8>, ghost end: nat, ghost d: nat,
                   ghost all: seq<seq<Int16>>, ghost i: nat)
      returns (next: int, token: StringObject)
    requires buf != delim && EndsAt(delim[..], 0, d)
    requires Left(buf[..], at, end, Members(delim[..d]), all, i) && buf.Length <= MAX_CAPACITY + 1
    modifies buf
    ensures i < |all| && Left(buf[..], next, end, Members(delim[..d]), all, i + 1)
    ensures fresh(token) && fresh(token.units) && token.Valid() && token.Contents() == all[i]
  {
    ghost var before, stop := buf[..], 0;
    next, stop := Strsep(buf, at, delim, end, d);
    OneToken(before, at, end, delim[..d], Members(delim[..d]), all, i, stop);
    var n := Strlen(buf, at, stop);
    var made := NewInstanceFromUTF8(buf, at, n);
    token := made;
    assert buf[at..stop] == before[at..stop];
  }

  /** Appends the token to the list, unless it is empty and those are not wanted. */
  method KeepToken(tokens: seq<StringObject>, token: StringObject, options: nat,
                   ghost all: seq<seq<Int16>>, ghost i: nat, ghost repr: set<object>)
      returns (tokens': seq<StringObject>)
    requires i < |all| && AreStrings(tokens, KeptOf(all, i, options), repr)
    requires token.Valid() && token.Contents() == all[i]
    ensures AreStrings(tokens', KeptOf(all, i + 1, options), repr + {token, token.units})
  {
    tokens' := tokens;
    if options != REMOVE_EMPTY_ENTRIES || token.length != 0 {
      tokens' := tokens + [token];
    }
    forall k | 0 <= k < |tokens|
      ensures IsString(tokens[k], KeptOf(all, i, options)[k], repr + {token, token.units})
    {
      assert IsString(tokens[k], KeptOf(all, i, options)[k], repr);
    }
    assert IsString(token, all[i], repr + {token, token.units});
  }

  /** The buffer strsep will cut up and the separators it will look for. */
  method Prepare(self: StringObject, separators: array<Int16>)
      returns (buf: array<Int8>, delim: array<Int8>, ghost end: nat, ghost d: nat)
    requires self.Valid()
    ensures fresh(buf) && fresh(delim) && buf != delim && EndsAt(delim[..], 0, d) && buf.Length == self.length + 1
    ensures Left(buf[..], 0, end, Members(delim[..d]), Tokens(self.Contents(), separators[..]), 0)
  {
    buf := CopyLowBytes(self.units, self.length);
    delim := CopyLowBytes(separators, separators.Length);
    end := BufferHolds(buf[..], self.Contents());
    d := BufferHolds(delim[..], separators[..]);
    assert delim[..d] == UpToZero(LowBytes(separators[..]));
    assert buf[..][0..end] == UpToZero(LowBytes(self.Contents()));
    assert Tokens(self.Contents(), separators[..])[0..] == Tokens(self.Contents(), separators[..]);
  }

  /** Before the `i`-th turn of the token loop. */
  ghost predicate Splitting(buf: array<Int8>, at: int, delim: array<Int8>, tokens: seq<StringObject>, options: nat,
                            end: nat, d: nat, all: seq<seq<Int16>>, i: nat, repr: set<object>)
    reads buf, delim, repr
  {
    && buf != delim && buf !in repr && delim !in repr && EndsAt(delim[..], 0, d) && buf.Length <= MAX_CAPACITY + 1
    && Left(buf[..], at, end, Members(delim[..d]), all, i)
    && i <= |all| && AreStrings(tokens, KeptOf(all, i, options), repr)
  }

  /** One turn of the token loop. */
  method TakeToken(buf: array<Int8>, at: nat, delim: array<Int8>, tokens: seq<StringObject>, options: nat,
                   ghost end: nat, ghost d: nat, ghost all: seq<seq<Int16>>, ghost i: nat, ghost repr: set<object>)
      returns (next: int, tokens': seq<StringObject>, ghost repr': set<object>)
    requires Splitting(buf, at, delim, tokens, options, end, d, all, i, repr)
    modifies buf
    ensures i < |all| && (next < 0 ==> i + 1 == |all|) && (next >= 0 ==> i + 1 < |all|)
    ensures Splitting(buf, next, delim, tokens', options, end, d, all, i + 1, repr')
    ensures fresh(repr' - repr)
  {
    var token;
    next, token := NextToken(buf, at, delim, end, d, all, i);
    tokens' := KeepToken(tokens, token, options, all, i, repr);
    repr' := repr + {token, token.units};
  }

  /** The token loop. */
  method SplitBuffer(buf: array<Int8>, delim: array<Int8>, count: nat, options: nat,
                     ghost end: nat, ghost d: nat, ghost all: seq<seq<Int16>>)
      returns (tokens: seq<StringObject>, ghost repr: set<object>)
    requires buf != delim && EndsAt(delim[..], 0, d) && |all| > 0
    requires Left(buf[..], 0, end, Members(delim[..d]), all, 0) && buf.Length <= MAX_CAPACITY + 1
    modifies buf
    ensures AreStrings(tokens, KeptOf(all, TokenLimit(|all|, count), options), repr) && fresh(repr)
  {
    var at: int := 0;
    var i := 0;
    tokens, repr := [], {};
    while true
      invariant 0 <= i < |all| && (i == 0 || i < count) && at >= 0
      invariant Splitting(buf, at, delim, tokens, options, end, d, all, i, repr) && fresh(repr)
      decreases |all| - i
    {
      at, tokens, repr := TakeToken(buf, at, delim, tokens, options, end, d, all, i, repr);
      i := i + 1;
      if !(at >= 0 && i < count) {
        break;
      }
    }
  }

  method InternalSplit(self: StringObject, separators: array<Int16>, count: nat, options: nat)
      returns (tokens: seq<StringObject>, ghost repr: set<object>)
    requires self.Valid()
    ensures AreStrings(tokens, SplitResult(self.Contents(), separators[..], count, options), repr) && fresh(repr)
    ensures var all := Fields<Int16>(UpToZero(LowBytes(self.Contents())), Delimiters(separators[..]));
      options != 1 ==>
        && |tokens| == (if count == 0 then 1 else if count < |all| then count else |all|)
        && forall k :: 0 <= k < |tokens| ==> tokens[k].Valid() && tokens[k].Contents() == all[k]
    ensures |tokens| == |SplitResult(self.Contents(), separators[..], count, options)|
    ensures forall k :: 0 <= k < |tokens| ==>
      && fresh(tokens[k]) && fresh(tokens[k].units) && tokens[k].Valid()
      && tokens[k].Contents() == SplitResult(self.Contents(), separators[..], count, options)[k]
  {
    ghost var all := Tokens(self.Contents(), separators[..]);
    var buf, delim;
    ghost var end, d;
    buf, delim, end, d := Prepare(self, separators);
    tokens, repr := SplitBuffer(buf, delim, count, options, end, d, all);
    forall k | 0 <= k < |tokens|
      ensures fresh(tokens[k]) && fresh(tokens[k].units) && tokens[k].Valid()
      ensures tokens[k].Contents() == KeptOf(all, TokenLimit(|all|, count), options)[k]
    {
      assert IsString(tokens[k], KeptOf(all, TokenLimit(|all|, count), options)[k], repr);
    }
    if options != 1 {
      KeepsAll(all, TokenLimit(|all|, count), options);
    }
  }
}
