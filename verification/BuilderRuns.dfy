/** Whole runs of a StringBuilder: any sequence of edits, with the string handed out at any moment.
    The builder follows BuilderModel edit by edit, and no string that others hold ever changes. */
module BuilderRuns {
  import opened MachineIntegers
  import opened Strings
  import opened BuilderModel
  import opened StringBuilders

  /** What a command names as its string: one that others hold from the start, null, or the `k`-th string
      that the builder itself has handed out. */
  datatype Argument = Given(value: StringObject?) | HandedOut(k: nat)

  type Command = Edit<Argument>

  /** An edit as it is called for, with strings as arguments. */
  type Call = Edit<StringObject?>

  type Texts = map<StringObject, seq<Int16>>

  predicate HasArgument<T>(edit: Edit<T>) {
    edit.AppendText? || edit.InsertText? || edit.InsertTextTimes?
  }

  /** The edits are of one kind and agree in all numbers and units. */
  predicate SameButText<T, U>(e: Edit<T>, f: Edit<U>) {
    || (e.ReplaceUnits? && f.ReplaceUnits? && e.oldUnit == f.oldUnit && e.newUnit == f.newUnit)
    || (e.ReplaceRange? && f.ReplaceRange? && e.oldUnit == f.oldUnit && e.newUnit == f.newUnit
        && e.startIndex == f.startIndex && e.count == f.count)
    || (e.Reserve? && f.Reserve? && e.capacity == f.capacity)
    || (e.AppendText? && f.AppendText?)
    || (e.InsertText? && f.InsertText? && e.index == f.index)
    || (e.InsertTextTimes? && f.InsertTextTimes? && e.index == f.index && e.times == f.times)
    || (e.Share? && f.Share?)
  }

  /** The same edit with another argument. */
  function With<T, U>(edit: Edit<T>, value: U): (r: Edit<U>)
    ensures HasArgument(r) == HasArgument(edit) && r.Share? == edit.Share?
    ensures HasArgument(edit) ==> r.value == value
    ensures SameButText(edit, r)
  {
    match edit
    case ReplaceUnits(oldUnit, newUnit) => ReplaceUnits(oldUnit, newUnit)
    case ReplaceRange(oldUnit, newUnit, startIndex, count) => ReplaceRange(oldUnit, newUnit, startIndex, count)
    case Reserve(capacity) => Reserve(capacity)
    case AppendText(_) => AppendText(value)
    case InsertText(index, _) => InsertText(index, value)
    case InsertTextTimes(index, _, times) => InsertTextTimes(index, value, times)
    case Share => Share
  }

  /** The text of a call, where `texts` are those of the strings that others hold. */
  predicate UsesKnownText(call: Call, texts: Texts) {
    HasArgument(call) && call.value != null ==> call.value in texts
  }

  function Meaning(call: Call, texts: Texts): (meaning: TextEdit)
    requires UsesKnownText(call, texts)
    ensures SameButText(call, meaning)
    ensures HasArgument(call) ==> meaning.value == if call.value == null then [] else texts[call.value]
  {
    With(call, if HasArgument(call) && call.value != null then texts[call.value] else [])
  }

  // ----- Commands

  /** The command names a string that is known at the start or one of `shares` handed out by then. */
  predicate Resolvable(command: Command, texts: Texts, shares: nat) {
    HasArgument(command) ==>
      match command.value
      case Given(value) => value != null ==> value in texts
      case HandedOut(k) => k < shares
  }

  predicate AllResolvable(commands: seq<Command>, texts: Texts) {
    forall n {:trigger commands[n]} :: 0 <= n < |commands| ==> Resolvable(commands[n], texts, Shares(commands, n))
  }

  /** The call a command comes to when `handed` are the strings handed out. */
  function Resolved(command: Command, handed: seq<StringObject>): (call: Call)
    requires HasArgument(command) && command.value.HandedOut? ==> command.value.k < |handed|
    ensures SameButText(command, call)
    ensures HasArgument(command) && command.value.Given? ==> call.value == command.value.value
    ensures HasArgument(command) && command.value.HandedOut? ==> call.value == handed[command.value.k]
  {
    With(command,
         if !HasArgument(command) then null
         else match command.value
              case Given(value) => value
              case HandedOut(k) => handed[k])
  }

  /** What a command means when `snapshots` were in the builder when its string was handed out. */
  function MeaningOf(command: Command, texts: Texts, snapshots: seq<seq<Int16>>): (meaning: TextEdit)
    requires Resolvable(command, texts, |snapshots|)
    ensures meaning.Share? <==> command.Share?
    ensures SameButText(command, meaning)
    ensures HasArgument(command) && command.value.Given? ==>
      meaning.value == if command.value.value == null then [] else texts[command.value.value]
    ensures HasArgument(command) && command.value.HandedOut? ==> meaning.value == snapshots[command.value.k]
  {
    With(command,
         if !HasArgument(command) then []
         else match command.value
              case Given(value) => if value == null then [] else texts[value]
              case HandedOut(k) => snapshots[k])
  }

  /** One more command, as an edit of the model after these.  A string handed out on the way stands for the
      text that the model says it had then. */
  function Extended(b: Builder, before: seq<TextEdit>, command: Command, texts: Texts, max: Count32): (r: seq<TextEdit>)
    requires b.Valid() && Resolvable(command, texts, Shares(before, |before|))
    ensures |r| == |before| + 1 && r[..|before|] == before
    ensures Shares(r, |r|) == Shares(before, |before|) + if command.Share? then 1 else 0
  {
    var meaning := MeaningOf(command, texts, Snapshots(b, before, max, |before|));
    SharesOfOneMore(before, meaning);
    before + [meaning]
  }

  /** The first `n` commands as edits of the model. */
  function Meanings(b: Builder, commands: seq<Command>, texts: Texts, max: Count32, n: nat): (meanings: seq<TextEdit>)
    requires b.Valid() && n <= |commands| && AllResolvable(commands, texts)
    ensures |meanings| == n && Shares(meanings, n) == Shares(commands, n)
  {
    if n == 0 then [] else Extended(b, Meanings(b, commands, texts, max, n - 1), commands[n - 1], texts, max)
  }

  /** The `k`-th of the edits is what the `k`-th command means at that moment. */
  ghost predicate MeansAt(b: Builder, commands: seq<Command>, texts: Texts, max: Count32, edits: seq<TextEdit>, k: nat)
    requires b.Valid()
  {
    && k < |edits| && k < |commands| && Resolvable(commands[k], texts, |Snapshots(b, edits, max, k)|)
    && edits[k] == MeaningOf(commands[k], texts, Snapshots(b, edits, max, k))
  }

  lemma StillMeans(b: Builder, commands: seq<Command>, texts: Texts, max: Count32, edits: seq<TextEdit>, edit: TextEdit,
                   k: nat)
    requires b.Valid() && MeansAt(b, commands, texts, max, edits, k)
    ensures MeansAt(b, commands, texts, max, edits + [edit], k)
  {
    PrefixStays(b, edits, edit, max, k);
  }

  lemma ExtendedMeans(b: Builder, commands: seq<Command>, texts: Texts, max: Count32, before: seq<TextEdit>, k: nat)
    requires b.Valid() && |before| < |commands|
    requires Resolvable(commands[|before|], texts, Shares(before, |before|))
    requires k == |before| || MeansAt(b, commands, texts, max, before, k)
    ensures MeansAt(b, commands, texts, max, Extended(b, before, commands[|before|], texts, max), k)
  {
    var edit := MeaningOf(commands[|before|], texts, Snapshots(b, before, max, |before|));
    if k == |before| {
      PrefixStays(b, before, edit, max, k);
    } else {
      StillMeans(b, commands, texts, max, before, edit, k);
    }
  }

  /** So it is with the edits of every run. */
  lemma {:induction false} MeaningsAreInOrder(b: Builder, commands: seq<Command>, texts: Texts, max: Count32,
                                              n: nat, k: nat)
    requires b.Valid() && AllResolvable(commands, texts) && k < n <= |commands|
    ensures MeansAt(b, commands, texts, max, Meanings(b, commands, texts, max, n), k)
  {
    if k < n - 1 {
      MeaningsAreInOrder(b, commands, texts, max, n - 1, k);
    }
    ExtendedMeans(b, commands, texts, max, Meanings(b, commands, texts, max, n - 1), k);
  }

  lemma MeaningsGrow(b: Builder, commands: seq<Command>, texts: Texts, max: Count32, n: nat)
    requires b.Valid() && AllResolvable(commands, texts) && n < |commands|
    ensures var before := Meanings(b, commands, texts, max, n);
      Meanings(b, commands, texts, max, n + 1)
      == before + [MeaningOf(commands[n], texts, Snapshots(b, before, max, n))]
  {
  }

  lemma SharesOfOneMore(edits: seq<TextEdit>, edit: TextEdit)
    ensures Shares(edits + [edit], |edits| + 1) == Shares(edits, |edits|) + if edit.Share? then 1 else 0
  {
    SharesOfPrefix(edits, edit, |edits|);
  }

  lemma {:induction false} SharesOfPrefix(edits: seq<TextEdit>, edit: TextEdit, n: nat)
    requires n <= |edits|
    ensures Shares(edits + [edit], n) == Shares(edits, n)
  {
    if n > 0 {
      SharesOfPrefix(edits, edit, n - 1);
    }
  }

  /** The strings in `texts` hold exactly these texts; they and their storage are in `repr`. */
  ghost predicate Frozen(texts: Texts, repr: set<object>)
    reads repr
  {
    forall s :: s in texts ==> s in repr && s.units in repr && s.Valid() && s.Contents() == texts[s]
  }

  /** The builder and the strings others hold, side by side. */
  ghost predicate Consistent(sb: StringBuilder, texts: Texts, repr: set<object>)
    reads sb, sb.buildString, repr
  {
    sb.Valid() && sb.shared == texts.Keys && Frozen(texts, repr) && sb !in repr && sb.Owned() !! repr
  }

  /** The outcome of EnsureCapacity. */
  function OutcomeOf(result: Result<int>): (outcome: Outcome) {
    match result
    case Value(_) => Done
    case Raised(_) => Refused
    case Broken(fault) => Ends(fault)
  }

  method PerformWithText(sb: StringBuilder, edit: Call, ghost texts: Texts, ghost repr: set<object>)
      returns (outcome: Outcome)
    requires Consistent(sb, texts, repr) && UsesKnownText(edit, texts) && HasArgument(edit)
    modifies sb, sb.Owned()
    ensures outcome == Decide(old(sb.State()), Meaning(edit, texts), sb.maxCapacity)
    ensures !outcome.Ends? ==>
      && Consistent(sb, texts, repr) && fresh(sb.Owned() - old(sb.Owned()))
      && sb.State() == Next(old(sb.State()), Meaning(edit, texts), sb.maxCapacity)
  {
    match edit {
      case AppendText(value) =>
        outcome := sb.Append(value);
      case InsertText(index, value) =>
        outcome := sb.InsertString(index, value);
      case InsertTextTimes(index, value, times) =>
        outcome := sb.InsertRepeated(index, value, times);
    }
  }

  method PerformWithoutText(sb: StringBuilder, edit: Call, ghost texts: Texts, ghost repr: set<object>)
      returns (outcome: Outcome)
    requires Consistent(sb, texts, repr) && (edit.ReplaceUnits? || edit.ReplaceRange? || edit.Reserve?)
    modifies sb, sb.Owned()
    ensures outcome == Decide(old(sb.State()), Meaning(edit, texts), sb.maxCapacity)
    ensures !outcome.Ends? ==>
      && Consistent(sb, texts, repr) && fresh(sb.Owned() - old(sb.Owned()))
      && sb.State() == Next(old(sb.State()), Meaning(edit, texts), sb.maxCapacity)
  {
    match edit {
      case ReplaceUnits(oldUnit, newUnit) =>
        sb.ReplaceCC(oldUnit, newUnit);
        outcome := Done;
      case ReplaceRange(oldUnit, newUnit, startIndex, count) =>
        var raised := sb.ReplaceCCII(oldUnit, newUnit, startIndex, count);
        outcome := if raised then Refused else Done;
      case Reserve(capacity) =>
        var result := sb.EnsureCapacity(capacity);
        outcome := OutcomeOf(result);
    }
  }

  /** One edit that hands nothing out. */
  method Perform(sb: StringBuilder, edit: Call, ghost texts: Texts, ghost repr: set<object>)
      returns (outcome: Outcome)
    requires Consistent(sb, texts, repr) && UsesKnownText(edit, texts) && !edit.Share?
    modifies sb, sb.Owned()
    ensures outcome == Decide(old(sb.State()), Meaning(edit, texts), sb.maxCapacity)
    ensures !outcome.Ends? ==>
      && Consistent(sb, texts, repr) && fresh(sb.Owned() - old(sb.Owned()))
      && sb.State() == Next(old(sb.State()), Meaning(edit, texts), sb.maxCapacity)
  {
    if HasArgument(edit) {
      outcome := PerformWithText(sb, edit, texts, repr);
    } else {
      outcome := PerformWithoutText(sb, edit, texts, repr);
    }
  }

  // ----- Runs

  /** The strings handed out are known, with the texts they had then. */
  ghost predicate Recorded(handed: seq<StringObject>, snapshots: seq<seq<Int16>>, texts: Texts) {
    |handed| == |snapshots| &&
    forall k :: 0 <= k < |handed| ==> handed[k] in texts && texts[handed[k]] == snapshots[k]
  }

  ghost predicate Extends(texts: Texts, before: Texts) {
    forall s :: s in before ==> s in texts && texts[s] == before[s]
  }

  /** A command and the call it comes to mean the same. */
  lemma ResolvedMeans(command: Command, handed: seq<StringObject>, snapshots: seq<seq<Int16>>,
                      texts: Texts, before: Texts)
    requires Extends(texts, before) && Recorded(handed, snapshots, texts)
    requires Resolvable(command, before, |snapshots|)
    ensures UsesKnownText(Resolved(command, handed), texts)
    ensures Meaning(Resolved(command, handed), texts) == MeaningOf(command, before, snapshots)
    ensures Resolved(command, handed).Share? <==> command.Share?
  {
  }

  /** One edit of any kind.  `before` are the texts known at the start of the run. */
  method PerformOrShare(sb: StringBuilder, command: Command, handed: seq<StringObject>,
                        ghost snapshots: seq<seq<Int16>>, ghost before: Texts, ghost texts: Texts,
                        ghost repr: set<object>)
      returns (outcome: Outcome, handed': seq<StringObject>, ghost texts': Texts, ghost repr': set<object>)
    requires Consistent(sb, texts, repr) && Extends(texts, before) && Recorded(handed, snapshots, texts)
    requires Resolvable(command, before, |snapshots|)
    modifies sb, sb.Owned()
    ensures outcome == Decide(old(sb.State()), MeaningOf(command, before, snapshots), sb.maxCapacity)
    ensures !outcome.Ends? ==>
      && Consistent(sb, texts', repr') && Extends(texts', before) && fresh(sb.Owned() - old(sb.Owned()))
      && sb.State() == Next(old(sb.State()), MeaningOf(command, before, snapshots), sb.maxCapacity)
      && Recorded(handed', if command.Share? then snapshots + [old(sb.Contents())] else snapshots, texts')
  {
    ResolvedMeans(command, handed, snapshots, texts, before);
    outcome, handed', texts', repr' := Done, handed, texts, repr;
    if command.Share? {
      handed', texts', repr' := HandOne(sb, handed, snapshots, before, texts, repr);
    } else {
      outcome := Perform(sb, Resolved(command, handed), texts, repr);
    }
  }

  /** The string is handed out once more. */
  method HandOne(sb: StringBuilder, handed: seq<StringObject>, ghost snapshots: seq<seq<Int16>>,
                 ghost before: Texts, ghost texts: Texts, ghost repr: set<object>)
      returns (handed': seq<StringObject>, ghost texts': Texts, ghost repr': set<object>)
    requires Consistent(sb, texts, repr) && Extends(texts, before) && Recorded(handed, snapshots, texts)
    modifies sb
    ensures Consistent(sb, texts', repr') && Extends(texts', before) && fresh(sb.Owned() - old(sb.Owned()))
    ensures sb.State() == old(sb.State()) && Recorded(handed', snapshots + [old(sb.Contents())], texts')
  {
    ghost var here := sb.Contents();
    var out := sb.HandOut();
    handed' := handed + [out];
    texts', repr' := texts[out := here], repr + {out, out.units};
  }

  /** The run so far went well: the outcomes, the state and the strings handed out are those of the model. */
  ghost predicate Explained(b: Builder, edits: seq<TextEdit>, max: Count32, outcomes: seq<Outcome>,
                            state: Builder, snapshots: seq<seq<Int16>>)
    requires b.Valid()
  {
    && |outcomes| == |edits|
    && Follows(b, edits, max, outcomes) && Survives(b, edits, max, |edits|)
    && state == StateAfter(b, edits, max, |edits|)
    && snapshots == Snapshots(b, edits, max, |edits|)
  }

  /** The outcomes are those of the model. */
  ghost predicate Follows(b: Builder, edits: seq<TextEdit>, max: Count32, outcomes: seq<Outcome>)
    requires b.Valid() && |outcomes| == |edits|
  {
    forall k {:trigger OutcomeAt(b, edits, max, k)} :: 0 <= k < |edits| ==> outcomes[k] == OutcomeAt(b, edits, max, k)
  }

  lemma OutcomeStays(b: Builder, edits: seq<TextEdit>, edit: TextEdit, max: Count32, k: nat)
    requires b.Valid() && k <= |edits|
    ensures OutcomeAt(b, edits + [edit], max, k) ==
      if k < |edits| then OutcomeAt(b, edits, max, k) else Decide(StateAfter(b, edits, max, k), edit, max)
  {
    PrefixStays(b, edits, edit, max, k);
  }

  lemma ExplainStep(b: Builder, edits: seq<TextEdit>, edit: TextEdit, max: Count32, outcomes: seq<Outcome>,
                    state: Builder, snapshots: seq<seq<Int16>>, outcome: Outcome)
    requires b.Valid() && Explained(b, edits, max, outcomes, state, snapshots)
    requires state.Valid() && outcome == Decide(state, edit, max)
    ensures Follows(b, edits + [edit], max, outcomes + [outcome]) && Survives(b, edits + [edit], max, |edits|)
    ensures !outcome.Ends? ==>
      Explained(b, edits + [edit], max, outcomes + [outcome], Next(state, edit, max),
                if edit.Share? then snapshots + [state.contents] else snapshots)
  {
    forall k: nat | k <= |edits|
      ensures OutcomeAt(b, edits + [edit], max, k) == (outcomes + [outcome])[k]
      ensures k < |edits| ==> !OutcomeAt(b, edits + [edit], max, k).Ends?
    {
      OutcomeStays(b, edits, edit, max, k);
    }
    PrefixStays(b, edits, edit, max, |edits|);
  }

  /** What AssertionsHold says of a run that follows the model. */
  lemma NoAssertionFails(b: Builder, edits: seq<TextEdit>, max: Count32, outcomes: seq<Outcome>)
    requires b.Valid() && |outcomes| == |edits| && Follows(b, edits, max, outcomes)
    requires edits != [] ==> Survives(b, edits, max, |edits| - 1)
    ensures InBounds(b, max) ==> Ends(AssertFails) !in outcomes
  {
    AssertionsHold(b, max);
    forall k | InBounds(b, max) && 0 <= k < |outcomes|
      ensures outcomes[k] != Ends(AssertFails)
    {
      assert Survives(b, edits, max, k) && outcomes[k] == OutcomeAt(b, edits, max, k);
    }
  }

  /** The commands done so far, and what became of them, as the model says. */
  ghost predicate WentWell(b: Builder, commands: seq<Command>, texts: Texts, max: Count32, edits: seq<TextEdit>,
                           outcomes: seq<Outcome>, state: Builder, snapshots: seq<seq<Int16>>)
    requires b.Valid() && AllResolvable(commands, texts)
  {
    && |outcomes| <= |commands| && edits == Meanings(b, commands, texts, max, |outcomes|)
    && Explained(b, edits, max, outcomes, state, snapshots)
  }

  /** The last command ended the builder's life, as the model says. */
  ghost predicate Stopped(b: Builder, commands: seq<Command>, texts: Texts, max: Count32, edits: seq<TextEdit>,
                          outcomes: seq<Outcome>)
    requires b.Valid() && AllResolvable(commands, texts)
  {
    && 0 < |outcomes| <= |commands| && outcomes[|outcomes| - 1].Ends?
    && edits == Meanings(b, commands, texts, max, |outcomes|)
    && Follows(b, edits, max, outcomes) && Survives(b, edits, max, |edits| - 1)
  }

  lemma RunStep(b: Builder, commands: seq<Command>, texts: Texts, max: Count32, edits: seq<TextEdit>,
                outcomes: seq<Outcome>, state: Builder, snapshots: seq<seq<Int16>>, outcome: Outcome)
    requires b.Valid() && AllResolvable(commands, texts) && |outcomes| < |commands| && state.Valid()
    requires WentWell(b, commands, texts, max, edits, outcomes, state, snapshots)
    requires Resolvable(commands[|outcomes|], texts, |snapshots|)
    requires outcome == Decide(state, MeaningOf(commands[|outcomes|], texts, snapshots), max)
    ensures var command := commands[|outcomes|];
      var edit := MeaningOf(command, texts, snapshots);
      if outcome.Ends? then Stopped(b, commands, texts, max, edits + [edit], outcomes + [outcome])
      else WentWell(b, commands, texts, max, edits + [edit], outcomes + [outcome], Next(state, edit, max),
                    if command.Share? then snapshots + [state.contents] else snapshots)
  {
    var edit := MeaningOf(commands[|outcomes|], texts, snapshots);
    MeaningsGrow(b, commands, texts, max, |outcomes|);
    assert edits + [edit] == Meanings(b, commands, texts, max, |outcomes + [outcome]|);
    ExplainStep(b, edits, edit, max, outcomes, state, snapshots, outcome);
  }

  lemma NextIsResolvable(b: Builder, commands: seq<Command>, texts: Texts, max: Count32, edits: seq<TextEdit>,
                         outcomes: seq<Outcome>, state: Builder, snapshots: seq<seq<Int16>>)
    requires b.Valid() && AllResolvable(commands, texts) && |outcomes| < |commands|
    requires WentWell(b, commands, texts, max, edits, outcomes, state, snapshots)
    ensures Resolvable(commands[|outcomes|], texts, |snapshots|)
  {
  }

  /** One turn of a run. */
  method Turn(sb: StringBuilder, commands: seq<Command>, handed: seq<StringObject>, outcomes: seq<Outcome>,
              ghost b: Builder, ghost edits: seq<TextEdit>, ghost snapshots: seq<seq<Int16>>,
              ghost before: Texts, ghost texts: Texts, ghost repr: set<object>)
      returns (outcomes': seq<Outcome>, ended: bool, handed': seq<StringObject>, ghost edits': seq<TextEdit>,
               ghost snapshots': seq<seq<Int16>>, ghost texts': Texts, ghost repr': set<object>)
    requires b.Valid() && AllResolvable(commands, before) && |outcomes| < |commands|
    requires Consistent(sb, texts, repr) && Extends(texts, before) && Recorded(handed, snapshots, texts)
    requires WentWell(b, commands, before, sb.maxCapacity, edits, outcomes, sb.State(), snapshots)
    modifies sb, sb.Owned()
    ensures |outcomes'| == |outcomes| + 1
    ensures ended ==> Stopped(b, commands, before, sb.maxCapacity, edits', outcomes')
    ensures !ended ==>
      && Consistent(sb, texts', repr') && Extends(texts', before) && Recorded(handed', snapshots', texts')
      && fresh(sb.Owned() - old(sb.Owned()))
      && WentWell(b, commands, before, sb.maxCapacity, edits', outcomes', sb.State(), snapshots')
  {
    ghost var here := sb.State();
    NextIsResolvable(b, commands, before, sb.maxCapacity, edits, outcomes, here, snapshots);
    var command := commands[|outcomes|];
    var outcome;
    outcome, handed', texts', repr' := PerformOrShare(sb, command, handed, snapshots, before, texts, repr);
    RunStep(b, commands, before, sb.maxCapacity, edits, outcomes, here, snapshots, outcome);
    outcomes', ended := outcomes + [outcome], outcome.Ends?;
    edits' := edits + [MeaningOf(command, before, snapshots)];
    snapshots' := if command.Share? then snapshots + [here.contents] else snapshots;
  }

  /** All turns, up to one that ends the builder's life. */
  method PerformAll(sb: StringBuilder, commands: seq<Command>, ghost texts: Texts, ghost repr: set<object>)
      returns (outcomes: seq<Outcome>, ended: bool, handed: seq<StringObject>, ghost edits: seq<TextEdit>,
               ghost snapshots: seq<seq<Int16>>, ghost texts': Texts, ghost repr': set<object>)
    requires Consistent(sb, texts, repr) && AllResolvable(commands, texts)
    modifies sb, sb.Owned()
    ensures ended ==> Stopped(old(sb.State()), commands, texts, sb.maxCapacity, edits, outcomes)
    ensures !ended ==>
      && |outcomes| == |commands|
      && Consistent(sb, texts', repr') && Extends(texts', texts) && Recorded(handed, snapshots, texts')
      && WentWell(old(sb.State()), commands, texts, sb.maxCapacity, edits, outcomes, sb.State(), snapshots)
  {
    ghost var b := sb.State();
    outcomes, ended, handed, edits, snapshots, texts', repr' := [], false, [], [], [], texts, repr;
    while |outcomes| < |commands|
      invariant |outcomes| <= |commands| && !ended
      invariant Consistent(sb, texts', repr') && Extends(texts', texts) && Recorded(handed, snapshots, texts')
      invariant WentWell(b, commands, texts, sb.maxCapacity, edits, outcomes, sb.State(), snapshots)
      invariant fresh(sb.Owned() - old(sb.Owned()))
      decreases |commands| - |outcomes|
    {
      outcomes, ended, handed, edits, snapshots, texts', repr' :=
        Turn(sb, commands, handed, outcomes, b, edits, snapshots, texts, texts', repr');
      if ended {
        return;
      }
    }
  }

  /** Any run.  Every command comes to what the model says, up to the first one, if any, that ends the builder's
      life.  If there is none, the builder holds at the end what the model says; every string others held at
      the start holds what it held then; and every string handed out on the way still holds what the
      builder held at that moment, even if it was inserted into the builder later. */
  method RunEdits(sb: StringBuilder, commands: seq<Command>, ghost texts: Texts, ghost repr: set<object>)
      returns (outcomes: seq<Outcome>, handed: seq<StringObject>, ghost edits: seq<TextEdit>,
               ghost texts': Texts, ghost repr': set<object>)
    requires Consistent(sb, texts, repr) && AllResolvable(commands, texts)
    modifies sb, sb.Owned()
    ensures |outcomes| <= |commands|
    ensures edits == Meanings(old(sb.State()), commands, texts, sb.maxCapacity, |outcomes|)
    ensures Follows(old(sb.State()), edits, sb.maxCapacity, outcomes)
    ensures forall k :: 0 <= k < |outcomes| ==> outcomes[k] == OutcomeAt(old(sb.State()), edits, sb.maxCapacity, k)
    ensures |outcomes| < |commands| ==> outcomes != [] && outcomes[|outcomes| - 1].Ends?
    ensures outcomes != [] ==> Survives(old(sb.State()), edits, sb.maxCapacity, |edits| - 1)
    ensures InBounds(old(sb.State()), sb.maxCapacity) ==> Ends(AssertFails) !in outcomes
    ensures (forall k :: 0 <= k < |outcomes| ==> !outcomes[k].Ends?) ==>
      && Consistent(sb, texts', repr') && Extends(texts', texts)
      && sb.State() == StateAfter(old(sb.State()), edits, sb.maxCapacity, |edits|)
      && Recorded(handed, Snapshots(old(sb.State()), edits, sb.maxCapacity, |edits|), texts')
      && (forall s :: s in texts ==> s.Valid() && s.Contents() == texts[s])
      && (forall k :: 0 <= k < |handed| ==>
            handed[k].Valid() && handed[k].Contents() == Snapshots(old(sb.State()), edits, sb.maxCapacity, |edits|)[k])
  {
    ghost var b, snapshots := sb.State(), [];
    var ended;
    outcomes, ended, handed, edits, snapshots, texts', repr' := PerformAll(sb, commands, texts, repr);
    NoAssertionFails(b, edits, sb.maxCapacity, outcomes);
  }
}
