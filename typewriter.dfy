/**
 * The boot-screen typewriter of the home page (client/src/pages/Home.tsx).
 *
 * Every 50 ms an interval callback either reveals one more character of the
 * current terminal command into `typedCommands`, or, once the command is
 * fully shown, schedules a 150 ms timeout that moves on to the next command.
 * The model calls the two halves by hand: `Tick` is one firing of the
 * interval and `Settle` is one firing of a scheduled timeout. The timers
 * themselves are not modelled; because the interval keeps firing while a
 * timeout is pending, several timeouts can be scheduled for one command, so
 * `Settle` has no precondition and commands can be skipped, leaving holes
 * in `typedCommands`. The written slots are therefore a map from command
 * index to text. The page's markup never reads `typedCommands` or
 * `currentCommand`; they are set and never displayed.
 *
 * The updater passed to `setTypedCommands` is applied at the call, so it
 * sees the counters as they are before `charIndex` is incremented. An
 * updater deferred to a later render would see them afterwards: it would
 * write one character more, and after an intervening settle it would write
 * the previous command's first character into the next command's slot,
 * which the next tick then replaces. The exact-text properties below (the
 * text clauses of `Tick`, the last two conjuncts of `Consistent`, the text
 * clause of `TicksReveal`), the prefix-of-its-own-command properties (the
 * third conjunct of `Consistent`, `ReachableTextIsPrefix`) and the no-shrink
 * clause `Grows` hold only for updaters applied at the call.
 */
module Typewriter {

  /** The state the typewriter reads and writes: the `typedCommands` and
      `currentCommand` component state, and the `commandIndex` and
      `charIndex` counters captured by the interval callback. */
  datatype Snapshot = Snapshot(
    typed: map<nat, string>,
    commandIndex: nat,
    charIndex: nat,
    currentCommand: nat)

  /** The state at mount: nothing typed, both counters at zero. */
  function Initial(): Snapshot {
    Snapshot(map[], 0, 0, 0)
  }

  /** A tick reveals a character: a command is current and not yet fully shown. */
  predicate Revealing(commands: seq<string>, s: Snapshot) {
    s.commandIndex < |commands| && s.charIndex < |commands[s.commandIndex]|
  }

  /** A tick schedules a settle timeout: a command is current and fully shown. */
  predicate SettleDue(commands: seq<string>, s: Snapshot) {
    s.commandIndex < |commands| && !Revealing(commands, s)
  }

  /** One firing of the interval callback. */
  function TickStep(commands: seq<string>, s: Snapshot): Snapshot {
    if Revealing(commands, s) then
      var command := commands[s.commandIndex];
      s.(typed := s.typed[s.commandIndex := command[..s.charIndex + 1]],
         charIndex := s.charIndex + 1)
    else s
  }

  /** One firing of a scheduled settle timeout. */
  function SettleStep(s: Snapshot): Snapshot {
    s.(currentCommand := s.currentCommand + 1,
       commandIndex := s.commandIndex + 1,
       charIndex := 0)
  }

  /** What holds of every state the typewriter reaches: each written slot
      belongs to a command already reached and holds a non-empty prefix of
      it; the current command's slot, if written, holds exactly its first
      `charIndex` characters; `charIndex` never passes the current command's
      end; and the two command counters agree. */
  ghost predicate Consistent(commands: seq<string>, s: Snapshot) {
    && s.currentCommand == s.commandIndex
    && (s.commandIndex < |commands| ==> s.charIndex <= |commands[s.commandIndex]|)
    && (forall k :: k in s.typed ==>
          k < |commands| && k <= s.commandIndex && s.typed[k] != [] && s.typed[k] <= commands[k])
    && (s.commandIndex in s.typed <==> s.charIndex > 0)
    && (s.commandIndex in s.typed ==>
          s.typed[s.commandIndex] == commands[s.commandIndex][..s.charIndex])
  }

  /** Every slot of `s` is still written in `t`, with at least as much text. */
  ghost predicate Grows(s: Snapshot, t: Snapshot) {
    forall k :: k in s.typed ==> k in t.typed && s.typed[k] <= t.typed[k]
  }

  lemma InitialConsistent(commands: seq<string>)
    ensures Consistent(commands, Initial())
  {
  }

  /** A tick keeps the state consistent and only lengthens typed text. */
  lemma TickPreserves(commands: seq<string>, s: Snapshot)
    requires Consistent(commands, s)
    ensures Consistent(commands, TickStep(commands, s))
    ensures Grows(s, TickStep(commands, s))
  {
  }

  /** A settle keeps the state consistent and leaves typed text alone. */
  lemma SettlePreserves(commands: seq<string>, s: Snapshot)
    requires Consistent(commands, s)
    ensures Consistent(commands, SettleStep(s))
    ensures SettleStep(s).typed == s.typed
  {
  }

  /** One firing of either timer. */
  datatype Event = Tick | Settle

  /** The state after the given firings, in order. */
  function Run(commands: seq<string>, s: Snapshot, events: seq<Event>): Snapshot
    decreases |events|
  {
    if events == [] then s
    else
      var next := if events[0] == Tick then TickStep(commands, s) else SettleStep(s);
      Run(commands, next, events[1..])
  }

  /** Prefix order is transitive (the order in which typed text grows). */
  lemma PrefixTransitive(a: string, b: string, c: string)
    requires a <= b && b <= c
    ensures a <= c
  {
    assert a == b[..|a|] && b == c[..|b|];
    assert c[..|b|][..|a|] == c[..|a|];
  }

  /** Whatever the timers do, in whatever order and however often, the
      state stays consistent and typed text never shrinks or disappears. */
  lemma {:induction false} RunPreserves(commands: seq<string>, s: Snapshot, events: seq<Event>)
    requires Consistent(commands, s)
    ensures Consistent(commands, Run(commands, s, events))
    ensures Grows(s, Run(commands, s, events))
    decreases |events|
  {
    if events != [] {
      var next := if events[0] == Tick then TickStep(commands, s) else SettleStep(s);
      if events[0] == Tick { TickPreserves(commands, s); } else { SettlePreserves(commands, s); }
      RunPreserves(commands, next, events[1..]);
      var t := Run(commands, s, events);
      forall k | k in s.typed
        ensures k in t.typed && s.typed[k] <= t.typed[k]
      {
        PrefixTransitive(s.typed[k], next.typed[k], t.typed[k]);
      }
    }
  }

  /** From mount on, every written slot belongs to a command and holds a
      non-empty prefix of it, so revealed text never exceeds the command. */
  lemma ReachableTextIsPrefix(commands: seq<string>, events: seq<Event>)
    ensures var t := Run(commands, Initial(), events);
      forall k :: k in t.typed ==>
        k < |commands| && t.typed[k] != [] && t.typed[k] <= commands[k]
        && |t.typed[k]| <= |commands[k]|
  {
    InitialConsistent(commands);
    RunPreserves(commands, Initial(), events);
  }

  /** `n` ticks in a row. */
  function Ticks(n: nat): (events: seq<Event>)
    ensures |events| == n
  {
    if n == 0 then [] else [Tick] + Ticks(n - 1)
  }

  /** Without a settle, n ticks reveal n more characters of the current
      command, up to its end; once the command is fully shown further ticks
      change nothing. */
  lemma {:induction false} TicksReveal(commands: seq<string>, s: Snapshot, n: nat)
    requires Consistent(commands, s) && s.commandIndex < |commands|
    ensures var t, command := Run(commands, s, Ticks(n)), commands[s.commandIndex];
      var shown := if s.charIndex + n <= |command| then s.charIndex + n else |command|;
      && t.commandIndex == s.commandIndex && t.currentCommand == s.currentCommand
      && t.charIndex == shown
      && (shown > 0 ==> s.commandIndex in t.typed && t.typed[s.commandIndex] == command[..shown])
    decreases n
  {
    if n > 0 {
      var next := TickStep(commands, s);
      TickPreserves(commands, s);
      assert Ticks(n)[1..] == Ticks(n - 1);
      TicksReveal(commands, next, n - 1);
    }
  }

  /** Ticks write no slot but the current command's. */
  lemma {:induction false} TicksKeepOtherSlots(commands: seq<string>, s: Snapshot, n: nat)
    ensures var t := Run(commands, s, Ticks(n));
      forall k :: k != s.commandIndex ==>
        (k in t.typed <==> k in s.typed) && (k in s.typed ==> t.typed[k] == s.typed[k])
    decreases n
  {
    if n > 0 {
      var next := TickStep(commands, s);
      assert Ticks(n)[1..] == Ticks(n - 1);
      assert next.commandIndex == s.commandIndex;
      assert forall k :: k != s.commandIndex ==>
        (k in next.typed <==> k in s.typed) && (k in s.typed ==> next.typed[k] == s.typed[k]);
      TicksKeepOtherSlots(commands, next, n - 1);
    }
  }

  /** Typing `["a", "bb"]`: a tick types "a", the next finds it complete
      and schedules a settle, and after the settle two ticks type "bb". */
  lemma TwoCommandsScenario()
    ensures var commands := ["a", "bb"];
      var s1 := TickStep(commands, Initial());
      var s3 := SettleStep(TickStep(commands, s1));
      && s1.typed == map[0 := "a"]
      && SettleDue(commands, s1)
      && TickStep(commands, TickStep(commands, s3)).typed == map[0 := "a", 1 := "bb"]
  {
    var commands := ["a", "bb"];
    assert "a"[..1] == "a" && "bb"[..1] == "b" && "bb"[..2] == "bb";
    var s1 := TickStep(commands, Initial());
    assert s1 == Snapshot(map[0 := "a"], 0, 1, 0);
    var s3 := SettleStep(TickStep(commands, s1));
    assert s3 == Snapshot(map[0 := "a"], 1, 0, 1);
    var s4 := TickStep(commands, s3);
    assert s4 == Snapshot(map[0 := "a", 1 := "b"], 1, 1, 1);
  }

  /** Two settle timeouts scheduled for the same command skip the next
      command and leave its slot unwritten. */
  lemma SkippedCommandScenario()
    ensures var commands := ["a", "b", "c"];
      var s2 := TickStep(commands, TickStep(commands, Initial()));
      && SettleDue(commands, s2)
      && TickStep(commands, SettleStep(SettleStep(s2))).typed == map[0 := "a", 2 := "c"]
  {
    var commands := ["a", "b", "c"];
    assert "a"[..1] == "a" && "c"[..1] == "c";
    var s2 := TickStep(commands, TickStep(commands, Initial()));
    assert s2 == Snapshot(map[0 := "a"], 0, 1, 0);
    var s4 := SettleStep(SettleStep(s2));
    assert s4 == Snapshot(map[0 := "a"], 2, 0, 2);
  }

  /** The typewriter as the component runs it: the captured counters and the
      component state updated in place by the two timer callbacks. */
  class TypewriterEffect {
    /** The terminal commands; lengths and prefixes count characters, which
        agree with JavaScript's UTF-16 code units for ASCII commands. */
    const commands: seq<string>
    /** `typedCommands`; absent keys are holes in the array. */
    var typed: map<nat, string>
    /** `currentCommand` */
    var currentCommand: nat
    /** The callback's `commandIndex` counter. */
    var commandIndex: nat
    /** The callback's `charIndex` counter. */
    var charIndex: nat

    function State(): Snapshot
      reads this
    {
      Snapshot(typed, commandIndex, charIndex, currentCommand)
    }

    ghost predicate Valid()
      reads this
    {
      Consistent(commands, State())
    }

    /** Mounting: nothing typed, both counters at zero. */
    constructor (commands: seq<string>)
      ensures this.commands == commands
      ensures Valid() && State() == Initial()
    {
      this.commands := commands;
      typed, currentCommand, commandIndex, charIndex := map[], 0, 0, 0;
    }

    /** One firing of the 50 ms interval. Returns whether it scheduled a
        settle timeout. */
    method Tick() returns (settleScheduled: bool)
      requires Valid()
      modifies this
      ensures Valid() && State() == TickStep(commands, old(State()))
      ensures settleScheduled == SettleDue(commands, old(State()))
      ensures commandIndex == old(commandIndex) && currentCommand == old(currentCommand)
      ensures old(Revealing(commands, State())) ==>
        && charIndex == old(charIndex) + 1
        && typed == old(typed)[commandIndex := commands[commandIndex][..charIndex]]
      ensures !old(Revealing(commands, State())) ==> typed == old(typed) && charIndex == old(charIndex)
      ensures old(commandIndex) >= |commands| ==> State() == old(State()) && !settleScheduled
    {
      TickPreserves(commands, State());
      settleScheduled := false;
      if commandIndex < |commands| {
        var command := commands[commandIndex];
        if charIndex < |command| {
          typed := typed[commandIndex := command[..charIndex + 1]];
          charIndex := charIndex + 1;
        } else {
          settleScheduled := true;
        }
      }
    }

    /** One firing of a 150 ms settle timeout. */
    method Settle()
      requires Valid()
      modifies this
      ensures Valid() && State() == SettleStep(old(State()))
      ensures currentCommand == old(currentCommand) + 1 && commandIndex == old(commandIndex) + 1
      ensures charIndex == 0 && typed == old(typed)
    {
      SettlePreserves(commands, State());
      currentCommand := currentCommand + 1;
      commandIndex := commandIndex + 1;
      charIndex := 0;
    }
  }
}
