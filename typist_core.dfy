/** The typewriter engine itself: a class whose fields are the engine's
    private state and whose methods are its executors. Every wait is an
    abstract step that an oracle may cancel; every change of the buffer goes
    through `UpdateTypedLines`, which logs the snapshot it hands to the
    state setter. Each executor is proved to play the trace that
    `TypistActions` gives for its instruction. */
module TypistEngine {
  import opened TypistTypes
  import opened TypistTrace
  import opened TypistActions

  /** The props the engine is (re)configured with. `children` holds the
      instruction list the action compiler makes of the content. */
  datatype Props = Props(
    children: seq<Action>,
    typingDelay: int,
    backspaceDelay: int,
    loop: bool,
    pause: bool,
    splitter: Splitter)

  class TypistCore {
    // configuration, rewritten as a whole by SetUpProps
    var children: seq<Action>
    var typingDelay: int
    var backspaceDelay: int
    var loop: bool
    var pause: bool
    var splitter: Splitter

    /** The cancel slot is set: a wait was scheduled since it was last reset. */
    var timerPending: bool
    /** The buffer of typed lines, written only by UpdateTypedLines. */
    var typedLines: TypedLines
    /** The state setter has been replaced by one that throws. */
    var discarded: bool
    /** Every snapshot the state setter has accepted, in order. */
    var emissions: seq<TypedLines>
    /** The delay of every wait started, in order. */
    var waits: seq<int>
    /** How many times `onTypingDone` has been called. */
    var onDoneCount: nat

    /** Single writer: while the engine is alive, the buffer is the last
        snapshot handed to the state setter. */
    ghost predicate Valid()
      reads this`discarded, this`typedLines, this`emissions
    {
      discarded || typedLines == Latest(emissions)
    }

    function Observed(): Run
      reads this`typedLines, this`emissions, this`waits
    {
      Run(typedLines, emissions, waits, Ok)
    }

    function Cfg(): Config
      reads this`typingDelay, this`backspaceDelay, this`splitter
    {
      Config(typingDelay, backspaceDelay, splitter)
    }

    ghost predicate Configured(props: Props)
      reads this
    {
      children == props.children && typingDelay == props.typingDelay
      && backspaceDelay == props.backspaceDelay && loop == props.loop
      && pause == props.pause && splitter == props.splitter
    }

    constructor (props: Props)
      ensures Configured(props) && Valid()
      ensures typedLines == [] && emissions == [] && waits == []
      ensures !timerPending && !discarded && onDoneCount == 0
    {
      timerPending := false;
      typedLines := [];
      discarded := false;
      emissions := [];
      waits := [];
      onDoneCount := 0;
      new;
      SetUpProps(props);
    }

    /** `onPropsChanged`: replace every configuration field. */
    method SetUpProps(props: Props)
      modifies this`children, this`typingDelay, this`backspaceDelay, this`loop, this`pause, this`splitter
      ensures Configured(props)
    {
      children := props.children;
      typingDelay := props.typingDelay;
      backspaceDelay := props.backspaceDelay;
      loop := props.loop;
      pause := props.pause;
      splitter := props.splitter;
    }

    /** From now on every attempt to hand a snapshot to the state setter
        fails. A wait pending at that moment is cancelled: in this model that
        is the wait oracle answering `true`. */
    method Discard()
      modifies this`discarded
      ensures discarded
    {
      discarded := true;
    }

    /** A wait of `delay`; it is cancelled when `cancel` says so for its index.
        The pause flag only decides when an uncancelled wait ends, so it plays
        no part here. */
    method TimeoutPromise(delay: int, cancel: nat -> bool) returns (o: Outcome)
      modifies this`waits, this`timerPending
      ensures timerPending && waits == old(waits) + [delay]
      ensures o == (if cancel(|old(waits)|) then Cancelled else Ok)
    {
      o := if cancel(|waits|) then Cancelled else Ok;
      waits := waits + [delay];
      timerPending := true;
    }

    /** The only writer of the buffer: store the new buffer, then hand it to
        the state setter, which throws once the engine is discarded. */
    method UpdateTypedLines(newTypedLines: TypedLines) returns (o: Outcome)
      modifies this`typedLines, this`emissions
      ensures typedLines == newTypedLines
      ensures o == (if discarded then Thrown else Ok)
      ensures emissions == if discarded then old(emissions) else old(emissions) + [newTypedLines]
    {
      typedLines := newTypedLines;
      if discarded {
        o := Thrown;
      } else {
        emissions := emissions + [newTypedLines];
        o := Ok;
      }
    }

    method TypeString(text: string, cancel: nat -> bool) returns (o: Outcome)
      modifies this`typedLines, this`emissions, this`waits, this`timerPending
      ensures Observed().(status := o)
        == Play(old(Observed()), TypeStringEvents(old(typedLines), splitter(text), typingDelay), cancel, discarded)
      ensures |old(waits)| <= |waits| && timerPending == (old(timerPending) || |waits| > |old(waits)|)
    {
      var splittedLine := splitter(text);
      ghost var pre := typedLines;
      ghost var target := Play(old(Observed()), TypeStringEvents(old(typedLines), splitter(text), typingDelay), cancel, discarded);
      PlayCons(Observed(), Emit(pre + [Str("")]), StringSteps(pre, splittedLine, 1, typingDelay), cancel, discarded);
      o := UpdateTypedLines(typedLines + [Str("")]);
      if o != Ok {
        return;
      }
      var lastIdx := |typedLines| - 1;
      assert Join(splittedLine[..0]) == "" by {
        assert splittedLine[..0] == [];
      }
      ghost var typed := 0;
      var charIdx := 1;
      while charIdx <= |splittedLine|
        invariant 1 <= charIdx <= |splittedLine| + 1 && typed == charIdx - 1 && o == Ok
        invariant lastIdx == |pre| && typedLines == pre + [Str(Join(splittedLine[..typed]))]
        invariant Play(Observed(), StringSteps(pre, splittedLine, charIdx, typingDelay), cancel, discarded) == target
        invariant |old(waits)| <= |waits| && timerPending == (old(timerPending) || |waits| > |old(waits)|)
        decreases |splittedLine| + 1 - charIdx
      {
        StringStep(Observed(), pre, splittedLine, charIdx, typingDelay, cancel, discarded, target);
        o := TimeoutPromise(typingDelay, cancel);
        if o != Ok {
          return;
        }
        var newLine := Join(splittedLine[..charIdx]);
        var newTypedLines := typedLines[lastIdx := Str(newLine)];
        assert newTypedLines == pre + [Str(newLine)];
        o := UpdateTypedLines(newTypedLines);
        if o != Ok {
          return;
        }
        typed := charIdx;
        charIdx := charIdx + 1;
      }
    }

    method TypeElement(el: nat, cancel: nat -> bool) returns (o: Outcome)
      modifies this`typedLines, this`emissions, this`waits, this`timerPending
      ensures Observed().(status := o)
        == Play(old(Observed()), [Wait(typingDelay), Emit(old(typedLines) + [Node(el)])], cancel, discarded)
      ensures timerPending && |waits| == |old(waits)| + 1
    {
      ghost var line := typedLines + [Node(el)];
      assert [Wait(typingDelay), Emit(line)] == [Wait(typingDelay)] + [Emit(line)];
      PlayCons(Observed(), Wait(typingDelay), [Emit(line)], cancel, discarded);
      o := TimeoutPromise(typingDelay, cancel);
      if o != Ok {
        return;
      }
      PlayOne(Observed(), Emit(line), cancel, discarded);
      o := UpdateTypedLines(typedLines + [Node(el)]);
    }

    /** One step of `#backspace` after its wait: scan backward for the line
        to work on and erase it; also report whether the scan found only
        `null` lines, in which case the rest of the count is dropped. */
    method BackspaceOnce(current: TypedLines) returns (lines: TypedLines, exhausted: bool)
      ensures lines == Backspaced(current, splitter)
      ensures exhausted == Exhausted(current)
    {
      lines := current;
      var lineIndex := |lines| - 1;
      while lineIndex > 0 && lines[lineIndex] == Null
        invariant -1 <= lineIndex < |lines| && (lineIndex == -1 <==> lines == [])
        invariant forall j :: lineIndex < j < |lines| ==> lines[j] == Null
      {
        lineIndex := lineIndex - 1;
      }
      LocateUnique(lines, lineIndex);
      exhausted := false;
      if 0 <= lineIndex {
        var line := lines[lineIndex];
        if line == Null {
          exhausted := true;
        }
        // `typeof null === 'object'`: the placeholder is written again
        if line.Null? || line.Node? {
          lines := lines[lineIndex := Null];
        }
        if line.Str? {
          var newLine := Join(DropLast(splitter(line.text)));
          lines := lines[lineIndex := if newLine == "" then Null else Str(newLine)];
        }
      }
    }

    method Backspace(amount: int, cancel: nat -> bool) returns (o: Outcome)
      modifies this`typedLines, this`emissions, this`waits, this`timerPending
      ensures Observed().(status := o)
        == Play(old(Observed()), BackspaceEvents(old(typedLines), amount, splitter, backspaceDelay), cancel, discarded)
      ensures |old(waits)| <= |waits| && timerPending == (old(timerPending) || |waits| > |old(waits)|)
    {
      ghost var target := Play(old(Observed()), BackspaceEvents(old(typedLines), amount, splitter, backspaceDelay), cancel, discarded);
      var left := amount;
      o := Ok;
      while left > 0
        invariant o == Ok
        invariant Play(Observed(), BackspaceEvents(typedLines, left, splitter, backspaceDelay), cancel, discarded) == target
        invariant |old(waits)| <= |waits| && timerPending == (old(timerPending) || |waits| > |old(waits)|)
        decreases if left > 0 then left else 0
      {
        ghost var leftAfter := if Exhausted(typedLines) then -1 else left - 1;
        BackspaceStep(Observed(), typedLines, left, splitter, backspaceDelay, cancel, discarded, target);
        o := TimeoutPromise(backspaceDelay, cancel);
        if o != Ok {
          return;
        }
        var lines, exhausted := BackspaceOnce(typedLines);
        if exhausted {
          left := 0;
        }
        o := UpdateTypedLines(lines);
        if o != Ok {
          return;
        }
        left := left - 1;
        assert left == leftAfter;
      }
    }

    /** One instruction of a pass, dispatched on its kind. */
    method RunAction(action: Action, cancel: nat -> bool) returns (o: Outcome)
      modifies this`typedLines, this`emissions, this`waits, this`timerPending
      ensures Observed().(status := o)
        == Play(old(Observed()), ActionEvents(old(typedLines), action, Cfg()), cancel, discarded)
      ensures |old(waits)| <= |waits| && timerPending == (old(timerPending) || |waits| > |old(waits)|)
    {
      match action {
        case TypeString(text) =>
          o := TypeString(text, cancel);
        case TypeElement(el) =>
          o := TypeElement(el, cancel);
        case Backspace(amount) =>
          o := Backspace(amount, cancel);
        case Pause(delay) =>
          PlayOne(Observed(), Wait(delay), cancel, discarded);
          o := TimeoutPromise(delay, cancel);
        case Paste(payload) =>
          PlayOne(Observed(), Emit(typedLines + [payload]), cancel, discarded);
          o := UpdateTypedLines(typedLines + [payload]);
      }
    }

    /** One pass of `startTyping`: fetch the instruction list, reset the
        buffer to `[]`, then run the instructions in order, stopping at the
        first one that does not end normally. */
    method RunPass(ghost pass: seq<Event>, cancel: nat -> bool) returns (o: Outcome)
      requires pass == PassEvents(children, Cfg())
      modifies this`typedLines, this`emissions, this`waits, this`timerPending, this`onDoneCount
      ensures Observed().(status := o) == Play(old(Observed()), pass, cancel, discarded)
      ensures onDoneCount == old(onDoneCount) + (if o == Ok then 1 else 0)
      ensures o == Ok ==> !timerPending
      ensures o != Ok ==> timerPending == (old(timerPending) || |waits| > |old(waits)|)
    {
      var actions := children;
      ghost var passEnd := Play(Observed(), pass, cancel, discarded);
      PlayCons(Observed(), Emit([]), ActionsEvents([], actions, Cfg()), cancel, discarded);
      o := UpdateTypedLines([]);
      if o != Ok {
        return;
      }
      assert actions[0..] == actions;
      var actionIdx := 0;
      while actionIdx < |actions|
        invariant 0 <= actionIdx <= |actions| && o == Ok && onDoneCount == old(onDoneCount)
        invariant |old(waits)| <= |waits| && timerPending == (old(timerPending) || |waits| > |old(waits)|)
        invariant Play(Observed(), ActionsEvents(typedLines, actions[actionIdx..], Cfg()), cancel, discarded) == passEnd
      {
        ghost var cur := Observed();
        o := RunAction(actions[actionIdx], cancel);
        PassStep(cur, actions, actionIdx, Cfg(), cancel, discarded, Observed().(status := o));
        if o != Ok {
          return;
        }
        actionIdx := actionIdx + 1;
      }
      onDoneCount := onDoneCount + 1;
      timerPending := false;
    }

    method StartTyping(cancel: nat -> bool, maxPasses: nat)
      requires maxPasses >= 1 && Valid()
      modifies this`typedLines, this`emissions, this`waits, this`timerPending, this`onDoneCount
      ensures Valid() && !timerPending
      ensures var q := PlayPasses(old(Observed()), PassEvents(children, Cfg()),
                                  if loop then maxPasses else 1, cancel, discarded);
        typedLines == q.run.lines && emissions == q.run.log && waits == q.run.waits
        && onDoneCount == old(onDoneCount) + q.done
      ensures !loop ==> onDoneCount <= old(onDoneCount) + 1
      ensures discarded ==> emissions == old(emissions) && onDoneCount == old(onDoneCount) && typedLines == []
    {
      ghost var n := if loop then maxPasses else 1;
      ghost var pass := PassEvents(children, Cfg());
      ghost var r0 := Observed();
      ghost var target := PlayPasses(r0, pass, n, cancel, discarded);
      var passes := 0;
      var running := true;
      ghost var st := r0;
      ghost var left := n;
      while running
        invariant 0 <= passes <= n && left == n - passes && onDoneCount == old(onDoneCount) + passes
        invariant Observed() == st.(status := Ok)
        invariant PlayPasses(st, pass, left, cancel, discarded).run == target.run
        invariant passes + PlayPasses(st, pass, left, cancel, discarded).done == target.done
        invariant running ==> left > 0 && st.status == Ok
        invariant !running ==> !timerPending && (st.status != Ok || left == 0)
        decreases left, running
      {
        var o := RunPass(pass, cancel);
        ghost var r1 := Observed().(status := o);
        PassesUnfold(st, pass, left, cancel, discarded, r1, passes, target);
        st := r1;
        if o != Ok {
          timerPending := false;
          running := false;
        } else {
          passes := passes + 1;
          left := left - 1;
          if !loop || passes >= maxPasses {
            running := false;
          }
        }
      }
      PassesStopped(st, pass, left, cancel, discarded);
      PassesOutcome(r0, pass, n, cancel, discarded, target.run, target.done);
    }
  }
}
