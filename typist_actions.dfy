/** What each instruction does to the typed lines, written as the trace it
    performs when no wait is cancelled, and the passes of a whole run. The
    imperative executors of `TypistEngine` are proved to play these traces;
    the lemmas here say what the traces mean. */
module TypistActions {
  import opened TypistTypes
  import opened TypistTrace

  /** The configuration fields an instruction reads while it runs. */
  datatype Config = Config(typingDelay: int, backspaceDelay: int, splitter: Splitter)

  // ---------------------------------------------------------------- backspace

  /** The line a backspace step works on: scanning backward from the last
      line, skip `null` lines but never go past index 0; -1 for no lines. */
  function Locate(lines: TypedLines): (i: int)
    ensures -1 <= i < |lines|
    ensures i == -1 <==> lines == []
    ensures forall j :: i < j < |lines| ==> lines[j] == Null
    ensures 0 < i ==> lines[i] != Null
    decreases |lines|
  {
    if |lines| == 0 then -1
    else if |lines| == 1 || lines[|lines| - 1] != Null then |lines| - 1
    else Locate(lines[..|lines| - 1])
  }

  /** The four facts of `Locate`'s contract single out its result. */
  lemma LocateUnique(lines: TypedLines, k: int)
    requires -1 <= k < |lines| && (k == -1 <==> lines == [])
    requires forall j :: k < j < |lines| ==> lines[j] == Null
    requires 0 < k ==> lines[k] != Null
    ensures k == Locate(lines)
  {
  }

  /** The scan found only `null` lines, down to and including index 0. */
  predicate Exhausted(lines: TypedLines)
  {
    0 <= Locate(lines) && lines[Locate(lines)] == Null
  }

  /** The scan ends on a `null` line exactly when it reached index 0 and that
      line is `null`, which is exactly when every line is `null`. */
  lemma ExhaustedMeansAllNull(lines: TypedLines)
    ensures Exhausted(lines) <==> |lines| > 0 && Locate(lines) == 0 && lines[0] == Null
    ensures Exhausted(lines) <==> |lines| > 0 && forall j :: 0 <= j < |lines| ==> lines[j] == Null
  {
    if |lines| > 0 && forall j :: 0 <= j < |lines| ==> lines[j] == Null {
      assert lines[Locate(lines)] == Null;
    }
  }

  /** A string line after losing its last unit: `null` once nothing is left. */
  function Erase(s: string, splitter: Splitter): (r: Line)
    ensures r != Str("") && !r.Node?
    ensures r.Str? <==> Join(DropLast(splitter(s))) != ""
  {
    var rest := Join(DropLast(splitter(s)));
    if rest == "" then Null else Str(rest)
  }

  /** One backspace step on the buffer. Only the located line changes: an
      element (or the `null` the scan stopped on) becomes `null`, a string
      loses its last unit. The buffer never shrinks. */
  function Backspaced(lines: TypedLines, splitter: Splitter): (r: TypedLines)
    ensures |r| == |lines|
    ensures forall j :: 0 <= j < |lines| && j != Locate(lines) ==> r[j] == lines[j]
    ensures 0 <= Locate(lines) && !lines[Locate(lines)].Str? ==> r[Locate(lines)] == Null
    ensures 0 <= Locate(lines) && lines[Locate(lines)].Str? ==>
              r[Locate(lines)] == Erase(lines[Locate(lines)].text, splitter)
  {
    var i := Locate(lines);
    if i < 0 then lines
    else match lines[i]
      case Str(s) => lines[i := Erase(s, splitter)]
      case _ => lines[i := Null]
  }

  /** `BACKSPACE(amount)`: each step waits, then emits the backspaced buffer;
      when the scan found nothing but `null` lines, the rest of the count is
      dropped after that step. */
  function BackspaceEvents(lines: TypedLines, amount: int, splitter: Splitter, delay: int): seq<Event>
    decreases if amount > 0 then amount else 0
  {
    if amount <= 0 then []
    else
      var next := Backspaced(lines, splitter);
      var left := if Exhausted(lines) then -1 else amount - 1;
      [Wait(delay), Emit(next)] + BackspaceEvents(next, left, splitter, delay)
  }

  // -------------------------------------------------------------- type string

  /** Steps k, k+1, ..., |units| of typing a string: wait, then show the
      first k units joined as the new last line. */
  function StringSteps(pre: TypedLines, units: seq<string>, k: nat, delay: int): seq<Event>
    decreases if k <= |units| then |units| + 1 - k else 0
  {
    if k > |units| then []
    else [Wait(delay), Emit(pre + [Str(Join(units[..k]))])] + StringSteps(pre, units, k + 1, delay)
  }

  /** `TYPE_STRING`: append an empty line, then grow it one unit at a time. */
  function TypeStringEvents(pre: TypedLines, units: seq<string>, delay: int): seq<Event>
  {
    [Emit(pre + [Str("")])] + StringSteps(pre, units, 1, delay)
  }

  // ------------------------------------------------------------- instructions

  function ActionEvents(lines: TypedLines, a: Action, cfg: Config): seq<Event>
  {
    match a
    case TypeString(text) => TypeStringEvents(lines, cfg.splitter(text), cfg.typingDelay)
    case TypeElement(el) => [Wait(cfg.typingDelay), Emit(lines + [Node(el)])]
    case Backspace(n) => BackspaceEvents(lines, n, cfg.splitter, cfg.backspaceDelay)
    case Pause(d) => [Wait(d)]
    case Paste(p) => [Emit(lines + [p])]
  }

  /** The instructions run one after another, each on the buffer the
      previous one left. */
  function ActionsEvents(lines: TypedLines, acts: seq<Action>, cfg: Config): seq<Event>
    decreases |acts|
  {
    if acts == [] then []
    else
      var first := ActionEvents(lines, acts[0], cfg);
      first + ActionsEvents(Final(first, lines), acts[1..], cfg)
  }

  lemma StringStepsUnfold(pre: TypedLines, units: seq<string>, k: nat, delay: int)
    requires 1 <= k <= |units|
    ensures StringSteps(pre, units, k, delay)
      == [Wait(delay), Emit(pre + [Str(Join(units[..k]))])] + StringSteps(pre, units, k + 1, delay)
  {
  }

  /** One backspace step against a running state: the wait, then the
      shortened buffer. */
  lemma BackspaceStep(r: Run, lines: TypedLines, amount: int, splitter: Splitter, delay: int,
                      cancel: nat -> bool, dead: bool, target: Run)
    requires amount > 0 && r.status == Ok
    requires Play(r, BackspaceEvents(lines, amount, splitter, delay), cancel, dead) == target
    ensures var w := r.(waits := r.waits + [delay]);
      var next := Backspaced(lines, splitter);
      && (cancel(|r.waits|) ==> w.(status := Cancelled) == target)
      && (!cancel(|r.waits|) && dead ==> w.(lines := next, status := Thrown) == target)
      && (!cancel(|r.waits|) && !dead ==>
            Play(w.(lines := next, log := r.log + [next]),
                 BackspaceEvents(next, if Exhausted(lines) then -1 else amount - 1, splitter, delay),
                 cancel, dead) == target)
  {
    var next := Backspaced(lines, splitter);
    BackspaceUnfold(lines, amount, splitter, delay);
    PlayWaitEmit(r, delay, next, BackspaceEvents(next, if Exhausted(lines) then -1 else amount - 1, splitter, delay),
                 cancel, dead);
  }

  /** One unit typed against a running state: the wait, then the grown line. */
  lemma StringStep(r: Run, pre: TypedLines, units: seq<string>, k: nat, delay: int,
                   cancel: nat -> bool, dead: bool, target: Run)
    requires 1 <= k <= |units| && r.status == Ok
    requires Play(r, StringSteps(pre, units, k, delay), cancel, dead) == target
    ensures var w := r.(waits := r.waits + [delay]);
      var s := pre + [Str(Join(units[..k]))];
      && (cancel(|r.waits|) ==> w.(status := Cancelled) == target)
      && (!cancel(|r.waits|) && dead ==> w.(lines := s, status := Thrown) == target)
      && (!cancel(|r.waits|) && !dead ==>
            Play(w.(lines := s, log := r.log + [s]), StringSteps(pre, units, k + 1, delay), cancel, dead) == target)
  {
    StringStepsUnfold(pre, units, k, delay);
    PlayWaitEmit(r, delay, pre + [Str(Join(units[..k]))], StringSteps(pre, units, k + 1, delay), cancel, dead);
  }

  lemma BackspaceUnfold(lines: TypedLines, amount: int, splitter: Splitter, delay: int)
    requires amount > 0
    ensures var next := Backspaced(lines, splitter);
      BackspaceEvents(lines, amount, splitter, delay)
        == [Wait(delay), Emit(next)] + BackspaceEvents(next, if Exhausted(lines) then -1 else amount - 1, splitter, delay)
  {
  }

  /** Running the i-th instruction and then the rest is running them all. */
  lemma PassStep(cur: Run, acts: seq<Action>, i: nat, cfg: Config, cancel: nat -> bool, dead: bool, after: Run)
    requires i < |acts| && cur.status == Ok
    requires after == Play(cur, ActionEvents(cur.lines, acts[i], cfg), cancel, dead)
    ensures Play(cur, ActionsEvents(cur.lines, acts[i..], cfg), cancel, dead)
      == Play(after, ActionsEvents(after.lines, acts[i + 1..], cfg), cancel, dead)
  {
    var first := ActionEvents(cur.lines, acts[i], cfg);
    var rest := ActionsEvents(Final(first, cur.lines), acts[i + 1..], cfg);
    ActionsUnfold(cur.lines, acts, i, cfg);
    PlayAppend(cur, first, rest, cancel, dead);
    PlayComplete(cur, first, cancel, dead);
  }

  lemma ActionsUnfold(lines: TypedLines, acts: seq<Action>, i: nat, cfg: Config)
    requires i < |acts|
    ensures var first := ActionEvents(lines, acts[i], cfg);
      ActionsEvents(lines, acts[i..], cfg) == first + ActionsEvents(Final(first, lines), acts[i + 1..], cfg)
  {
    assert acts[i..][0] == acts[i];
    assert acts[i..][1..] == acts[i + 1..];
  }

  /** One pass: reset the buffer to `[]`, then run every instruction. */
  function PassEvents(acts: seq<Action>, cfg: Config): (es: seq<Event>)
    ensures |es| > 0 && es[0] == Emit([])
  {
    [Emit([])] + ActionsEvents([], acts, cfg)
  }

  /** Where a run of passes stands: the observable state and how many
      passes completed. */
  datatype Progress = Progress(run: Run, done: nat)

  /** Up to `n` passes of the same trace, each completed pass followed by one
      `onTypingDone` call; a pass that does not complete ends the run.
      Returns the state and the number of `onTypingDone` calls. */
  function PlayPasses(r: Run, pass: seq<Event>, n: nat, cancel: nat -> bool, dead: bool): Progress
    decreases n
  {
    if n == 0 then Progress(r, 0)
    else
      var r1 := Play(r, pass, cancel, dead);
      if r1.status != Ok then Progress(r1, 0)
      else
        var rest := PlayPasses(r1, pass, n - 1, cancel, dead);
        Progress(rest.run, rest.done + 1)
  }

  // ------------------------------------------------------------------ lemmas

  /** A run that has stopped, or has no passes left, stays where it is. */
  lemma PassesStopped(r: Run, pass: seq<Event>, m: nat, cancel: nat -> bool, dead: bool)
    requires r.status != Ok || m == 0
    ensures PlayPasses(r, pass, m, cancel, dead) == Progress(r, 0)
  {
  }

  /** Playing one pass of the remaining `m` leaves the rest of the run's
      result unchanged, counting the pass if it completed. */
  lemma PassesUnfold(r: Run, pass: seq<Event>, m: nat, cancel: nat -> bool, dead: bool, r1: Run,
                     passes: nat, target: Progress)
    requires m >= 1 && r1 == Play(r, pass, cancel, dead)
    requires PlayPasses(r, pass, m, cancel, dead).run == target.run
    requires passes + PlayPasses(r, pass, m, cancel, dead).done == target.done
    ensures r1.status != Ok ==>
      PlayPasses(r1, pass, m, cancel, dead).run == target.run
      && passes + PlayPasses(r1, pass, m, cancel, dead).done == target.done
    ensures r1.status == Ok ==>
      PlayPasses(r1, pass, m - 1, cancel, dead).run == target.run
      && passes + 1 + PlayPasses(r1, pass, m - 1, cancel, dead).done == target.done
  {
    if r1.status != Ok {
      PassesStopped(r1, pass, m, cancel, dead);
    }
  }

  /** A wait followed by one emission. */
  lemma WaitEmitTrace(delay: int, s: TypedLines, lines: TypedLines)
    ensures var es := [Wait(delay), Emit(s)];
      Waits(es) == [delay] && Emits(es) == [s] && Final(es, lines) == s
  {
    var es := [Wait(delay), Emit(s)];
    var tail := [Emit(s)];
    assert es[1..] == tail;
    assert tail[1..] == [];
    assert Waits(tail) == [] + Waits(tail[1..]) == [];
    assert Emits(tail) == [s] + Emits(tail[1..]) == [s];
    assert Final(tail, lines) == Final(tail[1..], s) == s;
    assert Waits(es) == [delay] + Waits(tail);
    assert Emits(es) == [] + Emits(tail);
    assert Final(es, lines) == Final(tail, lines);
  }

  /** One step of a string's growth, seen through the trace's projections. */
  lemma StringStepsHead(pre: TypedLines, units: seq<string>, k: nat, delay: int, lines: TypedLines)
    requires 1 <= k <= |units|
    ensures var es := StringSteps(pre, units, k, delay);
      var rest := StringSteps(pre, units, k + 1, delay);
      var s := pre + [Str(Join(units[..k]))];
      Waits(es) == [delay] + Waits(rest) && Emits(es) == [s] + Emits(rest)
      && Final(es, lines) == Final(rest, s)
  {
    var s := pre + [Str(Join(units[..k]))];
    StringStepsUnfold(pre, units, k, delay);
    TraceAppend([Wait(delay), Emit(s)], StringSteps(pre, units, k + 1, delay), lines);
    WaitEmitTrace(delay, s, lines);
  }

  lemma {:induction false} StringStepsWaits(pre: TypedLines, units: seq<string>, k: nat, delay: int)
    requires 1 <= k <= |units| + 1
    ensures var ws := Waits(StringSteps(pre, units, k, delay));
      |ws| == |units| + 1 - k && forall w :: w in ws ==> w == delay
    decreases |units| + 1 - k
  {
    if k <= |units| {
      StringStepsHead(pre, units, k, delay, []);
      StringStepsWaits(pre, units, k + 1, delay);
    }
  }

  lemma {:induction false} StringStepsEmits(pre: TypedLines, units: seq<string>, k: nat, delay: int)
    requires 1 <= k <= |units| + 1
    ensures var ss := Emits(StringSteps(pre, units, k, delay));
      |ss| == |units| + 1 - k
      && forall j :: 0 <= j < |ss| ==> ss[j] == pre + [Str(Join(units[..k + j]))]
    decreases |units| + 1 - k
  {
    if k <= |units| {
      StringStepsHead(pre, units, k, delay, []);
      StringStepsEmits(pre, units, k + 1, delay);
      var ss := Emits(StringSteps(pre, units, k, delay));
      var tail := Emits(StringSteps(pre, units, k + 1, delay));
      forall j | 0 <= j < |ss|
        ensures ss[j] == pre + [Str(Join(units[..k + j]))]
      {
        if j > 0 {
          assert ss[j] == tail[j - 1];
        }
      }
    }
  }

  lemma {:induction false} StringStepsFinal(pre: TypedLines, units: seq<string>, k: nat, delay: int, lines: TypedLines)
    requires 1 <= k <= |units| + 1
    ensures Final(StringSteps(pre, units, k, delay), lines)
      == if k <= |units| then pre + [Str(Join(units))] else lines
    decreases |units| + 1 - k
  {
    if k <= |units| {
      var s := pre + [Str(Join(units[..k]))];
      StringStepsHead(pre, units, k, delay, lines);
      StringStepsFinal(pre, units, k + 1, delay, s);
      if k == |units| {
        assert units[..k] == units;
      }
    }
  }

  lemma StringStepsTrace(pre: TypedLines, units: seq<string>, k: nat, delay: int, lines: TypedLines)
    requires 1 <= k <= |units| + 1
    ensures var es := StringSteps(pre, units, k, delay);
      |Waits(es)| == |units| + 1 - k && (forall w :: w in Waits(es) ==> w == delay)
      && |Emits(es)| == |units| + 1 - k
      && (forall j :: 0 <= j < |units| + 1 - k ==> Emits(es)[j] == pre + [Str(Join(units[..k + j]))])
      && Final(es, lines) == (if k <= |units| then pre + [Str(Join(units))] else lines)
  {
    StringStepsWaits(pre, units, k, delay);
    StringStepsEmits(pre, units, k, delay);
    StringStepsFinal(pre, units, k, delay, lines);
  }

  /** `TYPE_STRING` over n units: n waits of the typing delay and n + 1
      emissions, the k-th showing the first k units joined as one new last
      line with every earlier line untouched; the buffer ends one line longer,
      that line being the whole joined text. */
  lemma TypeStringTrace(pre: TypedLines, units: seq<string>, delay: int)
    ensures var es := TypeStringEvents(pre, units, delay);
      |Waits(es)| == |units| && (forall w :: w in Waits(es) ==> w == delay)
      && |Emits(es)| == |units| + 1
      && (forall k :: 0 <= k <= |units| ==> Emits(es)[k] == pre + [Str(Join(units[..k]))])
      && Final(es, pre) == pre + [Str(Join(units))]
      && |Final(es, pre)| == |pre| + 1 && Final(es, pre)[..|pre|] == pre
  {
    var first := [Emit(pre + [Str("")])];
    var rest := StringSteps(pre, units, 1, delay);
    StringStepsTrace(pre, units, 1, delay, pre + [Str("")]);
    TraceAppend(first, rest, pre);
    assert Emits(first) == [pre + [Str("")]];
    assert Waits(first) == [];
    assert Final(first, pre) == pre + [Str("")];
    var es := TypeStringEvents(pre, units, delay);
    forall k | 0 <= k <= |units|
      ensures Emits(es)[k] == pre + [Str(Join(units[..k]))]
    {
      if k == 0 {
        assert units[..0] == [];
      } else {
        assert Emits(es)[k] == Emits(rest)[k - 1];
      }
    }
    if units == [] {
      assert Final(es, pre) == pre + [Str("")];
    }
  }

  /** `BACKSPACE(amount)` makes at most `amount` waits of the backspace delay,
      each followed by exactly one emission, and every snapshot keeps the
      number of lines. On an empty buffer the whole count is spent; on a
      buffer of only `null` lines the count is dropped after one step that
      re-emits the buffer unchanged. */
  lemma {:induction false} BackspaceTrace(lines: TypedLines, amount: int, splitter: Splitter, delay: int)
    ensures var es := BackspaceEvents(lines, amount, splitter, delay);
      |Waits(es)| == |Emits(es)| <= (if amount > 0 then amount else 0)
      && (forall w :: w in Waits(es) ==> w == delay)
      && (forall s :: s in Emits(es) ==> |s| == |lines|)
      && |Final(es, lines)| == |lines|
      && (lines == [] ==> |Emits(es)| == (if amount > 0 then amount else 0))
      && (Exhausted(lines) && amount > 0 ==> Emits(es) == [lines])
    decreases if amount > 0 then amount else 0
  {
    if amount > 0 {
      var next := Backspaced(lines, splitter);
      var left := if Exhausted(lines) then -1 else amount - 1;
      BackspaceTrace(next, left, splitter, delay);
      BackspaceHead(lines, amount, splitter, delay, next, left);
      BackspaceFinalStep(lines, amount, splitter, delay, next, left);
      if Exhausted(lines) {
        ExhaustedMeansAllNull(lines);
        assert next == lines;
      }
      if lines == [] {
        assert next == [];
      }
    }
  }

  /** The snapshots of `BACKSPACE(amount)` are successive backspace steps:
      the first is one step of the starting buffer, each later one a step of
      the snapshot before it. */
  lemma {:induction false} BackspaceSteps(lines: TypedLines, amount: int, splitter: Splitter, delay: int)
    ensures var es := BackspaceEvents(lines, amount, splitter, delay);
      (amount > 0 ==> |Emits(es)| > 0 && Emits(es)[0] == Backspaced(lines, splitter))
      && (forall k :: 0 < k < |Emits(es)| ==> Emits(es)[k] == Backspaced(Emits(es)[k - 1], splitter))
    decreases if amount > 0 then amount else 0
  {
    if amount > 0 {
      var next := Backspaced(lines, splitter);
      var left := if Exhausted(lines) then -1 else amount - 1;
      var head := [Wait(delay), Emit(next)];
      var rest := BackspaceEvents(next, left, splitter, delay);
      var es := head + rest;
      assert BackspaceEvents(lines, amount, splitter, delay) == es;
      BackspaceSteps(next, left, splitter, delay);
      TraceAppend(head, rest, lines);
      WaitEmitTrace(delay, next, lines);
      assert Emits(es) == [next] + Emits(rest);
      forall k | 0 < k < |Emits(es)|
        ensures Emits(es)[k] == Backspaced(Emits(es)[k - 1], splitter)
      {
        assert Emits(es)[k] == Emits(rest)[k - 1];
      }
    }
  }

  /** `BACKSPACE(amount)` takes all `amount` steps unless a step starts from
      a buffer whose scan finds only `null` lines: no step but the last starts
      from such a buffer (step 0 starts from `lines`, step i + 1 from snapshot
      i), and a run shorter than `amount` ends right after one. */
  lemma {:induction false} BackspaceStops(lines: TypedLines, amount: int, splitter: Splitter, delay: int)
    ensures var ss := Emits(BackspaceEvents(lines, amount, splitter, delay));
      (|ss| > 1 ==> !Exhausted(lines))
      && (forall i :: 0 <= i < |ss| - 2 ==> !Exhausted(ss[i]))
      && (amount > 0 && |ss| < amount ==>
            (|ss| == 1 && Exhausted(lines)) || (|ss| > 1 && Exhausted(ss[|ss| - 2])))
    decreases if amount > 0 then amount else 0
  {
    if amount > 0 {
      var next := Backspaced(lines, splitter);
      var left := if Exhausted(lines) then -1 else amount - 1;
      var rest := BackspaceEvents(next, left, splitter, delay);
      BackspaceStops(next, left, splitter, delay);
      BackspaceHead(lines, amount, splitter, delay, next, left);
      var ss := Emits(BackspaceEvents(lines, amount, splitter, delay));
      var tail := Emits(rest);
      if !Exhausted(lines) {
        forall i | 0 <= i < |ss| - 2
          ensures !Exhausted(ss[i])
        {
          if i > 0 {
            assert ss[i] == tail[i - 1];
          }
        }
        if |tail| > 1 {
          assert ss[|ss| - 2] == tail[|tail| - 2];
        }
      }
    }
  }

  /** The waits and snapshots of `BACKSPACE(amount)` are one step's wait and
      buffer followed by those of the rest of the count; nothing follows a
      step that found only `null` lines. */
  lemma BackspaceHead(lines: TypedLines, amount: int, splitter: Splitter, delay: int,
                      next: TypedLines, left: int)
    requires amount > 0 && next == Backspaced(lines, splitter)
    requires left == if Exhausted(lines) then -1 else amount - 1
    ensures Emits(BackspaceEvents(lines, amount, splitter, delay))
      == [next] + Emits(BackspaceEvents(next, left, splitter, delay))
    ensures Waits(BackspaceEvents(lines, amount, splitter, delay))
      == [delay] + Waits(BackspaceEvents(next, left, splitter, delay))
    ensures Exhausted(lines) ==> Emits(BackspaceEvents(lines, amount, splitter, delay)) == [next]
  {
    BackspaceUnfold(lines, amount, splitter, delay);
    TraceAppend([Wait(delay), Emit(next)], BackspaceEvents(next, left, splitter, delay), lines);
    WaitEmitTrace(delay, next, lines);
  }

  /** A backspace run that completes ends where the rest of the count,
      started from one step's buffer, ends. */
  lemma BackspaceFinalStep(lines: TypedLines, amount: int, splitter: Splitter, delay: int,
                           next: TypedLines, left: int)
    requires amount > 0 && next == Backspaced(lines, splitter)
    requires left == if Exhausted(lines) then -1 else amount - 1
    ensures Final(BackspaceEvents(lines, amount, splitter, delay), lines)
      == Final(BackspaceEvents(next, left, splitter, delay), next)
  {
    BackspaceUnfold(lines, amount, splitter, delay);
    TraceAppend([Wait(delay), Emit(next)], BackspaceEvents(next, left, splitter, delay), lines);
    WaitEmitTrace(delay, next, lines);
  }

  /** One backspace step on a typed prefix of `k` units removes its last
      unit, or the whole line when it held one unit. */
  lemma EraseLastUnit(pre: TypedLines, units: seq<string>, splitter: Splitter, k: nat)
    requires 1 <= k <= |units| && units[0] != ""
    requires splitter(Join(units[..k])) == units[..k]
    ensures var start := pre + [Str(Join(units[..k]))];
      !Exhausted(start)
      && (k == 1 ==> Backspaced(start, splitter) == pre + [Null])
      && (k > 1 ==> Backspaced(start, splitter) == pre + [Str(Join(units[..k - 1]))])
  {
    var start := pre + [Str(Join(units[..k]))];
    LocateUnique(start, |pre|);
    assert DropLast(units[..k]) == units[..k - 1];
    JoinEmpty(units[..k - 1]);
    if k > 1 {
      assert units[..k - 1][0] == units[0];
    }
  }

  lemma {:induction false} EraseTypedPrefix(pre: TypedLines, units: seq<string>, splitter: Splitter, k: nat, delay: int)
    requires 1 <= k <= |units|
    requires forall i :: 0 <= i < |units| ==> units[i] != ""
    requires forall m :: 1 <= m <= |units| ==> splitter(Join(units[..m])) == units[..m]
    ensures var start := pre + [Str(Join(units[..k]))];
      Final(BackspaceEvents(start, k, splitter, delay), start) == pre + [Null]
  {
    var start := pre + [Str(Join(units[..k]))];
    EraseLastUnit(pre, units, splitter, k);
    if k > 1 {
      var next := pre + [Str(Join(units[..k - 1]))];
      BackspaceFinalStep(start, k, splitter, delay, next, k - 1);
      EraseTypedPrefix(pre, units, splitter, k - 1, delay);
    } else {
      BackspaceFinalStep(start, k, splitter, delay, pre + [Null], 0);
    }
  }

  /** Two instructions run one after the other. */
  lemma ActionsPair(lines: TypedLines, a: Action, b: Action, cfg: Config)
    ensures var first := ActionEvents(lines, a, cfg);
      ActionsEvents(lines, [a, b], cfg) == first + ActionEvents(Final(first, lines), b, cfg)
  {
    var first := ActionEvents(lines, a, cfg);
    var second := ActionEvents(Final(first, lines), b, cfg);
    assert [a, b][1..] == [b];
    assert [b][1..] == [];
    assert ActionsEvents(Final(first, lines), [b], cfg) == second + [];
  }

  /** Backspacing a freshly typed string as many times as it has units leaves
      a `null` in its place, provided the splitter splits each typed prefix
      back into the units it was joined from and no unit is empty. */
  lemma BackspaceUndoesTypeString(pre: TypedLines, text: string, cfg: Config)
    requires |cfg.splitter(text)| > 0
    requires forall i :: 0 <= i < |cfg.splitter(text)| ==> cfg.splitter(text)[i] != ""
    requires forall m :: 1 <= m <= |cfg.splitter(text)| ==>
               cfg.splitter(Join(cfg.splitter(text)[..m])) == cfg.splitter(text)[..m]
    ensures Final(ActionsEvents(pre, [TypeString(text), Backspace(|cfg.splitter(text)|)], cfg), pre) == pre + [Null]
  {
    var units := cfg.splitter(text);
    var typed := ActionEvents(pre, TypeString(text), cfg);
    TypeStringTrace(pre, units, cfg.typingDelay);
    var after := Final(typed, pre);
    assert units[..|units|] == units;
    assert after == pre + [Str(Join(units[..|units|]))];
    var erased := ActionEvents(after, Backspace(|units|), cfg);
    ActionsPair(pre, TypeString(text), Backspace(|units|), cfg);
    TraceAppend(typed, erased, pre);
    EraseTypedPrefix(pre, units, cfg.splitter, |units|, cfg.backspaceDelay);
  }

  /** What each instruction does when it runs to completion: waits, number
      of emissions and the buffer it leaves. An element and a paste add their
      payload whole as one new line in a single emission (an element after one
      wait, a paste with none), so no snapshot holds a partial element; a pause
      only waits; a backspace keeps the number of lines. */
  lemma ActionTrace(lines: TypedLines, a: Action, cfg: Config)
    ensures var es := ActionEvents(lines, a, cfg);
      (a.TypeString? ==>
        |Waits(es)| == |cfg.splitter(a.text)| && |Emits(es)| == |cfg.splitter(a.text)| + 1
        && Final(es, lines) == lines + [Str(Join(cfg.splitter(a.text)))])
      && (a.TypeElement? ==>
        Waits(es) == [cfg.typingDelay] && Emits(es) == [lines + [Node(a.element)]]
        && Final(es, lines) == lines + [Node(a.element)])
      && (a.Backspace? ==>
        |Waits(es)| == |Emits(es)| <= (if a.amount > 0 then a.amount else 0) && |Final(es, lines)| == |lines|)
      && (a.Pause? ==> Waits(es) == [a.delay] && Emits(es) == [] && Final(es, lines) == lines)
      && (a.Paste? ==> Waits(es) == [] && Emits(es) == [lines + [a.payload]] && Final(es, lines) == lines + [a.payload])
  {
    match a
    case TypeString(text) => TypeStringTrace(lines, cfg.splitter(text), cfg.typingDelay);
    case TypeElement(el) => WaitEmitTrace(cfg.typingDelay, lines + [Node(el)], lines);
    case Backspace(n) => BackspaceTrace(lines, n, cfg.splitter, cfg.backspaceDelay);
    case Pause(d) =>
    case Paste(p) =>
  }

  /** A run of up to `n` passes of a trace that starts by resetting the
      buffer: `onTypingDone` is called once per completed pass and never
      after an interrupted one, so the run completes exactly when it is
      called n times; snapshots are only ever appended to the log; a dead
      engine emits nothing and completes no pass; a live engine keeps its
      buffer equal to the last emitted snapshot. */
  lemma {:induction false} PassesOutcome(r: Run, pass: seq<Event>, n: nat, cancel: nat -> bool, dead: bool, p: Run, done: nat)
    requires r.status == Ok && |pass| > 0 && pass[0] == Emit([])
    requires PlayPasses(r, pass, n, cancel, dead) == Progress(p, done)
    ensures done <= n && (p.status == Ok <==> done == n)
    ensures |r.log| <= |p.log| && p.log[..|r.log|] == r.log
    ensures dead ==> p.log == r.log && (n > 0 ==> done == 0 && p.lines == [] && p.status == Thrown)
    ensures !dead && r.lines == Latest(r.log) ==> p.lines == Latest(p.log)
    decreases n
  {
    if n > 0 {
      var r1 := Play(r, pass, cancel, dead);
      PlayPrefix(r, pass, cancel, dead);
      if !dead && r.lines == Latest(r.log) {
        PlaySingleWriter(r, pass, cancel);
      }
      if dead {
        assert pass == [Emit([])] + pass[1..];
        PlayCons(r, Emit([]), pass[1..], cancel, dead);
      }
      if r1.status == Ok {
        var rest := PlayPasses(r1, pass, n - 1, cancel, dead);
        PassesOutcome(r1, pass, n - 1, cancel, dead, rest.run, rest.done);
      }
    }
  }

  /** A run whose every pass completed ends with the buffer that the
      instructions build from `[]`, whatever the buffer was before. */
  lemma {:induction false} PassesFinal(r: Run, acts: seq<Action>, cfg: Config, n: nat, cancel: nat -> bool, dead: bool)
    requires r.status == Ok
    ensures var p := PlayPasses(r, PassEvents(acts, cfg), n, cancel, dead).run;
      p.status == Ok && n > 0 ==> p.lines == Final(ActionsEvents([], acts, cfg), [])
    decreases n
  {
    if n > 0 {
      var pass := PassEvents(acts, cfg);
      var r1 := Play(r, pass, cancel, dead);
      if r1.status == Ok {
        PlayComplete(r, pass, cancel, dead);
        assert Final(pass, r.lines) == Final(ActionsEvents([], acts, cfg), []);
        PassesFinal(r1, acts, cfg, n - 1, cancel, dead);
      }
    }
  }
}
