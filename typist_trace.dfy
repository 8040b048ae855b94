/** Observable traces of the engine. Every instruction is described by the
    events it performs when nothing interrupts it: timed waits and emissions
    of a whole snapshot of the typed lines. `Play` runs such a trace against
    the engine's observable state, stopping at the first cancelled wait or at
    the first emission attempted after the engine was discarded. */
module TypistTrace {
  import opened TypistTypes

  datatype Event = Wait(delay: int) | Emit(snapshot: TypedLines)

  /** How a step ended: normally, by a cancelled wait, or by the error the
      discarded state setter throws. */
  datatype Outcome = Ok | Cancelled | Thrown

  /** The observable state: the stored buffer, every snapshot handed to the
      state setter, the delay of every wait started, and how the run stands. */
  datatype Run = Run(lines: TypedLines, log: seq<TypedLines>, waits: seq<int>, status: Outcome)

  /** The buffer the state setter saw last (the empty buffer before any). */
  function Latest(log: seq<TypedLines>): TypedLines
  {
    if log == [] then [] else log[|log| - 1]
  }

  /** The delays of the waits of a trace, in order. */
  function Waits(es: seq<Event>): seq<int>
  {
    if es == [] then []
    else (if es[0].Wait? then [es[0].delay] else []) + Waits(es[1..])
  }

  /** The snapshots a trace emits, in order. */
  function Emits(es: seq<Event>): seq<TypedLines>
  {
    if es == [] then []
    else (if es[0].Emit? then [es[0].snapshot] else []) + Emits(es[1..])
  }

  /** The buffer after a whole trace that started from `lines`. */
  function Final(es: seq<Event>, lines: TypedLines): TypedLines
  {
    if es == [] then lines
    else Final(es[1..], if es[0].Emit? then es[0].snapshot else lines)
  }

  /** One event against a running state. A wait is cancelled when the oracle
      says so for its index; an emission first stores the buffer and then
      hands it to the state setter, which throws once the engine is dead. */
  function Step(r: Run, e: Event, cancel: nat -> bool, dead: bool): Run
  {
    match e
    case Wait(d) => r.(waits := r.waits + [d], status := if cancel(|r.waits|) then Cancelled else Ok)
    case Emit(s) => if dead then r.(lines := s, status := Thrown) else r.(lines := s, log := r.log + [s])
  }

  /** A trace played until it ends or the run stops being `Ok`. */
  function Play(r: Run, es: seq<Event>, cancel: nat -> bool, dead: bool): Run
    decreases |es|
  {
    if es == [] || r.status != Ok then r
    else Play(Step(r, es[0], cancel, dead), es[1..], cancel, dead)
  }

  lemma PlayCons(r: Run, e: Event, rest: seq<Event>, cancel: nat -> bool, dead: bool)
    requires r.status == Ok
    ensures Play(r, [e] + rest, cancel, dead) == Play(Step(r, e, cancel, dead), rest, cancel, dead)
  {
    assert ([e] + rest)[1..] == rest;
  }

  lemma PlayOne(r: Run, e: Event, cancel: nat -> bool, dead: bool)
    requires r.status == Ok
    ensures Play(r, [e], cancel, dead) == Step(r, e, cancel, dead)
  {
    PlayCons(r, e, [], cancel, dead);
    assert [e] + [] == [e];
  }

  /** A wait followed by an emission, spelled out on the observable state. */
  lemma PlayWaitEmit(r: Run, d: int, s: TypedLines, rest: seq<Event>, cancel: nat -> bool, dead: bool)
    requires r.status == Ok
    ensures var w := r.(waits := r.waits + [d]);
      Play(r, [Wait(d), Emit(s)] + rest, cancel, dead)
        == if cancel(|r.waits|) then w.(status := Cancelled)
           else if dead then w.(lines := s, status := Thrown)
           else Play(w.(lines := s, log := r.log + [s]), rest, cancel, dead)
  {
    assert [Wait(d), Emit(s)] + rest == [Wait(d)] + ([Emit(s)] + rest);
    PlayCons(r, Wait(d), [Emit(s)] + rest, cancel, dead);
    var w := Step(r, Wait(d), cancel, dead);
    if w.status == Ok {
      PlayCons(w, Emit(s), rest, cancel, dead);
    }
  }

  lemma {:induction false} TraceAppend(a: seq<Event>, b: seq<Event>, lines: TypedLines)
    ensures Waits(a + b) == Waits(a) + Waits(b)
    ensures Emits(a + b) == Emits(a) + Emits(b)
    ensures Final(a + b, lines) == Final(b, Final(a, lines))
  {
    if a != [] {
      assert (a + b)[1..] == a[1..] + b;
      TraceAppend(a[1..], b, if a[0].Emit? then a[0].snapshot else lines);
    } else {
      assert a + b == b;
    }
  }

  /** Playing two traces one after the other is playing their concatenation. */
  lemma {:induction false} PlayAppend(r: Run, a: seq<Event>, b: seq<Event>, cancel: nat -> bool, dead: bool)
    ensures Play(r, a + b, cancel, dead) == Play(Play(r, a, cancel, dead), b, cancel, dead)
    decreases |a|
  {
    if a == [] {
      assert a + b == b;
    } else if r.status == Ok {
      assert (a + b)[1..] == a[1..] + b;
      PlayAppend(Step(r, a[0], cancel, dead), a[1..], b, cancel, dead);
    }
  }

  /** A trace played to its end leaves exactly its final buffer, has started
      exactly its waits and has handed exactly its snapshots to the setter. */
  lemma {:induction false} PlayComplete(r: Run, es: seq<Event>, cancel: nat -> bool, dead: bool)
    requires r.status == Ok
    ensures var p := Play(r, es, cancel, dead);
      p.status == Ok ==>
        p.lines == Final(es, r.lines) && p.waits == r.waits + Waits(es) && p.log == r.log + Emits(es)
    decreases |es|
  {
    if es != [] {
      var s := Step(r, es[0], cancel, dead);
      if s.status == Ok {
        PlayComplete(s, es[1..], cancel, dead);
      }
    }
  }

  /** Whatever interrupts a trace, the snapshots handed to the state setter
      are a prefix of the trace's snapshots and the waits a prefix of its
      waits: nothing is emitted out of order or after the interruption, and
      a dead engine emits nothing at all. */
  lemma {:induction false} PlayPrefix(r: Run, es: seq<Event>, cancel: nat -> bool, dead: bool)
    ensures var p := Play(r, es, cancel, dead);
      |r.log| <= |p.log| <= |r.log| + |Emits(es)| && p.log == r.log + Emits(es)[..|p.log| - |r.log|]
      && |r.waits| <= |p.waits| <= |r.waits| + |Waits(es)| && p.waits == r.waits + Waits(es)[..|p.waits| - |r.waits|]
      && (dead ==> p.log == r.log)
    decreases |es|
  {
    if es != [] && r.status == Ok {
      var s := Step(r, es[0], cancel, dead);
      PlayPrefix(s, es[1..], cancel, dead);
      var p := Play(r, es, cancel, dead);
      assert Emits(es) == (if es[0].Emit? then [es[0].snapshot] else []) + Emits(es[1..]);
      assert Waits(es) == (if es[0].Wait? then [es[0].delay] else []) + Waits(es[1..]);
      if es[0].Emit? && !dead {
        assert p.log == r.log + Emits(es)[..|p.log| - |r.log|];
      }
      if es[0].Wait? {
        assert p.waits == r.waits + Waits(es)[..|p.waits| - |r.waits|];
      }
    }
  }

  /** Single writer: while the engine is alive, the stored buffer is only ever
      changed together with an emission of it, so if it equals the last
      emitted snapshot before a trace it still does afterwards, whether the
      trace finishes or is cancelled. */
  lemma {:induction false} PlaySingleWriter(r: Run, es: seq<Event>, cancel: nat -> bool)
    requires r.lines == Latest(r.log)
    ensures var p := Play(r, es, cancel, false); p.lines == Latest(p.log)
    decreases |es|
  {
    if es != [] && r.status == Ok {
      PlaySingleWriter(Step(r, es[0], cancel, false), es[1..], cancel);
    }
  }
}
