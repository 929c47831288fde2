/**
 * The note-matching game of jogar_nota_adaptado (desktop) and jogar_nota
 * (Raspberry Pi). The targets are a permutation of the twelve notes,
 * consumed from the end; each tick brings the detector's answer (or none).
 *
 * Step and Run specify one tick and a sequence of ticks on values; the
 * class NoteGame holds the game's state in place and its Tick is proved
 * against Step; Play is the game loop over a finite stream of ticks.
 */
module Game {
  import opened Wrappers
  import opened Notes

  /**
   * The two programs end differently: the desktop loop ends when a correct
   * note finds the queue empty; the Raspberry Pi loop `while notas` ends as
   * soon as the queue becomes empty.
   */
  datatype Variant = Desktop | RaspberryPi

  /** The target (objetivo), the remaining queue (notas) and whether the loop has ended. */
  datatype State = State(objetivo: string, notas: seq<string>, over: bool)

  /** What one tick shows the player. */
  datatype Event =
    | Ignored                                    // no note detected, or the loop has ended
    | Wrong(played: string, target: string)      // a note other than the target
    | Hit(target: string, next: Option<string>)  // the target; next is the new target popped, if any

  /** The number of pitch classes, |NotasGuitarra| (see PermutationFacts). */
  const NoteCount: nat := 12

  /**
   * What the game needs of random.sample(NOTAS_GUITARRA, 12): twelve
   * targets, none repeated. Every permutation of the notes is one
   * (DrawOfNotes).
   */
  predicate IsDraw(perm: seq<string>) {
    |perm| == NoteCount && Distinct(perm)
  }

  lemma DrawOfNotes(p: seq<string>)
    requires IsPermutationOfNotes(p)
    ensures IsDraw(p)
  {
    PermutationFacts(p);
  }

  /** The number of correct notes a complete game takes. */
  function Needed(v: Variant): nat {
    if v == Desktop then NoteCount else NoteCount - 1
  }

  /** The targets hit, in order, in a sequence of events. */
  function Hits(es: seq<Event>): seq<string> {
    if es == [] then []
    else
      var last := es[|es| - 1];
      Hits(es[..|es| - 1]) + (if last.Hit? then [last.target] else [])
  }

  /**
   * Game start: notas = random.sample(NOTAS_GUITARRA, 12); objetivo = notas.pop().
   * The target is the last element, the queue keeps the other eleven, and
   * between them they hold each of the twelve notes once.
   */
  function Start(perm: seq<string>): (s: State)
    requires IsDraw(perm)
    ensures |perm| == 12 && s.objetivo == perm[11] && s.notas == perm[..11] && !s.over
  {
    State(perm[|perm| - 1], perm[..|perm| - 1], false)
  }

  /**
   * Between them, the first target and the eleven notes left in the queue
   * hold each of the twelve notes exactly once.
   */
  lemma StartCoversAllNotes(perm: seq<string>)
    requires IsPermutationOfNotes(perm)
    ensures IsDraw(perm)
    ensures var s := Start(perm);
      && multiset(s.notas) + multiset{s.objetivo} == multiset(NotasGuitarra)
      && |s.notas| == 11 && Distinct(s.notas) && s.objetivo !in s.notas
  {
    DrawOfNotes(perm);
    PopSplit(perm);
  }

  /**
   * Popping the last element of a sequence splits its multiset; of a
   * distinct sequence it leaves a distinct sequence without that element.
   */
  lemma PopSplit<T>(p: seq<T>)
    requires |p| > 0
    ensures multiset(p[..|p| - 1]) + multiset{p[|p| - 1]} == multiset(p)
    ensures Distinct(p) ==> Distinct(p[..|p| - 1]) && p[|p| - 1] !in p[..|p| - 1]
  {
    assert p == p[..|p| - 1] + [p[|p| - 1]];
  }

  /**
   * One tick of the loop body. Silence is ignored and a wrong note only
   * reports; a correct note pops the next target from the end of the
   * queue, or ends the desktop game when the queue is empty. On the
   * Raspberry Pi the loop guard ends the game once the pop leaves the
   * queue empty.
   */
  function Step(v: Variant, s: State, nota: Option<string>): (r: (State, Event))
    ensures r.1.Hit? <==> !s.over && nota == Some(s.objetivo)
    ensures !r.1.Hit? ==> r.0 == s
    ensures r.1.Wrong? <==> !s.over && nota.Some? && nota.value != s.objetivo
    ensures r.1.Wrong? ==> r.1 == Wrong(nota.value, s.objetivo)
    ensures r.1.Hit? ==> r.1.target == s.objetivo && (r.1.next.None? <==> s.notas == [])
    ensures r.1.Hit? && r.1.next.Some? ==>
      r.1.next.value == r.0.objetivo && s.notas == r.0.notas + [r.0.objetivo]
    ensures r.1.Hit? && r.1.next.Some? ==> (r.0.over <==> v == RaspberryPi && r.0.notas == [])
    ensures r.1.Hit? && r.1.next.None? ==> r.0 == s.(over := true)
  {
    if s.over || nota.None? then (s, Ignored)
    else if nota.value != s.objetivo then (s, Wrong(nota.value, s.objetivo))
    else if s.notas == [] then (s.(over := true), Hit(s.objetivo, None))
    else
      var next := s.notas[|s.notas| - 1];
      var rest := s.notas[..|s.notas| - 1];
      (State(next, rest, v == RaspberryPi && rest == []), Hit(s.objetivo, Some(next)))
  }

  /** Ticks processed in order, with the events they produce. */
  function Run(v: Variant, s: State, ticks: seq<Option<string>>): (r: (State, seq<Event>))
    ensures |r.1| == |ticks|
  {
    if ticks == [] then (s, [])
    else
      var prev := Run(v, s, ticks[..|ticks| - 1]);
      var last := Step(v, prev.0, ticks[|ticks| - 1]);
      (last.0, prev.1 + [last.1])
  }

  lemma RunSnoc(v: Variant, s: State, ticks: seq<Option<string>>, t: Option<string>)
    ensures var prev := Run(v, s, ticks);
      Run(v, s, ticks + [t]) == (Step(v, prev.0, t).0, prev.1 + [Step(v, prev.0, t).1])
  {
    assert (ticks + [t])[..|ticks|] == ticks;
  }

  lemma RunPrefix(v: Variant, s: State, ticks: seq<Option<string>>, i: nat)
    requires i < |ticks|
    ensures var prev := Run(v, s, ticks[..i]);
      Run(v, s, ticks[..i + 1]) == (Step(v, prev.0, ticks[i]).0, prev.1 + [Step(v, prev.0, ticks[i]).1])
  {
    assert ticks[..i + 1][..i] == ticks[..i];
  }

  /** The loop keeps running through tick i when it was running before each of ticks 0 .. i. */
  lemma NotOverExtend(v: Variant, s: State, ticks: seq<Option<string>>, i: nat)
    requires i < |ticks| && !Run(v, s, ticks[..i]).0.over
    requires forall j :: 0 <= j < i ==> !Run(v, s, ticks[..j]).0.over
    ensures forall j :: 0 <= j < i + 1 ==> !Run(v, s, ticks[..j]).0.over
  {
  }

  lemma HitsSnoc(es: seq<Event>, e: Event)
    ensures Hits(es + [e]) == Hits(es) + (if e.Hit? then [e.target] else [])
  {
    assert (es + [e])[..|es|] == es;
  }

  /** Position in the permutation of the target after k correct notes. */
  function TargetIndex(k: nat): nat {
    if k < 11 then 11 - k else 0
  }

  /**
   * The state after k correct notes: the target is perm[11 - k] (perm[0]
   * once all are consumed), the queue holds the elements before it, and
   * the loop has ended exactly when k is the variant's number of correct
   * notes.
   */
  function StateAfter(v: Variant, perm: seq<string>, k: nat): State
    requires |perm| == 12 && k <= Needed(v)
  {
    State(perm[TargetIndex(k)], perm[..TargetIndex(k)], k == Needed(v))
  }

  lemma StartIsStateAfter(v: Variant, perm: seq<string>)
    requires IsDraw(perm)
    ensures |perm| == 12 && Start(perm) == StateAfter(v, perm, 0)
  {
  }

  /**
   * One tick from the state after k correct notes: the target played (while
   * the loop runs) moves to the state after k + 1 and reports a hit on
   * perm[11 - k]; any other tick changes nothing and reports no hit.
   */
  lemma StepAfter(v: Variant, perm: seq<string>, k: nat, nota: Option<string>)
    requires |perm| == 12 && k <= Needed(v)
    ensures var r := Step(v, StateAfter(v, perm, k), nota);
      if k < Needed(v) && nota == Some(perm[11 - k]) then
        k + 1 <= Needed(v) && r.0 == StateAfter(v, perm, k + 1) && r.1.Hit? && r.1.target == perm[11 - k]
      else
        r.0 == StateAfter(v, perm, k) && !r.1.Hit?
  {
  }

  /**
   * From the state after k correct notes, the hits hs have been scored and
   * s is the state reached: hs are the next targets from the end of the
   * permutation, one per hit, never past the variant's count.
   */
  ghost predicate Consumed(v: Variant, perm: seq<string>, k: nat, s: State, hs: seq<string>) {
    && |perm| == 12
    && k + |hs| <= Needed(v)
    && s == StateAfter(v, perm, k + |hs|)
    && forall i :: 0 <= i < |hs| ==> hs[i] == perm[11 - (k + i)]
  }

  lemma ConsumedStep(v: Variant, perm: seq<string>, k: nat, s: State, hs: seq<string>, t: Option<string>)
    requires Consumed(v, perm, k, s, hs)
    ensures var r := Step(v, s, t);
      Consumed(v, perm, k, r.0, hs + (if r.1.Hit? then [r.1.target] else []))
  {
    StepAfter(v, perm, k + |hs|, t);
  }

  /**
   * Any ticks from the state after k correct notes lead to the state after
   * k + h correct notes, where h is the number of hits, and the i-th hit is
   * on perm[11 - (k + i)]: targets are consumed from the end of the
   * permutation, one per hit, and never past the variant's count.
   */
  lemma {:induction false} RunAfter(v: Variant, perm: seq<string>, k: nat, ticks: seq<Option<string>>)
    requires |perm| == 12 && k <= Needed(v)
    ensures var r := Run(v, StateAfter(v, perm, k), ticks);
      Consumed(v, perm, k, r.0, Hits(r.1))
  {
    if ticks != [] {
      var init, t := ticks[..|ticks| - 1], ticks[|ticks| - 1];
      assert ticks == init + [t];
      RunAfter(v, perm, k, init);
      var prev := Run(v, StateAfter(v, perm, k), init);
      ConsumedStep(v, perm, k, prev.0, Hits(prev.1), t);
      RunSnoc(v, StateAfter(v, perm, k), init, t);
      HitsSnoc(prev.1, Step(v, prev.0, t).1);
    }
  }

  /**
   * The outcome of a game from its start, for any ticks: at most Needed(v)
   * hits; the game has ended exactly when there were Needed(v) of them;
   * the targets come from the end of the permutation, so no note is
   * targeted twice; and on the Raspberry Pi the first element of the
   * permutation, the last target, is never checked.
   */
  lemma GameOutcome(v: Variant, perm: seq<string>, ticks: seq<Option<string>>)
    requires IsDraw(perm)
    ensures var r := Run(v, Start(perm), ticks);
      && |Hits(r.1)| <= Needed(v)
      && (r.0.over <==> |Hits(r.1)| == Needed(v))
      && (forall i :: 0 <= i < |Hits(r.1)| ==> Hits(r.1)[i] == perm[|perm| - 1 - i])
      && Distinct(Hits(r.1))
      && (v == RaspberryPi ==> perm[0] !in Hits(r.1))
      && (v == RaspberryPi ==>
            forall i :: 0 <= i < |r.1| && !r.1[i].Ignored? ==> r.1[i].target != perm[0])
  {
    StartIsStateAfter(v, perm);
    var r := Run(v, Start(perm), ticks);
    RunAfter(v, perm, 0, ticks);
    ConsumedOutcome(v, perm, r.0, Hits(r.1));
    CheckedTargets(v, perm, ticks);
    if v == RaspberryPi {
      assert perm[0] !in perm[1..];
    }
  }

  /** The i-th event is the one the i-th tick produces from the state the earlier ticks reached. */
  lemma {:induction false} EventPrefix(v: Variant, s: State, ticks: seq<Option<string>>, i: nat)
    requires i < |ticks|
    ensures Run(v, s, ticks).1[i] == Step(v, Run(v, s, ticks[..i]).0, ticks[i]).1
  {
    var init := ticks[..|ticks| - 1];
    if i < |init| {
      EventPrefix(v, s, init, i);
      assert init[..i] == ticks[..i];
    }
  }

  /**
   * Every target a tick compares against (a hit or a wrong note) is one of
   * the first Needed(v) targets, perm[11] down to perm[12 - Needed(v)]: on the
   * Raspberry Pi, perm[0] is never compared against.
   */
  lemma CheckedTargets(v: Variant, perm: seq<string>, ticks: seq<Option<string>>)
    requires |perm| == 12
    ensures var es := Run(v, StateAfter(v, perm, 0), ticks).1;
      forall i :: 0 <= i < |es| && !es[i].Ignored? ==> es[i].target in perm[12 - Needed(v)..]
  {
    var es := Run(v, StateAfter(v, perm, 0), ticks).1;
    forall i | 0 <= i < |es| && !es[i].Ignored?
      ensures es[i].target in perm[12 - Needed(v)..]
    {
      EventPrefix(v, StateAfter(v, perm, 0), ticks, i);
      RunAfter(v, perm, 0, ticks[..i]);
      var prev := Run(v, StateAfter(v, perm, 0), ticks[..i]);
      assert !prev.0.over && es[i].target == prev.0.objetivo;
      CheckedStep(v, perm, |Hits(prev.1)|, prev.0);
    }
  }

  /** While the game runs after k correct notes, the target is perm[11 - k], one of the first Needed(v) targets. */
  lemma CheckedStep(v: Variant, perm: seq<string>, k: nat, s: State)
    requires |perm| == 12 && k <= Needed(v) && s == StateAfter(v, perm, k) && !s.over
    ensures k < Needed(v) && s.objetivo == perm[11 - k] && s.objetivo in perm[12 - Needed(v)..]
  {
  }

  lemma ConsumedOutcome(v: Variant, perm: seq<string>, s: State, hs: seq<string>)
    requires Consumed(v, perm, 0, s, hs) && Distinct(perm)
    ensures |hs| <= Needed(v) && (s.over <==> |hs| == Needed(v))
    ensures forall i :: 0 <= i < |hs| ==> hs[i] == perm[|perm| - 1 - i]
    ensures Distinct(hs)
    ensures v == RaspberryPi ==> perm[0] !in hs
  {
  }

  /**
   * Silence and wrong notes change nothing: whatever the ticks, if none of
   * them is the current target the state is unchanged and nothing is hit.
   */
  lemma {:induction false} MissesChangeNothing(v: Variant, s: State, ticks: seq<Option<string>>)
    requires forall i :: 0 <= i < |ticks| ==> ticks[i] != Some(s.objetivo)
    ensures Run(v, s, ticks).0 == s && Hits(Run(v, s, ticks).1) == []
  {
    if ticks != [] {
      var init, t := ticks[..|ticks| - 1], ticks[|ticks| - 1];
      assert ticks == init + [t];
      MissesChangeNothing(v, s, init);
      RunSnoc(v, s, init, t);
      HitsSnoc(Run(v, s, init).1, Step(v, s, t).1);
    }
  }

  /** After the loop has ended, no tick changes anything. */
  lemma {:induction false} EndedIsFinal(v: Variant, s: State, ticks: seq<Option<string>>)
    requires s.over
    ensures Run(v, s, ticks).0 == s && Hits(Run(v, s, ticks).1) == []
  {
    if ticks != [] {
      var init, t := ticks[..|ticks| - 1], ticks[|ticks| - 1];
      assert ticks == init + [t];
      EndedIsFinal(v, s, init);
      RunSnoc(v, s, init, t);
      HitsSnoc(Run(v, s, init).1, Step(v, s, t).1);
    }
  }

  /** The correct answers, in order: perm[11], perm[10], ... */
  function PerfectTicks(perm: seq<string>, count: nat): (ticks: seq<Option<string>>)
    requires |perm| == 12 && count <= 12
  {
    seq(count, i requires 0 <= i < count => Some(perm[11 - i]))
  }

  /**
   * Ticks that each bring the current target, in order, score one hit per
   * tick and reach the state after that many correct notes.
   */
  lemma {:induction false} PerfectPrefix(v: Variant, perm: seq<string>, ticks: seq<Option<string>>)
    requires |perm| == 12 && |ticks| <= Needed(v)
    requires forall i :: 0 <= i < |ticks| ==> ticks[i] == Some(perm[11 - i])
    ensures var r := Run(v, StateAfter(v, perm, 0), ticks);
      r.0 == StateAfter(v, perm, |ticks|) && |Hits(r.1)| == |ticks|
  {
    if ticks != [] {
      var init := ticks[..|ticks| - 1];
      assert ticks[|ticks| - 1] == Some(perm[11 - |init|]);
      PerfectPrefix(v, perm, init);
      PerfectStep(v, perm, |init|, Run(v, StateAfter(v, perm, 0), init));
    }
  }

  /** Playing the target from the state after k correct notes scores the (k+1)-th. */
  lemma PerfectStep(v: Variant, perm: seq<string>, k: nat, prev: (State, seq<Event>))
    requires |perm| == 12 && k < Needed(v)
    requires prev.0 == StateAfter(v, perm, k) && |Hits(prev.1)| == k
    ensures var last := Step(v, prev.0, Some(perm[11 - k]));
      last.0 == StateAfter(v, perm, k + 1) && |Hits(prev.1 + [last.1])| == k + 1
  {
    StepAfter(v, perm, k, Some(perm[11 - k]));
    HitsSnoc(prev.1, Step(v, prev.0, Some(perm[11 - k])).1);
  }

  /**
   * A player who always plays the target ends the game after exactly
   * Needed(v) ticks: twelve on the desktop, eleven on the Raspberry Pi.
   */
  lemma PerfectGame(v: Variant, perm: seq<string>)
    requires IsDraw(perm)
    ensures |perm| == 12
    ensures var r := Run(v, Start(perm), PerfectTicks(perm, Needed(v)));
      r.0.over && |Hits(r.1)| == Needed(v)
  {
    StartIsStateAfter(v, perm);
    PerfectPrefix(v, perm, PerfectTicks(perm, Needed(v)));
  }

  /** The game's state, updated in place as the loop runs. */
  class NoteGame {
    const variant: Variant
    var objetivo: string
    var notas: seq<string>
    var over: bool

    /** The permutation drawn at the start, and the number of correct notes so far. */
    ghost const perm: seq<string>
    ghost var hits: nat

    function Snapshot(): State
      reads this
    {
      State(objetivo, notas, over)
    }

    ghost predicate Valid()
      reads this
    {
      |perm| == 12 && hits <= Needed(variant) && Snapshot() == StateAfter(variant, perm, hits)
    }

    /** notas = random.sample(...) (given here as perm); objetivo = notas.pop(). */
    constructor (v: Variant, perm: seq<string>)
      requires IsDraw(perm)
      ensures Valid() && variant == v && this.perm == perm && hits == 0
      ensures Snapshot() == Start(perm)
    {
      variant := v;
      this.perm := perm;
      var queue := perm;
      objetivo := queue[|queue| - 1];
      notas := queue[..|queue| - 1];
      over := false;
      hits := 0;
      StartIsStateAfter(v, perm);
    }

    /** One iteration of the loop body, given the detector's answer. */
    method Tick(nota: Option<string>) returns (e: Event)
      requires Valid()
      modifies this
      ensures Valid()
      ensures (Snapshot(), e) == Step(variant, old(Snapshot()), nota)
      ensures hits == old(hits) + (if e.Hit? then 1 else 0)
    {
      StepAfter(variant, perm, hits, nota);
      if over || nota.None? {
        e := Ignored;
      } else if nota.value != objetivo {
        e := Wrong(nota.value, objetivo);
      } else if notas == [] {
        e := Hit(objetivo, None);
        over := true;
        hits := hits + 1;
      } else {
        var target := objetivo;
        objetivo := notas[|notas| - 1];
        notas := notas[..|notas| - 1];
        over := variant == RaspberryPi && notas == [];
        e := Hit(target, Some(objetivo));
        hits := hits + 1;
      }
    }
  }

  /**
   * The game loop: start from perm and run a tick for each detector answer
   * until the game ends or the answers run out (the player quits). Returns
   * the events shown, the number of answers consumed and whether the game
   * was completed.
   */
  method Play(v: Variant, perm: seq<string>, answers: seq<Option<string>>)
    returns (events: seq<Event>, used: nat, finished: bool)
    requires IsDraw(perm)
    ensures used <= |answers| && (finished || used == |answers|)
    ensures events == Run(v, Start(perm), answers[..used]).1
    ensures forall j :: 0 <= j < used ==> !Run(v, Start(perm), answers[..j]).0.over
    ensures finished == Run(v, Start(perm), answers[..used]).0.over
    ensures finished <==> |Hits(events)| == Needed(v)
    ensures |Hits(events)| <= Needed(v) && Distinct(Hits(events))
    ensures forall i :: 0 <= i < |Hits(events)| ==> Hits(events)[i] == perm[|perm| - 1 - i]
  {
    ghost var s0 := Start(perm);
    var game := new NoteGame(v, perm);
    events, used := [], 0;
    while used < |answers| && !game.over
      invariant used <= |answers|
      invariant game.Valid() && game.variant == v && game.perm == perm
      invariant game.Snapshot() == Run(v, s0, answers[..used]).0
      invariant events == Run(v, s0, answers[..used]).1
      invariant forall j :: 0 <= j < used ==> !Run(v, s0, answers[..j]).0.over
    {
      NotOverExtend(v, s0, answers, used);
      var e := game.Tick(answers[used]);
      RunPrefix(v, s0, answers, used);
      events := events + [e];
      used := used + 1;
    }
    finished := game.over;
    GameOutcome(v, perm, answers[..used]);
  }
}
