/**
 The looping typewriter effect. Each timer tick runs one step of a
 three-field state (which text, a character cursor, a direction) and shows a
 prefix of the current text. The 90 ms rescheduling is left to the host; one
 call of `Step` is one tick.
 */
module Typewriter {

  /** The fixed, ordered list of texts the effect cycles through. */
  const Texts: seq<string> := [
    "I create clean web apps.",
    "I love minimal design.",
    "I build with the MERN stack."
  ]

  /** How far the forward run overshoots the text's length before turning
      back. The whole text stays on screen from the forward tick at cursor
      length until the backward tick at cursor length: 2 * Pause + 3 ticks
      (see `FullTextHold`). */
  const Pause: int := 10

  datatype Direction = Forward | Backward

  datatype State = State(textIndex: int, charIndex: int, direction: Direction)

  /** The state when the page loads. */
  const Start: State := State(0, 0, Forward)

  /** What one tick puts on screen, and the state it leaves. */
  datatype Tick = Tick(shown: string, next: State)

  /** JavaScript's `s.slice(0, end)`: a negative end counts back from the
      length (stopping at the empty prefix), a large end stops at the length. */
  function Slice(s: string, end: int): (r: string)
    ensures r <= s
    ensures 0 <= end ==> |r| == if end < |s| then end else |s|
    ensures end < 0 ==> |r| == if |s| + end < 0 then 0 else |s| + end
  {
    if end < 0 then
      (if |s| + end < 0 then [] else s[..|s| + end])
    else if end < |s| then s[..end]
    else s
  }

  function Len(s: State): int
    requires 0 <= s.textIndex < |Texts|
  {
    |Texts[s.textIndex]|
  }

  /** The states the effect can be in. The cursor runs over
      [-1, length + Pause + 1]: -1 only while moving forward (right after the
      wrap to the next text), length + Pause + 1 only while moving backward
      (right after the forward run ends). */
  predicate Valid(s: State)
  {
    && 0 <= s.textIndex < |Texts|
    && (s.direction == Forward ==> -1 <= s.charIndex <= Len(s) + Pause)
    && (s.direction == Backward ==> 0 <= s.charIndex <= Len(s) + Pause + 1)
  }

  /** One tick. The text is sliced at the cursor's value before it moves.
      Forward moves the cursor up and turns backward once it passes
      length + Pause; backward moves it down and, once it drops below zero,
      turns forward on the next text in the list. */
  function Step(s: State): (t: Tick)
    requires 0 <= s.textIndex < |Texts|
    ensures t.shown == Slice(Texts[s.textIndex], s.charIndex)
    ensures Valid(s) ==> Valid(t.next)
    ensures s.direction == Forward ==>
      && t.next.charIndex == s.charIndex + 1
      && (t.next.direction == Backward <==> t.next.charIndex > Len(s) + Pause)
    ensures s.direction == Backward ==>
      && t.next.charIndex == s.charIndex - 1
      && (t.next.direction == Forward <==> t.next.charIndex < 0)
    ensures t.next.textIndex != s.textIndex <==> (s.direction == Backward && t.next.direction == Forward)
    ensures t.next.textIndex != s.textIndex ==> t.next.textIndex == (s.textIndex + 1) % |Texts|
  {
    var text := Texts[s.textIndex];
    var shown := Slice(text, s.charIndex);
    match s.direction
    case Forward =>
      var c := s.charIndex + 1;
      Tick(shown, State(s.textIndex, c, if c > |text| + Pause then Backward else Forward))
    case Backward =>
      var c := s.charIndex - 1;
      if c < 0 then Tick(shown, State((s.textIndex + 1) % |Texts|, c, Forward))
      else Tick(shown, State(s.textIndex, c, Backward))
  }

  /** The start state is one the effect can be in. */
  lemma StartIsValid()
    ensures Valid(Start)
  {
  }

  /** The first forward tick after a wrap slices with end -1 and so shows the
      new text without its last character. */
  lemma WrapShowsAllButLast(i: int)
    requires 0 <= i < |Texts|
    ensures Step(State(i, -1, Forward)).shown == Texts[i][..|Texts[i]| - 1]
  {
  }

  /** As written, a forward tick can show a longer text than the forward
      tick after it: the tick right after the wrap to text 1 shows all of
      it but the last character, and the next one shows nothing. */
  lemma ForwardDisplayShrinksAsWritten()
    ensures var s := State(1, -1, Forward);
      && Valid(s)
      && Step(s).next.direction == Forward
      && |Step(s).shown| == |Texts[1]| - 1
      && Step(Step(s).next).shown == []
  {
  }

  /** The display the effect evidently intends: the text up to the cursor,
      with a cursor below zero showing nothing. */
  function ShownIntended(s: State): (r: string)
    requires 0 <= s.textIndex < |Texts|
    ensures r <= Texts[s.textIndex]
    ensures s.charIndex <= 0 ==> r == []
    ensures 0 <= s.charIndex <= Len(s) ==> |r| == s.charIndex
    ensures s.charIndex >= Len(s) ==> r == Texts[s.textIndex]
  {
    Slice(Texts[s.textIndex], if s.charIndex < 0 then 0 else s.charIndex)
  }

  /** With the intended display a forward run only ever extends what is
      shown, and a backward run only ever cuts it. */
  lemma IntendedDisplayMonotone(s: State)
    requires Valid(s)
    ensures s.direction == Forward && Step(s).next.direction == Forward ==>
      ShownIntended(s) <= ShownIntended(Step(s).next)
    ensures s.direction == Backward && Step(s).next.direction == Backward ==>
      ShownIntended(Step(s).next) <= ShownIntended(s)
  {
  }

  /** As written, the display differs from the intended one only on the tick
      right after a wrap, at cursor -1. */
  lemma AsWrittenDiffersOnlyAtWrap(s: State)
    requires Valid(s)
    ensures s.charIndex >= 0 ==> Step(s).shown == ShownIntended(s)
    ensures s.charIndex < 0 ==> s.charIndex == -1 && Step(s).shown != ShownIntended(s)
  {
  }

  /** A tick shows the whole text exactly when the cursor is at or past the
      text's length, in either direction. */
  lemma FullTextShown(s: State)
    requires Valid(s)
    ensures Step(s).shown == Texts[s.textIndex] <==> s.charIndex >= Len(s)
  {
  }

  /** From the forward tick that first shows the whole text of `i`, the
      whole text stays on screen for 2 * Pause + 3 consecutive ticks (the
      rest of the forward run and the first backward ticks down to cursor
      length), and the tick after that shows less. */
  lemma FullTextHold(i: int)
    requires 0 <= i < |Texts|
    ensures forall k :: 0 <= k < 2 * Pause + 3 ==>
      Step(Run(State(i, |Texts[i]|, Forward), k)).shown == Texts[i]
    ensures Step(Run(State(i, |Texts[i]|, Forward), 2 * Pause + 3)).shown != Texts[i]
  {
    var s := State(i, |Texts[i]|, Forward);
    HoldStates(i);
    forall k | 0 <= k <= 2 * Pause + 3
      ensures Step(Run(s, k)).shown == Texts[i] <==> k < 2 * Pause + 3
    {
      FullTextShown(Run(s, k));
    }
  }

  /** The states from the forward tick at cursor length: up to length +
      Pause going forward, then back down from length + Pause + 1. */
  lemma HoldStates(i: int)
    requires 0 <= i < |Texts|
    ensures forall k :: 0 <= k <= 2 * Pause + 3 ==>
      Run(State(i, |Texts[i]|, Forward), k) ==
        if k <= Pause then State(i, |Texts[i]| + k, Forward)
        else State(i, |Texts[i]| + 2 * Pause + 2 - k, Backward)
  {
    var L := |Texts[i]|;
    var s := State(i, L, Forward);
    var b := State(i, L + Pause + 1, Backward);
    ForwardPhase(s);
    BackwardPhase(b);
    forall k | Pause < k <= 2 * Pause + 3
      ensures Run(s, k) == State(i, L + 2 * Pause + 2 - k, Backward)
    {
      RunAdd(s, Pause + 1, k - Pause - 1);
      assert Pause + 1 + (k - Pause - 1) == k;
    }
  }

  /** `n` ticks from `s`. */
  function Run(s: State, n: nat): (r: State)
    requires Valid(s)
    ensures Valid(r)
    decreases n
  {
    if n == 0 then s else Run(Step(s).next, n - 1)
  }

  /** Running a + b ticks is running a ticks and then b more. */
  lemma {:induction false} RunAdd(s: State, a: nat, b: nat)
    requires Valid(s)
    ensures Run(s, a + b) == Run(Run(s, a), b)
    decreases a
  {
    if a != 0 {
      var next := Step(s).next;
      var c: nat := a - 1;
      calc {
        Run(s, a + b);
        == { RunUnfold(s, c + b); }
        Run(next, c + b);
        == { RunAdd(next, c, b); }
        Run(Run(next, c), b);
        == { RunUnfold(s, c); }
        Run(Run(s, a), b);
      }
    }
  }

  /** The first of n + 1 ticks is one step. */
  lemma RunUnfold(s: State, n: nat)
    requires Valid(s)
    ensures Run(s, n + 1) == Run(Step(s).next, n)
  {
  }

  /** The first of k > 0 ticks is one step. */
  lemma RunFirst(s: State, k: nat)
    requires Valid(s) && k > 0
    ensures Run(s, k) == Run(Step(s).next, k - 1)
  {
  }

  /** Forward ticks keep the text and reach the turn to backward after
      exactly length + Pause + 1 - cursor ticks. */
  lemma {:induction false} ForwardPhase(s: State)
    requires Valid(s) && s.direction == Forward
    ensures Run(s, Len(s) + Pause + 1 - s.charIndex) == State(s.textIndex, Len(s) + Pause + 1, Backward)
    ensures forall k :: 0 <= k <= Len(s) + Pause + 1 - s.charIndex ==> Run(s, k).textIndex == s.textIndex
    ensures forall k :: 0 <= k <= Len(s) + Pause - s.charIndex ==>
      Run(s, k) == State(s.textIndex, s.charIndex + k, Forward)
    decreases Len(s) + Pause - s.charIndex
  {
    if s.charIndex == Len(s) + Pause {
      assert Step(s).next == State(s.textIndex, Len(s) + Pause + 1, Backward);
      RunFirst(s, 1);
    } else {
      var n := State(s.textIndex, s.charIndex + 1, Forward);
      assert Step(s).next == n;
      ForwardPhase(n);
      RunFirst(s, Len(s) + Pause + 1 - s.charIndex);
      assert Run(s, Len(s) + Pause + 1 - s.charIndex) == Run(n, Len(s) + Pause - s.charIndex);
      forall k | 1 <= k <= Len(s) + Pause + 1 - s.charIndex
        ensures Run(s, k).textIndex == s.textIndex
        ensures k <= Len(s) + Pause - s.charIndex ==> Run(s, k) == State(s.textIndex, s.charIndex + k, Forward)
      {
        RunFirst(s, k);
      }
    }
  }

  /** Backward ticks keep the text until the cursor drops below zero, after
      exactly cursor + 1 ticks, which moves on to the next text at -1. */
  lemma {:induction false} BackwardPhase(s: State)
    requires Valid(s) && s.direction == Backward
    ensures Run(s, s.charIndex + 1) == State((s.textIndex + 1) % |Texts|, -1, Forward)
    ensures forall k :: 0 <= k <= s.charIndex ==> Run(s, k) == State(s.textIndex, s.charIndex - k, Backward)
    decreases s.charIndex
  {
    if s.charIndex == 0 {
      assert Step(s).next == State((s.textIndex + 1) % |Texts|, -1, Forward);
      RunFirst(s, 1);
    } else {
      var n := State(s.textIndex, s.charIndex - 1, Backward);
      assert Step(s).next == n;
      BackwardPhase(n);
      RunFirst(s, s.charIndex + 1);
      assert n.charIndex + 1 == s.charIndex;
      forall k | 1 <= k <= s.charIndex
        ensures Run(s, k) == State(s.textIndex, s.charIndex - k, Backward)
      {
        RunFirst(s, k);
      }
    }
  }

  /** Ticks spent on text `i` once it has been wrapped to: type it, hold it,
      erase it. */
  function CycleLength(i: int): nat
    requires 0 <= i < |Texts|
  {
    2 * |Texts[i]| + 2 * Pause + 4
  }

  /** From the wrap to text `i`, every tick of its cycle stays on text `i`,
      and the cycle ends at the wrap to the next text in the list. */
  lemma Cycle(i: int)
    requires 0 <= i < |Texts|
    ensures Run(State(i, -1, Forward), CycleLength(i)) == State((i + 1) % |Texts|, -1, Forward)
    ensures forall k :: 0 <= k < CycleLength(i) ==> Run(State(i, -1, Forward), k).textIndex == i
  {
    var s := State(i, -1, Forward);
    var up := |Texts[i]| + Pause + 2;
    ForwardPhase(s);
    var b := Run(s, up);
    BackwardPhase(b);
    RunAdd(s, up, up);
    forall k | up <= k < CycleLength(i)
      ensures Run(s, k).textIndex == i
    {
      RunAdd(s, up, k - up);
    }
  }

  /** The end point of `Cycle` alone. */
  lemma CycleEnds(i: int)
    requires 0 <= i < |Texts|
    ensures Run(State(i, -1, Forward), CycleLength(i)) == State((i + 1) % |Texts|, -1, Forward)
  {
    Cycle(i);
  }

  /** After the cycles of texts i, i+1, i+2 (mod the number of texts) the
      effect is back at the wrap to text i: every text is shown once before
      any repeats. */
  lemma Rotation(i: int)
    requires 0 <= i < |Texts|
    ensures Run(State(i, -1, Forward),
                CycleLength(i) + CycleLength((i + 1) % |Texts|) + CycleLength((i + 2) % |Texts|))
         == State(i, -1, Forward)
  {
    var j := (i + 1) % |Texts|;
    var k := (i + 2) % |Texts|;
    assert (j + 1) % |Texts| == k && (k + 1) % |Texts| == i by {
      assert |Texts| == 3;
    }
    var s0, s1, s2 := State(i, -1, Forward), State(j, -1, Forward), State(k, -1, Forward);
    var a, b, c := CycleLength(i), CycleLength(j), CycleLength(k);
    CycleEnds(i);
    CycleEnds(j);
    CycleEnds(k);
    RunThrough(s0, s1, s2, a, b);
    RunThrough(s0, s2, s0, a + b, c);
  }

  /** A run from `s` to `t` followed by a run from `t` to `u` is one run
      from `s` to `u`. */
  lemma RunThrough(s: State, t: State, u: State, a: nat, b: nat)
    requires Valid(s) && Run(s, a) == t && Run(t, b) == u
    ensures Run(s, a + b) == u
  {
    RunAdd(s, a, b);
  }

  /** From page load, the first text is typed from cursor 0 and the effect
      reaches the wrap to the second text after one tick fewer than a full
      cycle. */
  lemma FirstCycle()
    ensures Run(Start, CycleLength(0) - 1) == State(1, -1, Forward)
  {
    var up := |Texts[0]| + Pause + 1;
    ForwardPhase(Start);
    BackwardPhase(Run(Start, up));
    RunAdd(Start, up, up + 1);
  }
}
