/** The wheel tachometer: timer 1 captures the counter at each rising edge of the sensor
    (`tim1_cc_isr`) and signals when the counter runs over (`tim1_up_isr`). The state
    is the published `frequency_millihertz` and the `overflow` flag.

    The capture register `TIM1_CCR1` becomes the argument of the edge event; the
    handlers are atomic transitions. */
module Tacho {
  import opened MachineInt

  /** `1000 * 65536`: timer ticks per second times 1000, so that the quotient by the
      captured period is a frequency in millihertz. */
  const FREQ_NUMERATOR: nat := 1000 * 65536

  datatype State = State(frequencyMillihertz: uint32, overflow: bool)

  /** Both variables' initialisers: no frequency, and the timer treated as overflowed. */
  const INIT: State := State(0, true)

  datatype Event = Edge(ccr: uint16) | Overflow

  /** The unguarded division of `tim1_cc_isr` needs a non-zero capture whenever the
      overflow flag is clear. */
  predicate EdgeDefined(s: State, ccr: uint16)
  {
    s.overflow || ccr != 0
  }

  /** `tim1_cc_isr`: after an overflow the capture does not span a whole period, so the
      first edge only clears the flag; later edges publish `65536000 / ccr`. */
  function OnEdge(s: State, ccr: uint16): (s': State)
    requires EdgeDefined(s, ccr)
    ensures !s'.overflow
    ensures s.overflow ==> s'.frequencyMillihertz == s.frequencyMillihertz
    ensures !s.overflow ==>
      s'.frequencyMillihertz * ccr <= FREQ_NUMERATOR < (s'.frequencyMillihertz + 1) * ccr
  {
    if !s.overflow then
      DivIdentity(FREQ_NUMERATOR, ccr);
      DivAtMostNumerator(ccr);
      State(FREQ_NUMERATOR / ccr, false)
    else
      State(s.frequencyMillihertz, false)
  }

  lemma DivAtMostNumerator(ccr: nat)
    requires ccr >= 1
    ensures FREQ_NUMERATOR / ccr <= FREQ_NUMERATOR
  {
    DivIdentity(FREQ_NUMERATOR, ccr);
    if FREQ_NUMERATOR / ccr > FREQ_NUMERATOR {
      MulAtLeast(ccr, FREQ_NUMERATOR / ccr);
    }
  }

  /** `tim1_up_isr`: forget the frequency and wait for a fresh pair of edges. */
  function OnOverflow(s: State): (s': State)
    ensures s'.overflow && s'.frequencyMillihertz == 0
  {
    State(0, true)
  }

  predicate StepDefined(s: State, e: Event)
  {
    e.Overflow? || EdgeDefined(s, e.ccr)
  }

  /** One interrupt. Every event keeps the invariant. */
  function Step(s: State, e: Event): (s': State)
    requires StepDefined(s, e)
    ensures Inv(s) ==> Inv(s')
  {
    match e
    case Edge(ccr) =>
      if s.overflow then OnEdge(s, ccr) else DivAtMostNumerator(ccr); OnEdge(s, ccr)
    case Overflow => OnOverflow(s)
  }

  /** A sequence of events none of which divides by zero. */
  predicate RunDefined(s: State, es: seq<Event>)
    decreases |es|
  {
    |es| == 0 || (StepDefined(s, es[0]) && RunDefined(Step(s, es[0]), es[1..]))
  }

  /** A sequence of interrupts. Every sequence of events keeps the invariant. */
  function Run(s: State, es: seq<Event>): (s': State)
    requires RunDefined(s, es)
    ensures Inv(s) ==> Inv(s')
    decreases |es|
  {
    if |es| == 0 then s else Run(Step(s, es[0]), es[1..])
  }

  /** While the overflow flag is set the published frequency is 0, and the frequency
      never exceeds one capture tick's worth, 65536000 mHz. */
  ghost predicate Inv(s: State)
  {
    (s.overflow ==> s.frequencyMillihertz == 0) && s.frequencyMillihertz <= FREQ_NUMERATOR
  }

  lemma InitInv()
    ensures Inv(INIT) && INIT.frequencyMillihertz == 0
  {
  }

  /** The number of edge events in a sequence. */
  function Edges(es: seq<Event>): nat
    decreases |es|
  {
    if |es| == 0 then 0 else (if es[0].Edge? then 1 else 0) + Edges(es[1..])
  }

  /** From a zero frequency, a non-zero one needs at least one edge. */
  lemma {:induction false} NonZeroNeedsEdge(s: State, es: seq<Event>)
    requires s.frequencyMillihertz == 0 && RunDefined(s, es)
    ensures Run(s, es).frequencyMillihertz != 0 ==> Edges(es) >= 1
    decreases |es|
  {
    if |es| > 0 && es[0].Overflow? {
      NonZeroNeedsEdge(Step(s, es[0]), es[1..]);
    }
  }

  /** After an overflow a non-zero frequency needs two edges: the first only clears the
      flag, the second publishes a period. */
  lemma {:induction false} NonZeroNeedsTwoEdges(s: State, es: seq<Event>)
    requires Inv(s) && s.overflow && RunDefined(s, es)
    ensures Run(s, es).frequencyMillihertz != 0 ==> Edges(es) >= 2
    decreases |es|
  {
    if |es| > 0 {
      var s' := Step(s, es[0]);
      if es[0].Overflow? {
        NonZeroNeedsTwoEdges(s', es[1..]);
      } else {
        NonZeroNeedsEdge(s', es[1..]);
      }
    }
  }
}
