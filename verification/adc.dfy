/** The battery-voltage ADC filter: `adc_poll` keeps one conversion in flight, adds each
    finished conversion to a running sum, and publishes the mean of every block of
    `N_SAMPLES` readings in `adc_value`.

    The converter itself is an input: each poll is told whether the end-of-conversion
    flag is up (`adc_eoc`) and what the data register holds (`adc_read_regular`).
    Starting a conversion is only the flag `conversion_is_running`. */
module Adc {
  import opened MachineInt

  const N_SAMPLES: nat := 100

  /** The largest result of the 12-bit converter. */
  const ADC_MAX: nat := 4095

  datatype State = State(running: bool, count: int, sum: int, value: int)

  /** The static initialisers: nothing running, an empty block, no reading yet. */
  const INIT: State := State(false, 0, 0, -1)

  /** The additions of `adc_poll` on `int` must not overflow. */
  predicate PollDefined(s: State, eoc: bool, raw: int)
  {
    s.running && eoc ==> InInt32(s.sum + raw) && InInt32(s.count + 1)
  }

  /** `adc_poll`. When a conversion has finished its reading joins the block; a full
      block publishes its (C-truncated) mean and starts over. In every case a conversion
      is running afterwards. */
  function Poll(s: State, eoc: bool, raw: int): (s': State)
    requires PollDefined(s, eoc, raw)
    ensures s'.running
    ensures !(s.running && eoc) ==> s' == s.(running := true)
    ensures s.running && eoc ==> s'.count == s.count + 1 || s'.count == 0
    ensures s'.value != s.value ==> s.running && eoc && s'.count == 0 && s'.sum == 0
  {
    if s.running then
      if eoc then
        var sum := s.sum + raw;
        var count := s.count + 1;
        if count >= N_SAMPLES then
          State(true, 0, 0, CDiv(sum, count))
        else
          State(true, count, sum, s.value)
      else s
    else
      s.(running := true)
  }

  /** The sum of a sequence of readings. */
  function Sum(h: seq<int>): int
    decreases |h|
  {
    if |h| == 0 then 0 else Sum(h[..|h| - 1]) + h[|h| - 1]
  }

  lemma SumAppend(h: seq<int>, x: int)
    ensures Sum(h + [x]) == Sum(h) + x
  {
    assert (h + [x])[..|h|] == h;
  }

  /** Readings the converter can deliver. */
  ghost predicate Samples(h: seq<int>)
  {
    forall i :: 0 <= i < |h| ==> 0 <= h[i] <= ADC_MAX
  }

  lemma {:induction false} SumBounds(h: seq<int>)
    requires Samples(h)
    ensures 0 <= Sum(h) <= ADC_MAX * |h|
    decreases |h|
  {
    if |h| > 0 {
      SumBounds(h[..|h| - 1]);
    }
  }

  /** The state `adc_poll` should be in after the readings `h`: the incomplete block is
      the readings past the last multiple of 100, and the published value is the floor
      mean of the last complete block (-1 before the first block is complete). Before
      100 readings everything is in the open block; at every multiple of 100 the block
      is empty. */
  function Summary(h: seq<int>, running: bool): (s: State)
    ensures s.running == running && 0 <= s.count < N_SAMPLES
    ensures |h| < N_SAMPLES ==> s == State(running, |h|, Sum(h), -1)
    ensures |h| % N_SAMPLES == 0 ==> s.count == 0 && s.sum == 0
  {
    var full := |h| / N_SAMPLES;
    var start := N_SAMPLES * full;
    DivIdentity(|h|, N_SAMPLES);
    assert |h| < N_SAMPLES ==> full == 0 && h[start..] == h;
    State(running, |h| % N_SAMPLES, Sum(h[start..]),
          if full == 0 then -1 else Sum(h[start - N_SAMPLES..start]) / N_SAMPLES)
  }

  /** A summarised state stays summarised when `adc_poll` consumes one more reading. */
  lemma PollAppends(h: seq<int>, raw: int)
    requires Samples(h) && 0 <= raw <= ADC_MAX
    ensures PollDefined(Summary(h, true), true, raw)
    ensures Poll(Summary(h, true), true, raw) == Summary(h + [raw], true)
  {
    var full := |h| / N_SAMPLES;
    var start := N_SAMPLES * full;
    DivIdentity(|h|, N_SAMPLES);
    assert Samples(h[start..]);
    SumBounds(h[start..]);
    if |h| % N_SAMPLES + 1 < N_SAMPLES {
      PollWithinBlock(h, raw);
    } else {
      PollCompletesBlock(h, raw);
    }
  }

  /** The reading joins the incomplete block. */
  lemma PollWithinBlock(h: seq<int>, raw: int)
    requires |h| % N_SAMPLES + 1 < N_SAMPLES
    ensures Summary(h + [raw], true) ==
      Summary(h, true).(count := Summary(h, true).count + 1, sum := Summary(h, true).sum + raw)
  {
    var h' := h + [raw];
    var full := |h| / N_SAMPLES;
    var start := N_SAMPLES * full;
    DivIdentity(|h|, N_SAMPLES);
    DivModUnique(|h'|, full, |h| % N_SAMPLES + 1, N_SAMPLES);
    assert h'[start..] == h[start..] + [raw];
    SumAppend(h[start..], raw);
    if full > 0 {
      assert h'[start - N_SAMPLES..start] == h[start - N_SAMPLES..start];
    }
  }

  /** The reading completes the block, whose mean is published. */
  lemma PollCompletesBlock(h: seq<int>, raw: int)
    requires |h| % N_SAMPLES + 1 == N_SAMPLES
    ensures Summary(h + [raw], true) ==
      State(true, 0, 0, (Summary(h, true).sum + raw) / N_SAMPLES)
  {
    var h' := h + [raw];
    var full := |h| / N_SAMPLES;
    var start := N_SAMPLES * full;
    DivIdentity(|h|, N_SAMPLES);
    DivModUnique(|h'|, full + 1, 0, N_SAMPLES);
    assert h'[start..start + N_SAMPLES] == h[start..] + [raw];
    assert h'[start + N_SAMPLES..] == [];
    SumAppend(h[start..], raw);
  }

  /** One poll's effect on the history of consumed readings. */
  function Consumed(s: State, eoc: bool, raw: int): seq<int>
  {
    if s.running && eoc then [raw] else []
  }

  datatype Input = Input(eoc: bool, raw: int)

  /** Polls in order, each consuming at most one reading. */
  function Run(inputs: seq<Input>): (r: (State, seq<int>))
    requires forall i :: 0 <= i < |inputs| ==> 0 <= inputs[i].raw <= ADC_MAX
    ensures Samples(r.1) && r.0 == Summary(r.1, |inputs| > 0)
    decreases |inputs|
  {
    if |inputs| == 0 then
      (INIT, [])
    else
      var prev := Run(inputs[..|inputs| - 1]);
      var x := inputs[|inputs| - 1];
      var h := prev.1 + Consumed(prev.0, x.eoc, x.raw);
      if prev.0.running && x.eoc then
        PollAppends(prev.1, x.raw);
        (Poll(prev.0, x.eoc, x.raw), h)
      else
        assert h == prev.1;
        (Poll(prev.0, x.eoc, x.raw), h)
  }

  /** A summary describes a block of fewer than 100 readings and a published value that
      is -1 or the mean of 100 readings, hence within the converter's range. */
  lemma SummaryInRange(h: seq<int>, running: bool)
    requires Samples(h)
    ensures var s := Summary(h, running);
      && 0 <= s.count < N_SAMPLES
      && (s.value == -1 || 0 <= s.value <= ADC_MAX)
      && (|h| >= N_SAMPLES <==> s.value != -1)
  {
    var full := |h| / N_SAMPLES;
    var start := N_SAMPLES * full;
    DivIdentity(|h|, N_SAMPLES);
    if full > 0 {
      var block := h[start - N_SAMPLES..start];
      assert Samples(block);
      SumBounds(block);
      var v := Sum(block);
      DivMonotone(v, ADC_MAX * N_SAMPLES, N_SAMPLES);
      DivModUnique(ADC_MAX * N_SAMPLES, ADC_MAX, 0, N_SAMPLES);
      assert 0 <= v / N_SAMPLES <= ADC_MAX;
    } else {
      assert |h| < N_SAMPLES;
    }
  }

  /** Whatever the converter's timing, after any sequence of polls from the start the
      block holds fewer than 100 readings, a conversion is running, and `adc_value` is -1
      until 100 readings have been consumed and from then on a mean within the
      converter's range 0..4095. */
  lemma RunInRange(inputs: seq<Input>)
    requires forall i :: 0 <= i < |inputs| ==> 0 <= inputs[i].raw <= ADC_MAX
    ensures var r := Run(inputs);
      && 0 <= r.0.count < N_SAMPLES
      && (r.0.value == -1 || 0 <= r.0.value <= ADC_MAX)
      && (|r.1| >= N_SAMPLES <==> r.0.value != -1)
      && (|inputs| > 0 ==> r.0.running)
  {
    var r := Run(inputs);
    SummaryInRange(r.1, |inputs| > 0);
  }
}
