# tretroller firmware core in Dafny

This project models the integer logic of the tretroller LED scooter firmware (an STM32
driving a WS2812 strip of 79 LEDs). The logic modelled is:

- the WS2812 bit-stream encoder;
- the UART LED-command parser of the stand-alone LED driver;
- the tachometer interrupts;
- battery cell detection and percentage;
- the colour and fixed-point helpers;
- the value noise;
- the LED pattern index logic;
- the ADC block filter.

Each part is its own module, and the modules follow the source files:

| module | source |
|---|---|
| `MachineInt` | C integer semantics: truncating `/` and `%` (`CDiv`, `CMod`), conversions to `uint16_t`, `uint32_t` and `int`, and bit lemmas |
| `Common` | `common.h`: the 16-bit fixed point (`SHIFT`, `ONE`, `>>` as floor division), the strip geometry and `FPS` |
| `Ws2812` | `src/ws2812.c` and `ws2812/ws2812.c`: `populate_dma_data`, `dma1_channel3_isr` and `ws2812_init` |
| `LedCommand` | `ws2812/ws2812.c`: `handle_cmd` |
| `Tacho` | `tacho.c`: `tim1_cc_isr` and `tim1_up_isr` |
| `Battery` | `battery.c`: the cell estimate, the voltage table, the binary search and the cached `batt_cells` |
| `Color` | `color.c` and `color.h`: `gamma8`, `clamp_and_gamma`, `RGB`, `RGBg`, `hsv` and `hsv2` |
| `FixedMath` | `math.c`: `sini`, `clamp`, `min` and `max` |
| `Noise` | `noise.c`: `noise` and `fractal_noise` |
| `LedPattern` | `ledpattern.c`: `show_cell`, `snake_value`, battery-empty, knight rider, and the mirrored bottom patterns |
| `Adc` | `adc.c`: `adc_poll` |

The stand-alone driver `firmware/ws2812/ws2812.c` runs the same encoder and DMA interrupt as `firmware/src/ws2812.c`, but with 10 LEDs, so its cursor cycles over 13 slots. `Ws2812` is generic in the LED count and covers both copies.

Each part is written in one of two styles:

- **Interrupt handlers and `static` state** become pure transition functions over an explicit state datatype. An interrupt is one atomic step.
- **Array-filling loops** become methods on sequences. Loop invariants prove what every index holds afterwards and that nothing else changes.

C integer semantics are written out:

- `/` and `%` truncate toward zero (`MachineInt.CDiv`, `MachineInt.CMod`).
- A signed `>> SHIFT` is the arithmetic shift, i.e. floor division (`Common.ShiftDown`).
- `uint16_t` and `uint32_t` arithmetic wraps.
- `fixed_t` is 64 bits wide.
- Signed overflow, which is undefined in C, is excluded by preconditions.

Two tables and the ADC are parameters rather than fixed data:

- The sine table of `sini` is any bounded, non-decreasing table.
- The noise table is any table with entries in `[-ONE, ONE)`.
- The ADC readings are an input sequence.

## Model

| member | source | states |
|---|---|---|
| `Ws2812.TimingConstants` | firmware/src/ws2812.c:41-48 | with TICK_NS = 13 the pulse widths are WS0 = 26 < WS1 = 61 < WSP = 100 ticks and a bank is 40 slots of 24 symbols (960; the buffer 1920) |
| `Ws2812.Symbol` | firmware/src/ws2812.c:93-104 | every symbol written is 0, WS0 or WS1 |
| `Ws2812.EncodeWord` | firmware/src/ws2812.c:95-100 | a colour word becomes 24 symbols, symbol j being WS1 exactly when bit 23-j is set (most significant bit first, bits above 23 ignored) |
| `Ws2812.ShiftStep` | firmware/src/ws2812.c:95-99 | testing `0x800000` and shifting left by one moves through the word's bits from bit 23 down, one per pulse |
| `Ws2812.EncodeGap` | firmware/src/ws2812.c:101-104 | a reset slot is 24 zero symbols |
| `Ws2812.EncodeSlot` | firmware/src/ws2812.c:93-104 | slot c carries LED c's word for c below the LED count and zeros for the three reset slots |
| `Ws2812.NextCursor` | firmware/src/ws2812.c:93-105 | the cursor after a bank stays within 1..LED_COUNT + 3 |
| `Ws2812.PopulateBank` | firmware/src/ws2812.c:91-107 | one call fills exactly 960 symbols, each the symbol of the continuous stream starting at the cursor, and leaves the cursor 40 slots further on modulo LED_COUNT + 3 |
| `Ws2812.CallsAreConsecutive` | firmware/src/ws2812.c:93-105 | successive calls continue the stream where the previous one stopped |
| `Ws2812.ResetGap` | firmware/src/ws2812.c:93-104 | a symbol is 0 exactly in the three reset slots, so every frame ends in 72 zero symbols |
| `Ws2812.SymbolDecodes` | firmware/src/ws2812.c:95-99 | symbol j of LED c is WS1 iff bit 23-j of its word is set and WS0 iff it is clear |
| `Ws2812.DmaIsr` | firmware/src/ws2812.c:139-149 | transfer-complete refills only the upper bank, half-transfer only the lower, and without either flag nothing changes; with both flags the upper bank gets the stream from the cursor and the lower bank continues it from the cursor one bank on; the cursor advances one bank per flag raised |
| `Ws2812.InitialBuffer` | firmware/src/ws2812.c:155 | the transfer buffer starts all zero |
| `Ws2812.InitialColour` | firmware/src/ws2812.c:162-166 | the initial colour of LED i has red 255, blue 0 and green ((i*400)%251)/2, at most 125, and nothing above bit 23 |
| `Ws2812.InitialLeds` | firmware/src/ws2812.c:157-166 | the array has LED_COUNT entries and every LED decodes to red 255, blue 0 and green ((i*400)%251)/2 within a 24-bit word |
| `LedCommand.Step` | firmware/ws2812/ws2812.c:141-195 | one byte keeps the colour fields bytes and the array length; only the eighth byte writes, only at the offset id, and only a word below 2^24 |
| `LedCommand.Feed` | firmware/ws2812/ws2812.c:141-201 | handling any sequence of received bytes keeps the colour fields bytes and the LED array's length |
| `LedCommand.FeedStoresColours` | firmware/ws2812/ws2812.c:170-191 | after any byte sequence every LED holds its old word or a parser-written word below 2^24 |
| `LedCommand.ZeroResyncs` | firmware/ws2812/ws2812.c:160-165 | a zero byte while waiting changes neither the phase nor the LEDs |
| `LedCommand.CommandIsEightBytes` | firmware/ws2812/ws2812.c:159-193 | a command with a non-zero first byte takes exactly eight bytes and then sets LED `id - 0xA000` (mod 2^16) to `g<<16 | r<<8 | b` if it exists, leaving the rest |
| `LedCommand.TargetInRange` | firmware/ws2812/ws2812.c:152-189 | the id addresses an LED of an array of n ≤ 0x6000 iff it lies in 0xA000 .. 0xA000+n-1; lower ids wrap to at least 0x6000 |
| `LedCommand.TargetOfSourceIds` | firmware/ws2812/ws2812.c:33-35 | for the 10 LEDs of the driver exactly ids 0xA000..0xA009 address an LED |
| `Tacho.OnEdge` | firmware/src/tacho.c:41-49 | an edge clears overflow; after an overflow it keeps the frequency, otherwise sets it to 65536000 / ccr |
| `Tacho.OnOverflow` | firmware/src/tacho.c:52-59 | an overflow sets frequency 0 and overflow, whatever the state |
| `Tacho.InitInv` | firmware/src/tacho.c:37-38 | the initial state has frequency 0, overflow set, and satisfies the invariant |
| `Tacho.Step` | firmware/src/tacho.c:37-59 | every interrupt keeps "overflow implies frequency 0" and frequency ≤ 65536000 |
| `Tacho.Run` | firmware/src/tacho.c:37-59 | the invariant holds after any sequence of interrupts |
| `Tacho.NonZeroNeedsEdge` | firmware/src/tacho.c:45-47 | from frequency 0, a non-zero frequency needs an edge |
| `Tacho.NonZeroNeedsTwoEdges` | firmware/src/tacho.c:45-58 | after an overflow a non-zero frequency needs at least two edges |
| `Battery.EstimateCells` | firmware/src/battery.c:35-41 | the result is -1 or the least n in 1..999 with millivolts < n*4200+200 |
| `Battery.EstimateCellsClosedForm` | firmware/src/battery.c:35-41 | the estimate is never 0; it is -1 iff millivolts ≥ 999*4200+200, 1 below 4400, and (millivolts-200)/4200+1 otherwise |
| `Battery.VoltagesIsCurve` | firmware/src/battery.c:43-46 | the 21-entry table runs from 4200 down to 3000, strictly decreasing |
| `Battery.Interpolate` | firmware/src/battery.c:69 | for a voltage on segment i the interpolation lies in [95-5i, 100-5i]; it is 100-5i at the segment's upper voltage and 95-5i at its lower one |
| `Battery.InterpolateMonotone` | firmware/src/battery.c:69 | on a segment the interpolation is non-decreasing in the voltage |
| `Battery.SegmentFrom` | firmware/src/battery.c:55-67 | the reference search finds the first segment, scanning down from i, that contains the per-cell voltage |
| `Battery.CellPercent` | firmware/src/battery.c:52-69 | the percentage of a per-cell voltage lies in 0..100, and is 100 from 4200 mV up and 0 at or below 3000 mV |
| `Battery.AnySegmentAgrees` | firmware/src/battery.c:61-69 | where two segments meet the interpolation gives the same value, so the segment the search stops at does not matter |
| `Battery.Percent` | firmware/src/battery.c:48-53 | the percentage lies in 0..100; it is 100 when millivolts / n_cells (truncated) is at least 4200 and 0 when it is at most 3000 |
| `Battery.CalcPercent` | firmware/src/battery.c:48-70 | the binary search terminates and returns the reference percentage of millivolts / n_cells, within 0..100 |
| `Battery.SearchSegment` | firmware/src/battery.c:55-67 | for a per-cell voltage strictly between 3000 and 4200 the bisection terminates on a segment whose ends enclose the voltage |
| `Battery.PercentAtTablePoint` | firmware/src/battery.c:43-44 | at table voltage k the percentage is 100-5k, the "remaining" row |
| `Battery.AcrossSegments` | firmware/src/battery.c:61-69 | a voltage on a lower segment never gives a higher percentage than a voltage at least as high on another segment |
| `Battery.CellPercentMonotone` | firmware/src/battery.c:52-69 | the percentage is non-decreasing in the per-cell voltage |
| `Battery.PercentMonotone` | firmware/src/battery.c:50-69 | for a fixed positive cell count the percentage is non-decreasing in millivolts |
| `Battery.PercentAtVoltages` | firmware/src/battery.c:43-53 | one cell at table voltage k gives 100-5k |
| `Battery.GetPercent` | firmware/src/battery.c:72-83 | a negative cached cell count is replaced by the estimate, a positive one is kept; the percentage is computed with the resulting non-zero count |
| `Color.Gamma8Monotone` | firmware/src/color.c:3-19 | the gamma table is non-decreasing, from 0 to 255 |
| `Color.ClampAndGamma` | firmware/src/color.c:22-29 | inputs ≤ 0 give 0, inputs ≥ 255 give 255, and inputs in 0..255 give their gamma table entry |
| `Color.ClampAndGammaMonotone` | firmware/src/color.c:22-29 | clamp_and_gamma is non-decreasing in its input |
| `Color.Rgb` | firmware/src/color.h:59 | RGB puts r in bits 8-15, g in 16-23 and b in 0-7: unpacking the word gives the components back, and the top byte is zero |
| `Color.RgbRepack` | firmware/src/color.h:59 | every word below 2^24 is the packing of its own components |
| `Color.RgbG` | firmware/src/color.h:60 | RGBg clamps and gamma-corrects each channel, and the word is below 2^24 for any int inputs |
| `Color.HsvLevels` | firmware/src/color.c:40-43 | the hue is reduced modulo 3600, so the sector is 0..5 and the endless loop is unreachable |
| `Color.HsvLevelsInRange` | firmware/src/color.c:40-48 | with saturation and value ≤ 1000 none of the uint32 operations wraps: p, q, t and v equal their formulas over the integers (q and t with f = (hue mod 3600) mod 600) and lie in 0..255 |
| `Color.SectorChannels` | firmware/src/color.c:50-57 | the full level v drives red in sectors 5 and 0, green in 1 and 2 and blue in 3 and 4; the floor p drives the opposite channel; with byte-sized levels every channel is a byte and green at most 204 |
| `Color.Hsv` | firmware/src/color.c:38-60 | the output word has a zero top byte (format 0x00GGRRBB) |
| `Color.HsvGreenCap` | firmware/src/color.c:52-57 | green is scaled by 4/5 before gamma in every sector, so it never exceeds gamma8[204] = 137 |
| `Color.HsvGrey` | firmware/src/color.c:45-57 | zero saturation gives red = blue = the gamma-corrected value and green the same scaled by 4/5 |
| `Color.HsvSectorStarts` | firmware/src/color.c:50-57 | at hue 600k with full saturation and value, hsv gives the sector's primary or secondary colour: hsv(0, 1000, 1000) is 0x0000FF00 as documented, but the secondaries carry green 0x89 (hsv(600, 1000, 1000) is 0x0089FF00) |
| `Color.HsvHuePeriodic` | firmware/src/color.c:40 | hsv depends on the hue only modulo 3600 |
| `Color.LightFactor` | firmware/src/color.c:67 | the hsv2 divisor lies in 2600..3200 and is never zero |
| `Color.Hsv2` | firmware/src/color.c:65-69 | the word has a zero top byte and is the hsv colour of the same hue and saturation at some value no larger than the given one |
| `Color.DimmedAtMost` | firmware/src/color.c:68 | `value * 2600 / light_factor` in uint32 is at most value, whether or not the product wraps |
| `Color.Hsv2Dims` | firmware/src/color.c:65-69 | hsv2 passes on at most the input value for every input, and when value * 2600 does not wrap it equals hsv at hues that are multiples of 1200 |
| `Color.Hsv2HuePeriodic` | firmware/src/color.c:65-69 | hsv2 is unchanged when the hue grows by 3600 |
| `FixedMath.SinIndex` | firmware/src/math.c:81-91 | every table index sini uses lies in 0..1023 |
| `FixedMath.Sini` | firmware/src/math.c:75-93 | the sine lies within ±1023*64 < ONE, is non-negative on the first half-period and non-positive on the second |
| `FixedMath.SiniPeriodic` | firmware/src/math.c:77 | sini(v) = sini(v mod 4096) |
| `FixedMath.SiniSymmetric` | firmware/src/math.c:81-84 | on the positive half-wave sini(x) = sini(2047-x) |
| `FixedMath.SiniHalfTurn` | firmware/src/math.c:79-92 | sini(x+2048) = -sini(x) |
| `FixedMath.SiniRising` | firmware/src/math.c:81-82 | on the first quarter sini follows the non-decreasing table |
| `FixedMath.Clamp` | firmware/src/math.c:95-100 | clamp returns one of its arguments, lies in [lo, hi] when lo ≤ hi, and returns val when it is already inside |
| `FixedMath.ClampIsNearest` | firmware/src/math.c:95-100 | clamp returns the point of [lo, hi] nearest to val |
| `FixedMath.ClampIdempotentMonotone` | firmware/src/math.c:95-100 | clamp is idempotent and monotone |
| `FixedMath.Min` | firmware/src/math.c:102-105 | min returns one of its arguments, not above either |
| `FixedMath.Max` | firmware/src/math.c:107-110 | max returns one of its arguments, not below either |
| `FixedMath.MinMaxPair` | firmware/src/math.c:102-110 | min ≤ max, they sum to a+b and both are symmetric |
| `Noise.Wrap` | firmware/src/noise.c:27-28 | `((x % w) + w) % w` with C remainders is the Euclidean remainder, in [0, w) |
| `Noise.Locate` | firmware/src/noise.c:27-33 | the cell indices lie in 0..15 and 0..63, the fractions in [0, ONE), and together they rebuild the wrapped coordinates |
| `Noise.Lerp` | firmware/src/noise.c:40-43 | for a fraction in [0, ONE) an interpolation step lies between its two end points, and at fraction 0 it is the start point |
| `Noise.StepBetween` | firmware/src/noise.c:40-43 | the shifted product `((b - a) * f) >> SHIFT` lies between 0 and b - a |
| `Noise.NoiseAt` | firmware/src/noise.c:22-44 | for a table of samples in [-ONE, ONE) the noise value lies in [-ONE, ONE) at every point |
| `Noise.NoiseBetweenCorners` | firmware/src/noise.c:35-43 | the noise lies between the smallest and largest of the four corners, so within [-ONE, ONE) |
| `Noise.NoisePeriodic` | firmware/src/noise.c:24-28 | noise repeats every 16 ONE in x and every 64 ONE in y |
| `Noise.NoiseAtGridPoint` | firmware/src/noise.c:30-43 | at grid points the noise is the table entry |
| `Noise.FractalNoise` | firmware/src/noise.c:46-52 | fractal_noise as written is bounded by abs(amp1) + 2 abs(amp2) |
| `Noise.FractalNoiseIgnoresAmp3` | firmware/src/noise.c:46-52 | fractal_noise as written does not depend on amp3 |
| `Noise.FractalNoiseCounterexample` | firmware/src/noise.c:51 | with only amp3 set (and a constant table of ONE/2) the code yields 0 where the intended sum yields ONE/2 |
| `Noise.FractalNoiseIntended` | firmware/src/noise.c:46-52 | with amp3 scaling the third octave the result is bounded by the sum of the three amplitudes |
| `Noise.FractalNoiseThirdOctave` | firmware/src/noise.c:46-52 | on a constant table c with only amp3 set, the intended sum gives amp3 times c in fixed point while the code gives 0 |
| `LedPattern.ShowCell` | firmware/src/ledpattern.c:19-31 | one to three cells light the LEDs less than that many places from the centre LED 2 with the centring parity; four or more light the first batt_cells LEDs; -1 and other non-positive counts light none |
| `LedPattern.LitCells` | firmware/src/ledpattern.c:19-31 | show_cell lights i exactly when it is one of the five front LEDs chosen by the switch |
| `LedPattern.ShowCellCount` | firmware/src/ledpattern.c:19-31 | as many LEDs light as there are cells (none for -1, at most 5), symmetric about the centre except for 4 cells |
| `LedPattern.SnakeValue` | firmware/src/ledpattern.c:7-16 | zero off the snake; on it, with full ≥ 0 and fadeout > 0, within [0, full] |
| `LedPattern.SnakeSymmetric` | firmware/src/ledpattern.c:9-12 | reflecting the position about the snake's middle leaves the value unchanged |
| `LedPattern.SnakeRamp` | firmware/src/ledpattern.c:11-12 | on the snake the value grows with the distance from the nearer end |
| `LedPattern.FlashFrames` | firmware/src/ledpattern.c:42-53 | from frame 108 on the flash is on exactly at frames 0, 8, 9, 100, 108 and 109 of every 2000 |
| `LedPattern.BatEmptyColour` | firmware/src/ledpattern.c:53 | the flash colour is full green and the glow red at level 1 in the 0x00GGRRBB packing |
| `LedPattern.BatEmpty` | firmware/src/ledpattern.c:33-69 | every one of the 79 LEDs gets its battery-empty word (sides every third LED, front by show_cell, bottom dark); LEDs beyond are untouched |
| `LedPattern.BatEmptyShape` | firmware/src/ledpattern.c:55-68 | the side strips mirror each other and are lit iff i%3 == 0, the front follows show_cell and the bottom is dark |
| `LedPattern.BatEmptyCoversStrip` | firmware/src/ledpattern.c:55-68 | the indices written are exactly 0..78 |
| `LedPattern.HeaderArrayTooShort` | firmware/src/ws2812.h:22 | the patterns write index 78 but the array declared there has only 50 entries |
| `LedPattern.SlotLayout` | firmware/src/ledpattern.c:121-141 | the 23 slots drive LEDs 0..11 and 16..26, each exactly once and in order (LedSlot inverts SlotLed), never front LEDs 12..15 |
| `LedPattern.SweepHead` | firmware/src/ledpattern.c:128-130 | the snake head stays within one sweep length of 0, and non-negative from frame 0 on |
| `LedPattern.SweepHeadForward` | firmware/src/ledpattern.c:128-130 | the head advances a quarter slot per frame and the sweep repeats every 184 frames |
| `LedPattern.SnakeDefinedSmall` | firmware/src/ledpattern.c:144-148 | the three snake_value calls of the sweep cannot overflow |
| `LedPattern.SweepValue` | firmware/src/ledpattern.c:142-148 | the slot brightness lies in 0..1000 |
| `LedPattern.SweepSaturation` | firmware/src/ledpattern.c:149 | the saturation lies in 834..1000 and is full exactly below value 503 |
| `LedPattern.SweepColour` | firmware/src/ledpattern.c:149-151 | the slot word has a zero top byte |
| `LedPattern.Knightrider` | firmware/src/ledpattern.c:115-153 | front LEDs 1..4 go dark, each slot's LED gets its sweep colour, and LEDs from 27 on are untouched |
| `LedPattern.DarkenFront` | firmware/src/ledpattern.c:124-126 | exactly front LEDs 1..4 are set to 0 |
| `LedPattern.PaintSlots` | firmware/src/ledpattern.c:132-152 | each slot's LED gets the slot's word; front LEDs 1..4 and LEDs from 27 on are untouched |
| `LedPattern.FillBottom` | firmware/src/ledpattern.c:225-226 | bottom LED i is written at B-1-i and B+i with the same word, so the bottom is mirrored; sides, front and LEDs beyond 78 are untouched |
| `LedPattern.FillBottomUniform` | firmware/src/ledpattern.c:358-362 | every bottom LED gets the same word |
| `LedPattern.Band` | firmware/src/ledpattern.c:216 | the truncating `% 3` gives a switch value in -2..2, and one in 0..2 for non-negative positions |
| `LedPattern.BandColour` | firmware/src/ledpattern.c:216-226 | bands 0, 1 and 2 light only blue, only green or only red at the gamma-corrected level; any other value gives grey 64 |
| `LedPattern.BandForward` | firmware/src/ledpattern.c:214-216 | for non-negative positions the band is (pos / 30 LEDs) mod 3, so one of 0..2 |
| `LedPattern.BandDefaultArm` | firmware/src/ledpattern.c:216-222 | the grey default arm is taken only for negative positions, and is taken at position -30 |
| `LedPattern.ThreeColour` | firmware/src/ledpattern.c:207-228 | each bottom LED gets its band colour, mirrored |
| `LedPattern.Hue` | firmware/src/ledpattern.c:313-315 | a hue that fits an int reaches hsv2 unchanged when non-negative and as 2^32 + hue when negative |
| `LedPattern.HueTurn` | firmware/src/ledpattern.c:328-332 | adding 3600 << SHIFT to the fixed-point hue leaves the colour unchanged |
| `LedPattern.RainbowSaturation` | firmware/src/ledpattern.c:331 | the rainbow's saturation lies in 0..1000 |
| `LedPattern.RainbowDesaturates` | firmware/src/ledpattern.c:331 | full saturation up to 50 LEDs/s, none from 100 LEDs/s |
| `LedPattern.RainbowRepeats` | firmware/src/ledpattern.c:327-332 | the rainbow repeats every 30 LEDs |
| `LedPattern.Rainbow` | firmware/src/ledpattern.c:321-336 | each bottom LED gets the rainbow colour of its position, mirrored |
| `LedPattern.PositionColourRepeats` | firmware/src/ledpattern.c:313-315 | the position colour repeats every 300 LEDs travelled |
| `LedPattern.PositionColour` | firmware/src/ledpattern.c:306-319 | the whole bottom shows one colour set by the position |
| `LedPattern.InstantValue` | firmware/src/ledpattern.c:352 | the target brightness lies in 0..1000 |
| `LedPattern.Smooth` | firmware/src/ledpattern.c:353-354 | the smoothed brightness moves toward the target without overshooting, and stays put iff the gap is under 30 |
| `LedPattern.VelocityStep` | firmware/src/ledpattern.c:342-354 | the statics keep a non-negative saved velocity and a brightness in 0..1000; a positive velocity is saved, others keep the old one |
| `LedPattern.VelocitySaturation` | firmware/src/ledpattern.c:349 | the saturation lies in 0..1000 |
| `LedPattern.VelocityStandingStill` | firmware/src/ledpattern.c:342-354 | at the start saturation is full; at or below 10 LEDs/s the target is 0 and the brightness does not rise |
| `LedPattern.VelocityColour` | firmware/src/ledpattern.c:338-363 | the statics advance one frame and the whole bottom shows the colour they give |
| `Adc.Poll` | firmware/src/adc.c:81-106 | a conversion is running afterwards; a reading adds one to the count or completes the block; the value changes only when a block completes |
| `Adc.PollAppends` | firmware/src/adc.c:85-97 | a state that summarises the readings so far summarises them plus one more after a poll |
| `Adc.PollWithinBlock` | firmware/src/adc.c:89-90 | a reading that does not complete a block adds to the count and the sum |
| `Adc.PollCompletesBlock` | firmware/src/adc.c:92-97 | the hundredth reading publishes the floor mean of the block and empties it |
| `Adc.Run` | firmware/src/adc.c:66-106 | after any poll sequence from the start the state is the summary of the readings consumed |
| `Adc.Summary` | firmware/src/adc.c:77-97 | the reference state keeps the running flag and a block count in 0..99; before 100 readings all readings are in the open block and no value is published; at each multiple of 100 the block is empty |
| `Adc.SummaryInRange` | firmware/src/adc.c:88-97 | count stays in 0..99 and the published value is -1 or in 0..4095 |
| `Adc.RunInRange` | firmware/src/adc.c:66-106 | from the start: count in 0..99, value -1 until 100 readings and then in 0..4095, and a conversion running after any poll |

## Left out

- Peripheral bring-up and registers (clocks, timers, DMA, ADC, UART, GPIO) have no visible semantics. The capture register, `adc_eoc` and `adc_read_regular` are event inputs instead.
- `firmware/src/usart.c` is blocking output only.
- `firmware/src/main.c` is left out. It holds the frame loop, printf and diverging copies of the helpers and patterns, and derives constants from `double`.
- `tick_leds` (`firmware/ws2812/ws2812.c:258-280`) computes in floating point.
- `noise_init` draws random numbers. The noise table is a parameter bounded in `[-ONE, ONE)`.
- The sine table of `sini` is a parameter: any table with entries in 0..1023 that is non-decreasing.
- `firmware/src/learn.py` is an offline calibration script.
- The `dots`, `lava`, `water` and `snake` bottom patterns are left out. They only compose noise, `sini` and `snake_value` with `hsv2`.
- `front_bat_and_slow_info` is left out, including its brightness wrappers. It has the same structure as the knight-rider pattern: mirrored side writes and a `static` smoothing filter.
- The knight-rider brightness wrappers (1000, 750, 500, 250) are the `brightness` parameter of `LedPattern.Knightrider`.
- The pattern function-pointer tables and the header prototypes are link-level declarations, not behaviour.
- Interrupt priorities and sharing of `volatile` data between interrupt handlers are left out. Each handler is one atomic transition.
- `printf` calls are dropped.
- `LedPattern.RainbowDesaturates`: proved only for speeds within ±2^24 LEDs/s. Beyond that, the conversion of the shifted value to `int` wraps and the saturation is whatever the wrapped value gives.
- `LedPattern.HueTurn`: proved only while the hue is a non-negative `int`. A negative hue passed to the `uint32_t` parameter of `hsv2` wraps to 2^32 + hue, and 2^32 is not a multiple of 3600.
- `LedPattern.RainbowRepeats`: proved only for non-negative positions, for the same reason.
- `LedPattern.PositionColourRepeats`: proved only for non-negative positions, for the same reason.
- `LedPattern.VelocityStandingStill`: proved only for non-negative velocities. The speed from the tachometer is never negative, and for very negative velocities the `int` conversion of the target wraps.
- `Color.Hsv2Dims`: the agreement with `hsv` at multiples of 1200 is proved only while `value * 2600` does not wrap in `uint32_t` (value below 1651910). Beyond that the wrapped product is what gets divided, and the value passed on is smaller than the input.
- `Tacho.OnEdge`: requires a non-zero capture while the overflow flag is clear. The source divides by the capture register unguarded there, and C leaves division by zero undefined.

Where the documentation and the code disagree, the model follows the code:

- The tachometer computes the frequency from one capture. There is no multi-magnet estimator.
- Frequency 0 does not imply overflow: the first edge after an overflow clears the flag but keeps frequency 0.
- The reset gap is three slots of 24 zero symbols (72 symbols), not three symbols.
- The colour word is `g << 16 | r << 8 | b`.
- The yellow example in the comment of `hsv` (`firmware/src/color.h:40`) does not hold, because green is scaled by 4/5.
- The battery-empty pattern comments a blue flash and a red glow. With this packing, `0xff0000` is full green and `0x000100` is red at level 1.

## Findings

| source | as written | input that shows it | evidently intended | confidence | as-written member | corrected member |
|---|---|---|---|---|---|---|
| firmware/src/ws2812.h:22 | `led_data` has `LED_COUNT` = 50 entries | `ledpattern_bat_empty` writes `led_data[78]` (bottom LED 25, second half) | an array covering all 79 LEDs the patterns address | high, not executed | `LedPattern.HeaderArrayTooShort` | `LedPattern.BatEmpty` (requires an array of at least 79 LEDs; `BatEmptyCoversStrip` shows 0..78 is exactly what is written) |
| firmware/src/noise.c:51 | the third octave is scaled by `amp2`; `amp3` is unused | constant table ONE/2 at (0, 0) with amp1 = amp2 = 0 and amp3 = ONE gives 0 | third octave scaled by `amp3` | medium, not executed | `Noise.FractalNoiseCounterexample` | `Noise.FractalNoiseThirdOctave` |
