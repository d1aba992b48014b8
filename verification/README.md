# Hydrogen orbital viewer: verified model of the numeric core

The viewer draws a hydrogen orbital as a cloud of points. Each point is
coloured by the probability density |R(n, l, r) * Y(l, m, theta, phi)| at its
position. This project models, in Dafny, the parts of `src/WaveFunction.js`
that are exact arithmetic or array filling:

- `special_functions.dfy` (module `SpecialFunctions`) covers the following.
  - The recursive `factorial`.
  - The associated Legendre routine `legendre(l, m, x)`: the sign flip for a
    negative order, the loop that builds the diagonal term P(m, m), and the
    three-term recurrence over rolling variables.
  - The generalised Laguerre sum `laguerre(p, k, x)`, lifted out of
    `radialWavefunction`.

  Each loop is a `method` proved equal to a recursive reference definition.
  The properties of the routine are then proved as lemmas about that
  definition.
- `color_mapper.dfy` (module `ColorMapper`) covers the pure colour rules:
  - the density |R * Y|;
  - the intensity min(1, 100 * density);
  - the channels the red/blue and green/transparency schemes write;
  - the heat-map colour `getColorForValue`.
- `point_sampler.dfy` (module `PointSampler`) covers the point loop.
  - It allocates zero-filled position and colour buffers of 3N and 4N slots.
  - Iteration i writes slots 3i..3i+2 and 4i..4i+3 in place.
  - `FillPointCloud` is proved to produce exactly the buffers described by the
    value-level functions `PositionBuffer` and `ColorBuffer`.
  - The per-point colour facts are lemmas about those functions.

JavaScript numbers are modelled as exact `real` values. The factorial is an
`int`, since the source only applies it to integers. The colour-scheme
property is `Unset` (null or undefined) or `Named(s)` for any string `s`.

Two behaviours of the code a reader might not expect:

- `factorial(n)` is 1 for every n <= 1, negative n included, so the model's
  `Factorial` is total over `int`.
- A colour-scheme name other than "redBlue" or "greenTransparency", for
  example "blackOrange", which the settings panel offers, selects no colour
  rule. Neither `if` of the point loop fires, so the point's four colour
  slots keep the zeros of the freshly allocated buffer.

Some table rows are marked "proof step". They unfold a definition by one
step so that a loop invariant or an induction can use it. They are listed
because they sit next to the source line they unfold.

## Model

| member | source | states |
|---|---|---|
| SpecialFunctions.Factorial | src/WaveFunction.js:11 | n! is always at least 1: every n <= 1 gives 1 and larger n multiply up from there |
| SpecialFunctions.FactorialValues | src/WaveFunction.js:11 | 0! = 1! = 1, 5! = 120, and a negative argument such as -3 also gives 1 |
| SpecialFunctions.FactorialStep | src/WaveFunction.js:11 | n! = n * (n - 1)! for every n >= 1 |
| SpecialFunctions.FactorialSplit | src/WaveFunction.js:98-99 | n! = C(n, k) k! (n - k)!, with C the binomial coefficient defined independently by Pascal's rule; so the ratio (p + k)! / (p! k!) of the first Laguerre term, and hence L(p, k, 0), is C(p + k, p) |
| SpecialFunctions.NegOnePow | src/WaveFunction.js:23 | no contract of its own; the sign (-1)^m, whose properties are NegOnePowParity, NegOnePowUnit and NegOnePowStep |
| SpecialFunctions.NegOnePowParity | src/WaveFunction.js:23 | (-1)^m is 1 for even m and -1 for odd m, which is how the source computes the sign of a negative order |
| SpecialFunctions.NegOnePowUnit | src/WaveFunction.js:23 | the sign (-1)^m is always 1 or -1 |
| SpecialFunctions.NegOnePowStep | src/WaveFunction.js:34 | proof step: each extra factor of the diagonal loop flips the sign: (-1)^(m+1) = -(-1)^m |
| SpecialFunctions.PowStep | src/WaveFunction.js:34 | proof step: each extra factor of the diagonal loop raises the power of s by one |
| SpecialFunctions.Pow | src/WaveFunction.js:100 | no contract of its own; Math.pow(b, e) for a natural exponent, 0^0 = 1 included, whose properties are PowStep and PowZero |
| SpecialFunctions.OddProduct | src/WaveFunction.js:32-35 | no contract of its own; the product 1 * 3 * ... * (2m - 1) of the successive fact values, used by Diagonal and DiagonalStep |
| SpecialFunctions.Ratio | src/WaveFunction.js:98-99 | no contract of its own beyond a non-zero divisor; the division of two integers as a real, which LaguerreTermIs shows is always defined for the Laguerre terms |
| SpecialFunctions.PowZero | src/WaveFunction.js:100 | (-0)^e = 0 for every positive exponent, so only the first Laguerre term survives at x = 0 |
| SpecialFunctions.Diagonal | src/WaveFunction.js:27-37 | no contract of its own; the closed form (-1)^m (2m - 1)!! s^m of the diagonal term, which DiagonalStep ties to each loop iteration and LegendreDiagonal to the result |
| SpecialFunctions.LegendreFrom | src/WaveFunction.js:38-51 | no contract of its own; the order >= 0 reference recursion (0 below the diagonal, the seed on it, x (2m + 1) times the seed just below it, then the three-term recurrence), against which the Legendre loop invariants are stated and whose properties are LegendreFromStep, LegendreFromAtOne and LegendreFromParity |
| SpecialFunctions.LegendreSpec | src/WaveFunction.js:20-52 | no contract of its own; the reference definition of P(l, m, x) that Legendre is proved equal to, whose properties are the Legendre lemmas below |
| SpecialFunctions.Legendre | src/WaveFunction.js:20-52 | the routine, with its sign flip, diagonal loop, early returns and recurrence loop, returns exactly the reference value P(l, m, x) for every integer l and m |
| SpecialFunctions.DiagonalStep | src/WaveFunction.js:33-36 | iteration i of the diagonal loop turns (-1)^(i-1) (2i-3)!! s^(i-1) into (-1)^i (2i-1)!! s^i by multiplying by -(2i - 1) s |
| SpecialFunctions.LegendreNext | src/WaveFunction.js:47 | no contract of its own beyond l != m, since line 47 divides by ll - m; the update of one recurrence step, whose properties are LegendreNextTimes and LegendreNextParity |
| SpecialFunctions.LegendreDiagonal | src/WaveFunction.js:27-38 | P(m, m) = (-1)^m (2m - 1)!! s^m, and 1 when m = 0 because the loop is skipped |
| SpecialFunctions.LegendreFirstStep | src/WaveFunction.js:40-41 | P(m + 1, m) = x (2m + 1) P(m, m) |
| SpecialFunctions.LegendreNextIs | src/WaveFunction.js:47 | proof step: one recurrence step is ((2l - 1) x P(l-1) - (l + m - 1) P(l-2)) / (l - m) |
| SpecialFunctions.LegendreNextTimes | src/WaveFunction.js:47 | the recurrence with the division cleared: (l - m) P(l) = (2l - 1) x P(l-1) - (l + m - 1) P(l-2) |
| SpecialFunctions.LegendreFromStep | src/WaveFunction.js:46-51 | proof step: from degree m + 2 on, the reference value is the recurrence step applied to the two previous degrees |
| SpecialFunctions.LegendreRecurrence | src/WaveFunction.js:46-51 | for l >= m + 2, P(l, m, x) is the three-term recurrence applied to P(l - 1, m, x) and P(l - 2, m, x) |
| SpecialFunctions.LegendreNegativeOrder | src/WaveFunction.js:21-25 | for m < 0, P(l, m, x) = (-1)^abs(m) P(l, abs(m), x) |
| SpecialFunctions.LegendreBelowDiagonal | src/WaveFunction.js:38-51 | for 0 <= m and l < m the result is 0: no early return fires, the loop does not run, and the accumulator keeps its initial 0 |
| SpecialFunctions.LegendreLowDegrees | src/WaveFunction.js:38-51 | P0 = 1, P1 = x, P2 = (3x^2 - 1)/2, P(1,1) = -s, P(2,1) = -3xs, P(2,2) = 3s^2 |
| SpecialFunctions.LegendreAtOne | src/WaveFunction.js:43-51 | every order-0 polynomial takes the value 1 at x = 1 |
| SpecialFunctions.LegendreFromAtOne | src/WaveFunction.js:46-51 | the recurrence seeded with 1 keeps the value 1 at x = 1 for every degree (induction on l) |
| SpecialFunctions.LegendreParity | src/WaveFunction.js:20-52 | P(l, m, -x) = (-1)^(l-m) P(l, m, x) on and above the diagonal, with s even in x |
| SpecialFunctions.LegendreFromParity | src/WaveFunction.js:46-51 | the recurrence reflects x -> -x with the sign (-1)^(l-m) for every seed (induction on l) |
| SpecialFunctions.LegendreFromParityStep | src/WaveFunction.js:46-51 | if the two previous degrees have parities l-1-m and l-2-m, degree l has parity l-m |
| SpecialFunctions.LegendreNextParity | src/WaveFunction.js:47 | given a flag saying whether l - m is even, and inputs whose signs under x -> -x follow that flag (P(l-1) flips when it is set, P(l-2) when it is not), one recurrence step flips sign exactly when the flag is clear; LegendreFromParityStep passes (l - m) % 2 == 0 as the flag |
| SpecialFunctions.LaguerreTerm | src/WaveFunction.js:97-100 | no contract of its own; term m of the sum, (p+k)! / ((p-m)! m! (k+m)!) (-x)^m, which LaguerreTermIs ties to the value the loop adds |
| SpecialFunctions.LaguerrePartial | src/WaveFunction.js:96-101 | no contract of its own; the sum of terms 0..j-1, which is `result` after j iterations (the Laguerre loop invariant), with properties LaguerrePartialStep and LaguerrePartialAtZero |
| SpecialFunctions.LaguerreSpec | src/WaveFunction.js:94-103 | no contract of its own; the reference sum that Laguerre is proved equal to, whose properties are the Laguerre lemmas below |
| SpecialFunctions.Laguerre | src/WaveFunction.js:94-103 | the accumulating loop returns the reference sum of (p+k)! / ((p-m)! m! (k+m)!) (-x)^m over m = 0..p, and 0 when p < 0 |
| SpecialFunctions.LaguerreTermIs | src/WaveFunction.js:97-100 | proof step: the denominator of each term is at least 1, and the term the loop adds is term m of the reference sum |
| SpecialFunctions.LaguerrePartialStep | src/WaveFunction.js:96-101 | proof step: adding term m to the sum of terms 0..m-1 gives the sum of terms 0..m |
| SpecialFunctions.LaguerreNegativeDegree | src/WaveFunction.js:96 | a negative degree gives the empty sum 0 |
| SpecialFunctions.LaguerreDegreeZero | src/WaveFunction.js:94-103 | L(0, k, x) = 1 |
| SpecialFunctions.LaguerreDegreeOne | src/WaveFunction.js:94-103 | L(1, k, x) = (k + 1) - x for every k >= 0 |
| SpecialFunctions.LaguerreAtZero | src/WaveFunction.js:94-103 | L(p, k, 0) = (p + k)! / (p! k!) for every p >= 0 (for p < 0 the sum is empty, see LaguerreNegativeDegree) |
| SpecialFunctions.LaguerrePartialAtZero | src/WaveFunction.js:96-101 | at x = 0 every partial sum equals its first term (induction on the number of terms) |
| SpecialFunctions.LaguerreAtZeroBinomial | src/WaveFunction.js:94-103 | for k >= 0, L(p, k, 0) is the binomial coefficient C(p + k, p) |
| ColorMapper.SchemeOf | src/WaveFunction.js:235-246 | the red/blue rule applies exactly to "redBlue", null and undefined; the green rule exactly to "greenTransparency" |
| ColorMapper.SchemeOfOffered | src/App.js:156-158 | of the panel's options, "redBlue" selects red/blue, "greenTransparency" selects green, and "blackOrange" selects no rule; an unset property selects red/blue |
| ColorMapper.Min | src/WaveFunction.js:232 | Math.min: the result is at most both arguments and equals one of them |
| ColorMapper.Density | src/WaveFunction.js:219 | no contract of its own; Math.abs(R * Y), whose properties are DensityIsMagnitude |
| ColorMapper.DensityIsMagnitude | src/WaveFunction.js:219 | the density is non-negative and equals R * Y up to sign |
| ColorMapper.Intensity | src/WaveFunction.js:232 | no contract of its own; min(1, 100 * density), whose properties are IntensityBounds and IntensityMonotone |
| ColorMapper.IntensityBounds | src/WaveFunction.js:232 | the intensity is at most 1 and at most 100 * density, equals one of them, is exactly 1 from density 0.01 on, and is non-negative for a non-negative density |
| ColorMapper.IntensityMonotone | src/WaveFunction.js:232 | a larger density never gives a smaller intensity |
| ColorMapper.PointColor | src/WaveFunction.js:235-251 | no contract of its own; the channels of lines 240-243 and 247-250, or none, whose properties are PointColorRules and PointColorInUnitRange |
| ColorMapper.PointColorRules | src/WaveFunction.js:235-251 | a colour is written exactly when a rule applies; red/blue writes an opaque colour with no green, blue = intensity and red + blue = 1; green writes red = blue = 0 and green = alpha = intensity |
| ColorMapper.PointColorInUnitRange | src/WaveFunction.js:232-251 | for a non-negative density every channel written lies in [0, 1] |
| ColorMapper.RedBlueExtremes | src/WaveFunction.js:240-243 | intensity 0 gives pure opaque red and intensity 1 gives pure opaque blue |
| ColorMapper.ColorForValue | src/WaveFunction.js:153-157 | green is 0 and red and blue are at most 255; red is 255 exactly when v >= 1/2 and blue exactly when v <= 1/2; on [0, 1] both are non-negative and one of them is 255 |
| ColorMapper.ColorForValueMonotone | src/WaveFunction.js:154-155 | a larger value never lowers red and never raises blue |
| ColorMapper.ColorForValueMirror | src/WaveFunction.js:154-155 | mirroring the value about 1/2 swaps red and blue |
| PointSampler.Zeros | src/WaveFunction.js:196-197 | a fresh buffer of n slots holds n zeros |
| PointSampler.SampleIntensity | src/WaveFunction.js:219-232 | no contract of its own; min(1, 100 abs(R * Y)) of one sample, whose range is stated by IntensityBounds with DensityIsMagnitude |
| PointSampler.PositionSlots | src/WaveFunction.js:227-229 | no contract of its own; the three values x, y, z one point writes, located in the buffer by PositionBufferAt |
| PointSampler.ColorSlots | src/WaveFunction.js:240-250 | one point's slots are always four: its scheme's channels, or the kept zeros when no rule applies (SchemeChannels gives the values) |
| PointSampler.Channels | src/WaveFunction.js:240-250 | a colour, or its absence, always fills exactly four slots: r, g, b, a in that order, or four zeros |
| PointSampler.PositionBuffer | src/WaveFunction.js:196 | the filled position buffer of N points has 3N slots |
| PointSampler.ColorBuffer | src/WaveFunction.js:197 | the filled colour buffer of N points has 4N slots |
| PointSampler.PositionBufferAt | src/WaveFunction.js:227-229 | point i occupies exactly slots 3i..3i+2 of the position buffer, holding its x, y and z |
| PointSampler.ColorBufferAt | src/WaveFunction.js:240-250 | point i occupies exactly slots 4i..4i+3 of the colour buffer, holding its colour or zeros |
| PointSampler.ColorBufferInUnitRange | src/WaveFunction.js:232-251 | every slot of the filled colour buffer lies in [0, 1], whatever the scheme |
| PointSampler.ColorBufferUnknownScheme | src/WaveFunction.js:235-251 | when no rule applies the whole colour buffer stays zero |
| PointSampler.RedBluePoint | src/WaveFunction.js:240-243 | under red/blue every point has red + blue = 1, green 0, alpha 1, and blue equal to its intensity |
| PointSampler.GreenTransparencyPoint | src/WaveFunction.js:247-250 | under green every point has red = blue = 0 and green = alpha = its intensity |
| PointSampler.SchemeChannels | src/WaveFunction.js:240-250 | the four slots each scheme writes for intensity t: (1 - t, 0, t, 1), (0, t, 0, t), or the buffer's zeros |
| PointSampler.StorePosition | src/WaveFunction.js:227-229 | one iteration writes x, y, z into slots 3i..3i+2 and leaves every other slot unchanged |
| PointSampler.StoreColor | src/WaveFunction.js:232-251 | one iteration writes the scheme's colour for intensity min(1, 100 abs(R * Y)) into slots 4i..4i+3 and leaves every other slot unchanged; with no rule it writes nothing |
| PointSampler.FillPointCloud | src/WaveFunction.js:210-252 | the loop over fresh zeroed buffers of 3N and 4N slots leaves them equal to the position buffer and the colour buffer of the N samples |
| PointSampler.PositionFillStep | src/WaveFunction.js:227-229 | storing point i into a buffer filled up to point i extends the filled prefix by that point, with zeros after it |
| PointSampler.ColorFillStep | src/WaveFunction.js:235-251 | storing point i's colour, or nothing, extends the filled prefix of the colour buffer by that point |
| PointSampler.SpliceIntoZeros | src/WaveFunction.js:210-252 | writing a window right after the filled prefix of a zero-padded buffer extends the prefix by that window |

## Left out

- PointSampler.FillPointCloud: takes the point count as a `nat`. A negative count makes the typed-array allocation at src/WaveFunction.js:196-197 throw a RangeError before the loop starts, and the model does not represent that error.
- The Three.js scene, camera, orbit controls, renderer, point material, statistics panel, animation loop and clean-up (src/WaveFunction.js:170-209 and 253-318) are left out. They are rendering and DOM code around external libraries.
- The random spherical coordinates of each point (src/WaveFunction.js:212-214) are left out. Each point arrives as a `Sample` that holds its position and the radial and angular factors at that position.
- The square root sqrt((1 - x)(1 + x)) (src/WaveFunction.js:31) is not computed. It is the parameter `s` of `Legendre`, so the model does not tie `s` to `x`. `LegendreParity` relies only on `s` being the same for x and -x.
- `sphericalHarmonic` (src/WaveFunction.js:62-73) is left out: its normalisation constant involves pi and a square root, and it multiplies by cos and sin.
- The radial function's normalisation, exponential and real power (src/WaveFunction.js:106-117) are left out. These are transcendental floating-point computations, and `Laguerre` is their only exact part.
- The conversion from spherical to Cartesian coordinates (src/WaveFunction.js:222-224) is left out. It uses sin and cos; x, y and z are inputs.
- Floating-point behaviour is not modelled. Arithmetic is exact over `real`, so the model ignores rounding, overflow of large factorials, the numerical instability of the factorial-ratio Laguerre sum for large degrees, and the rounding of stored values to 32-bit floats.
- `Legendre` and `Laguerre` take integer degrees and orders. JavaScript would also accept fractional ones, which the viewer never passes.
- `createHeatmap` (src/WaveFunction.js:127-146) is left out, because it builds a DOM canvas and is never called. Its colour function `getColorForValue` is modelled as `ColorForValue`.
- src/App.js is not part of this model. Only its list of colour-scheme names appears, in `SchemeOfOffered`.
