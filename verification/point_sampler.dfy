/**
 * The point-cloud fill of the orbital viewer: for each of N points, three
 * position slots and four colour slots of two zero-initialised buffers.
 *
 * The random spherical coordinates, the wave-function evaluation and the
 * conversion to Cartesian coordinates are abstracted: each point arrives as
 * a Sample holding its position and the radial and angular factors of the
 * wave function at that position.
 */
module PointSampler {
  import opened ColorMapper

  datatype Sample = Sample(x: real, y: real, z: real, radial: real, angular: real)

  function Zeros(n: nat): (z: seq<real>)
    ensures |z| == n && forall k :: 0 <= k < n ==> z[k] == 0.0
  {
    seq(n, _ => 0.0)
  }

  /** The intensity of a sample: min(1, 100 |R * Y|). */
  function SampleIntensity(s: Sample): real
  {
    Intensity(Density(s.radial, s.angular))
  }

  /** The three position slots of one point. */
  function PositionSlots(s: Sample): seq<real>
  {
    [s.x, s.y, s.z]
  }

  /** The four colour slots of one point as the filled buffer holds them: the buffer's zeros when the scheme writes nothing. */
  function ColorSlots(k: Scheme, s: Sample): (q: seq<real>)
    ensures |q| == 4
  {
    Channels(PointColor(k, SampleIntensity(s)))
  }

  /** The four buffer slots of a colour, or the buffer's zeros when there is none. */
  function Channels(o: Option<Rgba>): (q: seq<real>)
    ensures |q| == 4
  {
    match o
    case Some(col) => [col.r, col.g, col.b, col.a]
    case None => Zeros(4)
  }

  /** The filled position buffer: the slots of every sample, in order. */
  function PositionBuffer(samples: seq<Sample>): (b: seq<real>)
    ensures |b| == 3 * |samples|
  {
    if samples == [] then []
    else PositionBuffer(samples[..|samples| - 1]) + PositionSlots(samples[|samples| - 1])
  }

  /** The filled colour buffer: the colour slots of every sample, in order. */
  function ColorBuffer(k: Scheme, samples: seq<Sample>): (b: seq<real>)
    ensures |b| == 4 * |samples|
  {
    if samples == [] then []
    else ColorBuffer(k, samples[..|samples| - 1]) + ColorSlots(k, samples[|samples| - 1])
  }

  /** Point i occupies exactly slots 3i .. 3i + 2 of the position buffer. */
  lemma {:induction false} PositionBufferAt(samples: seq<Sample>, i: nat)
    requires i < |samples|
    ensures PositionBuffer(samples)[3 * i .. 3 * i + 3] == PositionSlots(samples[i])
  {
    var n := |samples| - 1;
    var front := samples[..n];
    assert PositionBuffer(samples) == PositionBuffer(front) + PositionSlots(samples[n]);
    if i < n {
      PositionBufferAt(front, i);
    }
  }

  /** Point i occupies exactly slots 4i .. 4i + 3 of the colour buffer. */
  lemma {:induction false} ColorBufferAt(k: Scheme, samples: seq<Sample>, i: nat)
    requires i < |samples|
    ensures ColorBuffer(k, samples)[4 * i .. 4 * i + 4] == ColorSlots(k, samples[i])
  {
    var n := |samples| - 1;
    var front := samples[..n];
    assert ColorBuffer(k, samples) == ColorBuffer(k, front) + ColorSlots(k, samples[n]);
    if i < n {
      ColorBufferAt(k, front, i);
    }
  }

  /** Every colour channel in the filled buffer lies in [0, 1], whatever the scheme. */
  lemma {:induction false} ColorBufferInUnitRange(k: Scheme, samples: seq<Sample>)
    ensures forall j :: 0 <= j < |ColorBuffer(k, samples)| ==> 0.0 <= ColorBuffer(k, samples)[j] <= 1.0
  {
    if samples != [] {
      var n := |samples| - 1;
      ColorBufferInUnitRange(k, samples[..n]);
      var s := samples[n];
      DensityIsMagnitude(s.radial, s.angular);
      PointColorInUnitRange(k, Density(s.radial, s.angular));
    }
  }

  /** A scheme with no colour rule leaves the whole colour buffer at zero. */
  lemma {:induction false} ColorBufferUnknownScheme(samples: seq<Sample>)
    ensures ColorBuffer(NoColor, samples) == Zeros(4 * |samples|)
  {
    if samples != [] {
      ColorBufferUnknownScheme(samples[..|samples| - 1]);
    }
  }

  /** Under the red/blue rule each point is opaque, has no green, and its red and blue add up to 1. */
  lemma RedBluePoint(samples: seq<Sample>, i: nat)
    requires i < |samples|
    ensures var b := ColorBuffer(RedBlue, samples);
            b[4 * i] + b[4 * i + 2] == 1.0 && b[4 * i + 1] == 0.0 && b[4 * i + 3] == 1.0
            && b[4 * i + 2] == SampleIntensity(samples[i])
  {
    var b, t := ColorBuffer(RedBlue, samples), SampleIntensity(samples[i]);
    SchemeChannels(t);
    ColorBufferAt(RedBlue, samples, i);
    WindowEntries(b, 4 * i, [1.0 - t, 0.0, t, 1.0]);
  }

  /** Under the green rule each point has no red or blue, and its alpha equals its green, the intensity. */
  lemma GreenTransparencyPoint(samples: seq<Sample>, i: nat)
    requires i < |samples|
    ensures var b := ColorBuffer(GreenTransparency, samples);
            b[4 * i] == 0.0 && b[4 * i + 2] == 0.0 && b[4 * i + 1] == SampleIntensity(samples[i])
            && b[4 * i + 3] == b[4 * i + 1]
  {
    var b, t := ColorBuffer(GreenTransparency, samples), SampleIntensity(samples[i]);
    SchemeChannels(t);
    ColorBufferAt(GreenTransparency, samples, i);
    WindowEntries(b, 4 * i, [0.0, t, 0.0, t]);
  }

  /** The slots each scheme writes for intensity t. */
  lemma SchemeChannels(t: real)
    ensures Channels(PointColor(RedBlue, t)) == [1.0 - t, 0.0, t, 1.0]
    ensures Channels(PointColor(GreenTransparency, t)) == [0.0, t, 0.0, t]
    ensures Channels(PointColor(NoColor, t)) == Zeros(4)
  {
  }

  /** The four entries of a four-slot window of a buffer. */
  lemma WindowEntries(b: seq<real>, lo: nat, q: seq<real>)
    requires |q| == 4 && lo + 4 <= |b| && b[lo .. lo + 4] == q
    ensures b[lo] == q[0] && b[lo + 1] == q[1] && b[lo + 2] == q[2] && b[lo + 3] == q[3]
  {
    assert b[lo .. lo + 4][0] == b[lo];
    assert b[lo .. lo + 4][1] == b[lo + 1];
    assert b[lo .. lo + 4][2] == b[lo + 2];
    assert b[lo .. lo + 4][3] == b[lo + 3];
  }

  /** The position writes of one iteration of the point loop: slots 3i .. 3i + 2 and nothing else. */
  method StorePosition(positions: array<real>, i: nat, s: Sample)
    requires 3 * i + 3 <= positions.Length
    modifies positions
    ensures positions[..] == old(positions[..3 * i]) + PositionSlots(s) + old(positions[3 * i + 3..])
  {
    positions[3 * i] := s.x;
    positions[3 * i + 1] := s.y;
    positions[3 * i + 2] := s.z;
    assert positions[..] == old(positions[..3 * i]) + PositionSlots(s) + old(positions[3 * i + 3..]);
  }

  /**
   * The colour writes of one iteration of the point loop: the intensity
   * min(1, 100 |R * Y|) of the sample, written into slots 4i .. 4i + 3 when
   * the scheme has a colour rule, and nothing at all written otherwise.
   */
  method StoreColor(colors: array<real>, i: nat, c: ColorSet, s: Sample)
    requires 4 * i + 4 <= colors.Length
    modifies colors
    ensures SchemeOf(c) != NoColor ==>
              colors[..] == old(colors[..4 * i]) + ColorSlots(SchemeOf(c), s) + old(colors[4 * i + 4..])
    ensures SchemeOf(c) == NoColor ==> colors[..] == old(colors[..])
  {
    var density := Density(s.radial, s.angular);
    var intensity := Intensity(density);

    if c == Unset || c == Named("redBlue") {
      colors[4 * i] := 1.0 - intensity;
      colors[4 * i + 1] := 0.0;
      colors[4 * i + 2] := intensity;
      colors[4 * i + 3] := 1.0;
    }

    if c == Named("greenTransparency") {
      colors[4 * i] := 0.0;
      colors[4 * i + 1] := intensity;
      colors[4 * i + 2] := 0.0;
      colors[4 * i + 3] := intensity;
    }
  }

  /**
   * The buffer fill: allocates zeroed buffers of 3N and 4N slots and stores
   * every point in turn. The result is exactly the position buffer and the
   * colour buffer of the samples.
   */
  method FillPointCloud(numPoints: nat, samples: seq<Sample>, c: ColorSet)
    returns (positions: array<real>, colors: array<real>)
    requires |samples| == numPoints
    ensures fresh(positions) && fresh(colors)
    ensures positions.Length == 3 * numPoints && colors.Length == 4 * numPoints
    ensures positions[..] == PositionBuffer(samples)
    ensures colors[..] == ColorBuffer(SchemeOf(c), samples)
  {
    positions := new real[3 * numPoints](_ => 0.0);
    colors := new real[4 * numPoints](_ => 0.0);
    for i := 0 to numPoints
      invariant positions[..] == PositionBuffer(samples[..i]) + Zeros(3 * (numPoints - i))
      invariant colors[..] == ColorBuffer(SchemeOf(c), samples[..i]) + Zeros(4 * (numPoints - i))
    {
      ghost var p0, c0 := positions[..], colors[..];
      StorePosition(positions, i, samples[i]);
      StoreColor(colors, i, c, samples[i]);
      PositionFillStep(samples, i, numPoints, p0, positions[..]);
      ColorFillStep(SchemeOf(c), samples, i, numPoints, c0, colors[..]);
    }
    assert samples[..numPoints] == samples;
  }

  /** Storing point i into a buffer filled up to point i extends the filled prefix by that point. */
  lemma PositionFillStep(samples: seq<Sample>, i: nat, n: nat, before: seq<real>, after: seq<real>)
    requires i < n == |samples|
    requires before == PositionBuffer(samples[..i]) + Zeros(3 * (n - i))
    requires after == before[..3 * i] + PositionSlots(samples[i]) + before[3 * i + 3..]
    ensures after == PositionBuffer(samples[..i + 1]) + Zeros(3 * (n - (i + 1)))
  {
    var front := samples[..i + 1];
    assert front[..i] == samples[..i];
    assert PositionBuffer(front) == PositionBuffer(samples[..i]) + PositionSlots(samples[i]);
    SpliceIntoZeros(PositionBuffer(samples[..i]), PositionSlots(samples[i]), 3 * (n - i - 1), before, after);
  }

  lemma ColorFillStep(k: Scheme, samples: seq<Sample>, i: nat, n: nat, before: seq<real>, after: seq<real>)
    requires i < n == |samples|
    requires before == ColorBuffer(k, samples[..i]) + Zeros(4 * (n - i))
    requires k != NoColor ==> after == before[..4 * i] + ColorSlots(k, samples[i]) + before[4 * i + 4..]
    requires k == NoColor ==> after == before
    ensures after == ColorBuffer(k, samples[..i + 1]) + Zeros(4 * (n - (i + 1)))
  {
    var front := samples[..i + 1];
    assert front[..i] == samples[..i];
    assert ColorBuffer(k, front) == ColorBuffer(k, samples[..i]) + ColorSlots(k, samples[i]);
    if k != NoColor {
      SpliceIntoZeros(ColorBuffer(k, samples[..i]), ColorSlots(k, samples[i]), 4 * (n - i - 1), before, after);
    } else {
      assert ColorSlots(k, samples[i]) == Zeros(4);
      ZerosSplit(4, 4 * (n - i - 1));
    }
  }

  /** Writing q just after a filled prefix a of a zero-padded buffer extends the prefix by q. */
  lemma SpliceIntoZeros(a: seq<real>, q: seq<real>, rest: nat, before: seq<real>, after: seq<real>)
    requires before == a + Zeros(|q| + rest)
    requires after == before[..|a|] + q + before[|a| + |q|..]
    ensures after == (a + q) + Zeros(rest)
  {
    assert before[..|a|] == a;
    assert before[|a| + |q|..] == Zeros(rest);
  }

  lemma ZerosSplit(m: nat, n: nat)
    ensures Zeros(m + n) == Zeros(m) + Zeros(n)
  {
  }
}
