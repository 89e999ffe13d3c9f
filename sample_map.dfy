/** The sample queue of Core/Src/map.c: a ring of 1024 measurements
    filled by the RPLIDAR single-measurement callback and drained by
    `MAP_DrawSamples` into a ring of 8192 screen points.

    The conversion from a measurement to a screen point (`_ConvertSampleToPoint`,
    floating point and trigonometry) is a parameter of the drain. The display
    is the list of `ILI9488_Pixel` calls made, in order. */
module SampleMap {
  import opened Wire
  import opened Records

  const SAMPLE_BUF_SIZE: nat := 1024
  const SAMPLE_QUALITY_DEFAULT: byte := 20
  const POINT_BUF_SIZE: nat := 8192

  /** RGB565 colours of Core/Inc/ILI9488.h used here. */
  const BLACK: u16 := 0x0000
  const YELLOW: u16 := 0xFFE0

  /** `point_t`: a pixel position and its colour. */
  datatype Point = Point(x: u16, y: u16, color: u16)

  /** The all-zero point slot, as left by `memset` or static initialisation. */
  const Origin := Point(0, 0, 0)

  /** The slot `k` places after `from` in the sample ring. */
  function Slot(from: nat, k: nat): (r: nat)
    ensures r < SAMPLE_BUF_SIZE
  {
    (from + k) % SAMPLE_BUF_SIZE
  }

  /** The slot `k` places after `from` in the point ring. */
  function PointSlot(from: nat, k: nat): (r: nat)
    ensures r < POINT_BUF_SIZE
  {
    (from + k) % POINT_BUF_SIZE
  }

  /** One slot past the slot `k` places after `from` is the slot `k + 1`
      places after it. */
  lemma SlotNext(from: nat, k: nat)
    ensures Slot(Slot(from, k), 1) == Slot(from, k + 1)
  {
    var q := (from + k) / SAMPLE_BUF_SIZE;
    assert from + k == q * SAMPLE_BUF_SIZE + Slot(from, k);
    if Slot(from, k) + 1 == SAMPLE_BUF_SIZE {
      assert from + k + 1 == (q + 1) * SAMPLE_BUF_SIZE;
    } else {
      assert from + k + 1 == q * SAMPLE_BUF_SIZE + (Slot(from, k) + 1);
    }
  }

  /** The `n` ring slots starting at `from`, wrapping at the end of `buf`:
      the samples waiting to be drawn, oldest first. */
  function Window(buf: seq<Measurement>, from: nat, n: nat): (w: seq<Measurement>)
    requires |buf| == SAMPLE_BUF_SIZE && from < SAMPLE_BUF_SIZE
    ensures |w| == n
  {
    seq(n, k requires 0 <= k < n => buf[Slot(from, k)])
  }

  /** Writing the slot just after a window of fewer than 1024 samples
      appends to the window and leaves the samples already there alone. */
  lemma EnqueueWindow(buf: seq<Measurement>, from: nat, n: nat, m: Measurement)
    requires |buf| == SAMPLE_BUF_SIZE && from < SAMPLE_BUF_SIZE && n < SAMPLE_BUF_SIZE
    ensures Window(buf[Slot(from, n) := m], from, n + 1) == Window(buf, from, n) + [m]
  {
    var w := Slot(from, n);
    forall k | 0 <= k < n
      ensures Slot(from, k) != w
    {
      if from + n < SAMPLE_BUF_SIZE {
        assert (from + k) % SAMPLE_BUF_SIZE == from + k;
      } else if from + k < SAMPLE_BUF_SIZE {
        assert w == from + n - SAMPLE_BUF_SIZE;
      } else {
        assert (from + k) % SAMPLE_BUF_SIZE == from + k - SAMPLE_BUF_SIZE;
        assert w == from + n - SAMPLE_BUF_SIZE;
      }
    }
  }

  /** Reading the oldest sample of a window leaves the rest of the window,
      starting one slot further on. */
  lemma DequeueWindow(buf: seq<Measurement>, from: nat, n: nat)
    requires |buf| == SAMPLE_BUF_SIZE && from < SAMPLE_BUF_SIZE && 0 < n
    ensures Window(buf, from, n) == [buf[from]] + Window(buf, Slot(from, 1), n - 1)
  {
    var next := Slot(from, 1);
    forall k | 0 <= k < n - 1
      ensures Slot(next, k) == Slot(from, k + 1)
    {
      if from + 1 == SAMPLE_BUF_SIZE {
        assert next == 0;
      }
    }
  }

  /** The filter of `RPLIDAR_OnSingleMeasurement`: room in the ring, a
      non-zero distance and a quality strictly above the threshold. */
  predicate Accepts(count: nat, qualityMin: byte, m: Measurement)
  {
    count < SAMPLE_BUF_SIZE && m.distance != 0 && m.quality > qualityMin
  }

  // ---------------------------------------------------------------------
  // Drawing

  /** The point ring, its write index and the pixels drawn so far. */
  datatype Plotter = Plotter(points: seq<Point>, idx: nat, pixels: seq<Point>)
  {
    predicate Valid()
    {
      |points| == POINT_BUF_SIZE && idx < POINT_BUF_SIZE
    }
  }

  /** One iteration of the `MAP_DrawSamples` loop for the converted point
      `p`: erase the point the slot held unless it is at (0, 0), store and
      draw `p`, advance the slot. */
  function PlotOne(s: Plotter, p: Point): (r: Plotter)
    requires s.Valid()
    ensures r.Valid()
  {
    var prev := s.points[s.idx];
    var erase := if prev.x != 0 || prev.y != 0 then [Point(prev.x, prev.y, BLACK)] else [];
    Plotter(s.points[s.idx := p], (s.idx + 1) % POINT_BUF_SIZE, s.pixels + erase + [p])
  }

  /** One drain step stores `p` in the current slot and nowhere else, moves
      to the next slot, and draws `p` last, after erasing the slot's old
      point only when that point is not at (0, 0). */
  lemma PlotOneStep(s: Plotter, p: Point)
    requires s.Valid()
    ensures var r := PlotOne(s, p);
      && r.idx == (s.idx + 1) % POINT_BUF_SIZE
      && r.points[s.idx] == p
      && (forall j :: 0 <= j < POINT_BUF_SIZE && j != s.idx ==> r.points[j] == s.points[j])
      && |r.pixels| == |s.pixels| + (if s.points[s.idx].x == 0 && s.points[s.idx].y == 0 then 1 else 2)
      && s.pixels <= r.pixels && r.pixels[|r.pixels| - 1] == p
  {
  }

  /** The loop run over the samples `ms`, in order. */
  function PlotAll(s: Plotter, ms: seq<Measurement>, convert: Measurement -> Point): (r: Plotter)
    requires s.Valid()
    ensures r.Valid()
    decreases |ms|
  {
    if ms == [] then s else PlotOne(PlotAll(s, ms[..|ms| - 1], convert), convert(ms[|ms| - 1]))
  }

  lemma PlotAllSnoc(s: Plotter, ms: seq<Measurement>, m: Measurement, convert: Measurement -> Point)
    requires s.Valid()
    ensures PlotAll(s, ms + [m], convert) == PlotOne(PlotAll(s, ms, convert), convert(m))
  {
    assert (ms + [m])[..|ms|] == ms;
  }

  /** One more iteration of the drain loop draws the next pending sample. */
  lemma DrainStep(s: Plotter, todo: seq<Measurement>, i: nat, convert: Measurement -> Point)
    requires s.Valid() && i < |todo|
    ensures PlotOne(PlotAll(s, todo[..i], convert), convert(todo[i])) == PlotAll(s, todo[..i + 1], convert)
  {
    assert todo[..i + 1] == todo[..i] + [todo[i]];
    PlotAllSnoc(s, todo[..i], todo[i], convert);
  }

  /** Draining `ms` moves the slot index on by `|ms|`, modulo 8192, and
      draws each converted sample once, after at most one erasure. */
  lemma {:induction false} PlotAllAdvances(s: Plotter, ms: seq<Measurement>, convert: Measurement -> Point)
    requires s.Valid()
    ensures PlotAll(s, ms, convert).idx == PointSlot(s.idx, |ms|)
    ensures |s.pixels| + |ms| <= |PlotAll(s, ms, convert).pixels| <= |s.pixels| + 2 * |ms|
    ensures s.pixels <= PlotAll(s, ms, convert).pixels
    decreases |ms|
  {
    if ms != [] {
      var ms' := ms[..|ms| - 1];
      PlotAllAdvances(s, ms', convert);
      PointSlotNext(s.idx, |ms'|);
    }
  }

  /** One slot past the point slot `k` places after `from` is the slot
      `k + 1` places after it. */
  lemma PointSlotNext(from: nat, k: nat)
    ensures (PointSlot(from, k) + 1) % POINT_BUF_SIZE == PointSlot(from, k + 1)
  {
    var q := (from + k) / POINT_BUF_SIZE;
    assert from + k == q * POINT_BUF_SIZE + PointSlot(from, k);
    if PointSlot(from, k) + 1 == POINT_BUF_SIZE {
      assert from + k + 1 == (q + 1) * POINT_BUF_SIZE;
    } else {
      assert from + k + 1 == q * POINT_BUF_SIZE + (PointSlot(from, k) + 1);
    }
  }

  /** FIFO placement: when at most 8192 samples are drained, the `k`-th of
      them lands in slot `idx + k` of the point ring. */
  lemma {:induction false} PlotAllPlaces(s: Plotter, ms: seq<Measurement>, convert: Measurement -> Point)
    requires s.Valid() && |ms| <= POINT_BUF_SIZE
    ensures forall k :: 0 <= k < |ms| ==> PlotAll(s, ms, convert).points[PointSlot(s.idx, k)] == convert(ms[k])
    decreases |ms|
  {
    if ms != [] {
      var n := |ms| - 1;
      var ms' := ms[..n];
      PlotAllPlaces(s, ms', convert);
      PlotAllAdvances(s, ms', convert);
      var q := PlotAll(s, ms', convert);
      var r := PlotAll(s, ms, convert);
      assert r.points == q.points[PointSlot(s.idx, n) := convert(ms[n])];
      forall k | 0 <= k < |ms|
        ensures r.points[PointSlot(s.idx, k)] == convert(ms[k])
      {
        if k < n {
          DistinctSlots(s.idx, k, n);
          assert ms'[k] == ms[k];
        }
      }
    }
  }

  /** A slot of the point ring that none of the drained samples lands in
      keeps its point. */
  lemma {:induction false} PlotAllKeeps(s: Plotter, ms: seq<Measurement>, convert: Measurement -> Point, j: nat)
    requires s.Valid() && j < POINT_BUF_SIZE
    requires forall k :: 0 <= k < |ms| ==> PointSlot(s.idx, k) != j
    ensures PlotAll(s, ms, convert).points[j] == s.points[j]
    decreases |ms|
  {
    if ms != [] {
      var n := |ms| - 1;
      PlotAllKeeps(s, ms[..n], convert, j);
      PlotAllAdvances(s, ms[..n], convert);
      assert PointSlot(s.idx, n) != j;
    }
  }

  /** Two different offsets below 8192 name different slots. */
  lemma DistinctSlots(start: nat, k: nat, n: nat)
    requires start < POINT_BUF_SIZE && k < n < POINT_BUF_SIZE
    ensures PointSlot(start, k) != PointSlot(start, n)
  {
    if start + n < POINT_BUF_SIZE {
    } else if start + k < POINT_BUF_SIZE {
      assert (start + n) % POINT_BUF_SIZE == start + n - POINT_BUF_SIZE;
    } else {
      assert (start + k) % POINT_BUF_SIZE == start + k - POINT_BUF_SIZE;
      assert (start + n) % POINT_BUF_SIZE == start + n - POINT_BUF_SIZE;
    }
  }

  // ---------------------------------------------------------------------
  // The statics of map.c

  class MapState {
    const samples: array<Measurement>
    var writeIdx: nat
    var readIdx: nat
    var count: nat
    const points: array<Point>
    var pointIdx: nat
    var qualityMin: byte
    /** The `ILI9488_Pixel` calls made so far, oldest first. */
    var pixels: seq<Point>

    predicate Valid()
      reads this
    {
      && samples.Length == SAMPLE_BUF_SIZE && points.Length == POINT_BUF_SIZE
      && writeIdx < SAMPLE_BUF_SIZE && readIdx < SAMPLE_BUF_SIZE && count <= SAMPLE_BUF_SIZE
      && pointIdx < POINT_BUF_SIZE
    }

    /** The ring is consistent: the write index is `count` slots past the
        read index. */
    predicate Coherent()
      reads this
    {
      Slot(readIdx, count) == writeIdx
    }

    /** The samples `MAP_DrawSamples` will draw, in the order it draws them. */
    function Pending(): (w: seq<Measurement>)
      reads this, samples
      requires Valid()
      ensures |w| == count
    {
      Window(samples[..], readIdx, count)
    }

    /** The point ring and the display, as the drain sees them. */
    function Screen(): (s: Plotter)
      reads this, points
      requires Valid()
      ensures s.Valid()
    {
      Plotter(points[..], pointIdx, pixels)
    }

    /** The statics' initial values: empty rings, quality threshold 20. */
    constructor ()
      ensures Valid() && Coherent() && Pending() == [] && qualityMin == SAMPLE_QUALITY_DEFAULT
      ensures writeIdx == 0 && readIdx == 0 && count == 0 && pointIdx == 0 && pixels == []
      ensures samples[..] == seq(SAMPLE_BUF_SIZE, _ => ZeroMeasurement)
      ensures points[..] == seq(POINT_BUF_SIZE, _ => Origin)
      ensures fresh(samples) && fresh(points)
    {
      samples := new Measurement[SAMPLE_BUF_SIZE](_ => ZeroMeasurement);
      writeIdx, readIdx, count := 0, 0, 0;
      points := new Point[POINT_BUF_SIZE](_ => Origin);
      pointIdx := 0;
      qualityMin := SAMPLE_QUALITY_DEFAULT;
      pixels := [];
    }

    /** `RPLIDAR_OnSingleMeasurement`: a measurement that passes the filter
        is copied into the write slot and counted; any other is dropped and
        nothing changes. On a consistent ring the measurement joins the end
        of the pending samples. */
    method OnSingleMeasurement(m: Measurement)
      requires Valid()
      modifies this, samples
      ensures Valid()
      ensures Accepts(old(count), qualityMin, m) ==>
        && samples[..] == old(samples[..])[old(writeIdx) := m]
        && writeIdx == (old(writeIdx) + 1) % SAMPLE_BUF_SIZE && count == old(count) + 1
      ensures !Accepts(old(count), qualityMin, m) ==>
        samples[..] == old(samples[..]) && writeIdx == old(writeIdx) && count == old(count)
      ensures old(Coherent()) ==>
        Coherent() && Pending() == old(Pending()) + (if Accepts(old(count), qualityMin, m) then [m] else [])
      ensures readIdx == old(readIdx) && qualityMin == old(qualityMin)
      ensures pointIdx == old(pointIdx) && pixels == old(pixels)
    {
      if count < SAMPLE_BUF_SIZE {
        if m.distance != 0 && m.quality > qualityMin {
          ghost var before := samples[..];
          samples[writeIdx] := m;
          if Slot(readIdx, count) == writeIdx {
            EnqueueWindow(before, readIdx, count, m);
          }
          writeIdx := (writeIdx + 1) % SAMPLE_BUF_SIZE;
          count := count + 1;
        }
      }
    }

    /** `MAP_DrawSamples`: draw every pending sample, oldest first, until
        the count is zero. The point ring and the display end as the drain
        of the pending samples leaves them, each sample's point lands in
        the next slot of the point ring, and the read index moves past the
        drained samples. */
    method DrawSamples(convert: Measurement -> Point)
      requires Valid()
      modifies this, points
      ensures Valid() && count == 0
      ensures readIdx == Slot(old(readIdx), old(count))
      ensures Screen() == PlotAll(old(Screen()), old(Pending()), convert)
      ensures forall k :: 0 <= k < old(count) ==> points[PointSlot(old(pointIdx), k)] == convert(old(Pending())[k])
      ensures old(Coherent()) ==> Coherent()
      ensures writeIdx == old(writeIdx) && qualityMin == old(qualityMin)
    {
      ghost var s0 := Screen();
      ghost var todo := Pending();
      ghost var r0 := readIdx;
      ghost var i := 0;
      while count != 0
        invariant Valid() && 0 <= i <= |todo| <= SAMPLE_BUF_SIZE && count == |todo| - i
        invariant todo == Window(samples[..], r0, |todo|) && readIdx == Slot(r0, i)
        invariant Screen() == PlotAll(s0, todo[..i], convert)
        invariant writeIdx == old(writeIdx) && qualityMin == old(qualityMin)
        decreases count
      {
        DrainNext(s0, todo, r0, i, convert);
        i := i + 1;
      }
      assert todo[..i] == todo;
      assert Slot(readIdx, 0) == readIdx;
      ghost var fin := Screen();
      assert old(Pending()) == todo && old(pointIdx) == s0.idx && old(count) == |todo|;
      PlotAllPlaces(s0, todo, convert);
      forall k | 0 <= k < |todo|
        ensures points[PointSlot(s0.idx, k)] == convert(todo[k])
      {
        assert points[PointSlot(s0.idx, k)] == fin.points[PointSlot(s0.idx, k)];
      }
    }

    /** `DrawNext` as the `i`-th iteration of a drain of `todo` that started
        at read index `r0` on the screen `s0`. */
    method DrainNext(ghost s0: Plotter, ghost todo: seq<Measurement>, ghost r0: nat, ghost i: nat,
                     convert: Measurement -> Point)
      requires Valid() && s0.Valid() && r0 < SAMPLE_BUF_SIZE && i < |todo| <= SAMPLE_BUF_SIZE
      requires todo == Window(samples[..], r0, |todo|)
      requires count == |todo| - i && readIdx == Slot(r0, i)
      requires Screen() == PlotAll(s0, todo[..i], convert)
      modifies this, points
      ensures Valid() && count == |todo| - (i + 1) && readIdx == Slot(r0, i + 1)
      ensures Screen() == PlotAll(s0, todo[..i + 1], convert)
      ensures writeIdx == old(writeIdx) && qualityMin == old(qualityMin)
    {
      assert samples[readIdx] == todo[i];
      DrawNext(convert);
      SlotNext(r0, i);
      DrainStep(s0, todo, i, convert);
    }

    /** One iteration of the `MAP_DrawSamples` loop: the oldest pending
        sample is converted into the current point slot, erasing the point
        that was there, and both indices move on by one slot. */
    method DrawNext(convert: Measurement -> Point)
      requires Valid() && count > 0
      modifies this, points
      ensures Valid() && count == old(count) - 1 && readIdx == Slot(old(readIdx), 1)
      ensures Screen() == PlotOne(old(Screen()), convert(samples[old(readIdx)]))
      ensures writeIdx == old(writeIdx) && qualityMin == old(qualityMin)
    {
      var prev := points[pointIdx];
      if prev.x != 0 || prev.y != 0 {
        pixels := pixels + [Point(prev.x, prev.y, BLACK)];
      }
      points[pointIdx] := convert(samples[readIdx]);
      readIdx := (readIdx + 1) % SAMPLE_BUF_SIZE;
      count := count - 1;
      pixels := pixels + [points[pointIdx]];
      pointIdx := (pointIdx + 1) % POINT_BUF_SIZE;
    }

    /** `MAP_Reset`: every point and sample slot is zeroed and the point
        index, write index and count go back to 0, but the read index keeps
        its value. The ring is consistent afterwards exactly when the read
        index was already 0. */
    method Reset()
      requires Valid()
      modifies this, points, samples
      ensures Valid() && Pending() == [] && readIdx == old(readIdx)
      ensures writeIdx == 0 && count == 0 && pointIdx == 0
      ensures samples[..] == seq(SAMPLE_BUF_SIZE, _ => ZeroMeasurement)
      ensures points[..] == seq(POINT_BUF_SIZE, _ => Origin)
      ensures Coherent() <==> readIdx == 0
      ensures qualityMin == old(qualityMin) && pixels == old(pixels)
    {
      forall k | 0 <= k < points.Length {
        points[k] := Origin;
      }
      pointIdx := 0;
      forall k | 0 <= k < samples.Length {
        samples[k] := ZeroMeasurement;
      }
      writeIdx := 0;
      count := 0;
    }

    /** `MAP_Reset` with the read index also set to 0: the ring is empty and
        consistent afterwards, whatever its state before. */
    method ResetRing()
      requires Valid()
      modifies this, points, samples
      ensures Valid() && Coherent() && Pending() == []
      ensures writeIdx == 0 && readIdx == 0 && count == 0 && pointIdx == 0
      ensures samples[..] == seq(SAMPLE_BUF_SIZE, _ => ZeroMeasurement)
      ensures points[..] == seq(POINT_BUF_SIZE, _ => Origin)
      ensures qualityMin == old(qualityMin) && pixels == old(pixels)
    {
      Reset();
      readIdx := 0;
    }

    /** `MAP_SetQuality`: only the threshold changes. */
    method SetQuality(quality: byte)
      requires Valid()
      modifies this`qualityMin
      ensures qualityMin == quality
    {
      qualityMin := quality;
    }
  }

  /** After a sample has been drawn, `MAP_Reset` leaves the read index at 1
      while the next measurement is written to slot 0: the sample the next
      drain would draw is the zeroed slot 1, not the measurement just
      received. */
  method StaleSampleAfterReset(convert: Measurement -> Point) returns (next: Measurement)
    ensures next == ZeroMeasurement
  {
    var m := Measurement(0, 30, 1, 0x1000, 1200);
    var m0 := new MapState();
    m0.OnSingleMeasurement(m);
    m0.DrawSamples(convert);
    m0.Reset();
    m0.OnSingleMeasurement(m);
    assert m0.samples[..][0] == m && m0.readIdx == 1 && m0.count == 1;
    assert m0.Pending() == [m0.samples[1]];
    next := m0.samples[m0.readIdx];
  }

  /** With the read index reset as well, the measurement received after the
      reset is the one the next drain draws. */
  method FreshSampleAfterResetRing(convert: Measurement -> Point) returns (next: Measurement)
    ensures next == Measurement(0, 30, 1, 0x1000, 1200)
  {
    var m := Measurement(0, 30, 1, 0x1000, 1200);
    var m0 := new MapState();
    m0.OnSingleMeasurement(m);
    m0.DrawSamples(convert);
    m0.ResetRing();
    m0.OnSingleMeasurement(m);
    assert m0.Pending() == [m];
    next := m0.samples[m0.readIdx];
  }
}
