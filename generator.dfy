/**
 * The data generator: a working sample of 10 000 names drawn from the
 * loaded list, then batches of 10 000 records, each pairing a name drawn
 * from the sample with a temperature, and a progress bar redrawn about
 * every 1% of the batches. The random draws are inputs: one index into the
 * list per sample slot, one index into the sample per record, and the
 * temperature text of each record.
 */
module Generator {
  import opened Decimal
  import opened Stations

  const BatchSize: int := 10_000
  const SampleSize: int := 10_000
  const BarWidth: int := 50

  const Newline: Byte := 0x0a

  /** Rust's `/` on i32 for a positive divisor: the quotient is truncated toward zero. */
  function I32Div(a: int, b: int): (q: int)
    requires b > 0
    ensures a >= 0 ==> q * b <= a < (q + 1) * b
    ensures a < 0 ==> (q - 1) * b < a <= q * b
  {
    if a >= 0 then a / b else -((-a) / b)
  }

  /** `num_rows_to_create / batch_size`: the upper bound of the batch loop. */
  function NumBatches(rows: int): (nb: int)
    ensures rows >= 0 ==> 0 <= nb && nb * BatchSize <= rows < (nb + 1) * BatchSize
    ensures rows < 0 ==> nb <= 0
  {
    I32Div(rows, BatchSize)
  }

  /** The number of records the batch loop writes. */
  function RecordsWritten(rows: int): (written: nat)
    ensures written % BatchSize == 0
    ensures rows >= 0 ==> written <= rows < written + BatchSize
    ensures rows < 0 ==> written == 0
  {
    if NumBatches(rows) > 0 then NumBatches(rows) * BatchSize else 0
  }

  /** The remainder of a row count that is not a multiple of the batch size is dropped. */
  lemma Truncation(rows: int)
    requires IsI32(rows)
    ensures RecordsWritten(rows) % BatchSize == 0
    ensures rows > 0 ==> RecordsWritten(rows) <= rows < RecordsWritten(rows) + BatchSize
    ensures rows > 0 ==> RecordsWritten(rows) == (rows / BatchSize) * BatchSize
    ensures rows <= 0 ==> RecordsWritten(rows) == 0
    ensures rows < BatchSize ==> NumBatches(rows) <= 0 && RecordsWritten(rows) == 0
  {
  }

  /** `max(1, batches / 100)`: redraw about once per 1% of the batches, and never divide by zero. */
  function ProgressStep(rows: int): (step: int)
    ensures step >= 1
    ensures NumBatches(rows) >= 100 ==> step * 100 <= NumBatches(rows) < (step + 1) * 100
    ensures NumBatches(rows) < 100 ==> step == 1
  {
    var perCent := I32Div(NumBatches(rows), 100);
    if perCent > 1 then perCent else 1
  }

  /** `c.repeat(n)`. */
  function Repeat(c: char, n: nat): (r: string)
    ensures |r| == n && forall i :: 0 <= i < n ==> r[i] == c
  {
    seq(n, _ => c)
  }

  /** The progress bar after batch `s`: the filled part, the empty part, and the percentage. */
  datatype Redraw = Redraw(batch: int, bar: string, percent: int)

  lemma MulMonotone(x: int, y: int, z: nat)
    requires x <= y
    ensures x * z <= y * z
  {
  }

  /** `a * k / n` with `0 <= a <= n` lies in `[0, k]`, and is `k` when `a == n`. */
  lemma ScaledBound(a: int, n: int, k: nat)
    requires 0 <= a <= n && n > 0
    ensures 0 <= a * k / n <= k
    ensures a == n ==> a * k / n == k
  {
    var q, r := a * k / n, a * k % n;
    assert a * k == q * n + r && 0 <= r < n;
    MulMonotone(a, n, k);
    MulMonotone(0, a, k);
    assert n * k == k * n;
    assert (k - q) * n == k * n - q * n;
    MulSign(k - q, n);
    assert (q + 1) * n == q * n + n;
    MulSign(q + 1, n);
  }

  /** The quotient `m / n` is the largest `q` with `q * n <= m`. */
  lemma FloorBounds(m: nat, n: int)
    requires n > 0
    ensures (m / n) * n <= m < (m / n + 1) * n
  {
  }

  /** Cell `i` lies below the quotient exactly when `(i + 1) * n` fits in `m`. */
  lemma CellFilled(m: nat, n: int, i: nat)
    requires n > 0
    ensures i < m / n <==> (i + 1) * n <= m
  {
    var q := m / n;
    FloorBounds(m, n);
    if i < q {
      MulMonotone(i + 1, q, n);
    } else {
      MulMonotone(q + 1, i + 1, n);
    }
  }

  /** A bar of `p = m / n` filled cells out of `k`: cell `i` is filled exactly when `(i + 1) * n <= m`. */
  lemma BarCells(m: nat, n: int, k: nat, bar: string)
    requires n > 0 && m / n <= k
    requires bar == Repeat('=', m / n) + Repeat(' ', k - m / n)
    ensures forall i :: 0 <= i < k ==> bar[i] == (if (i + 1) * n <= m then '=' else ' ')
  {
    forall i | 0 <= i < k ensures bar[i] == (if (i + 1) * n <= m then '=' else ' ') {
      CellFilled(m, n, i);
    }
  }

  /**
   * What is drawn after batch `s` of `batches`: the bar is always 50 wide,
   * cell `i` is filled once `(s + 1) / batches` reaches `(i + 1) / 50`, the
   * percentage is the whole part of `100 * (s + 1) / batches`, and the last
   * redraw is full at 100%.
   */
  function RedrawAt(s: int, batches: int): (r: Redraw)
    requires 0 <= s < batches
    ensures r.batch == s
    ensures |r.bar| == BarWidth && 0 <= r.percent <= 100
    ensures forall i :: 0 <= i < BarWidth ==> r.bar[i] == (if (i + 1) * batches <= (s + 1) * BarWidth then '=' else ' ')
    ensures r.percent * batches <= (s + 1) * 100 < (r.percent + 1) * batches
    ensures s == batches - 1 ==> r.bar == Repeat('=', BarWidth) && r.percent == 100
  {
    ScaledBound(s + 1, batches, BarWidth);
    ScaledBound(s + 1, batches, 100);
    FloorBounds((s + 1) * 100, batches);
    BarCells((s + 1) * BarWidth, batches, BarWidth,
      Repeat('=', (s + 1) * BarWidth / batches) + Repeat(' ', BarWidth - (s + 1) * BarWidth / batches));
    var progress := (s + 1) * BarWidth / batches;
    Redraw(s, Repeat('=', progress) + Repeat(' ', BarWidth - progress), (s + 1) * 100 / batches)
  }

  /** `print!("\r[{}{}] {}%", ...)`: carriage return, the bracketed bar, then the percentage. */
  function ProgressLine(r: Redraw): (line: string)
    requires r.percent >= 0
    ensures |line| == |r.bar| + |Show(r.percent)| + 5
    ensures line[..2] == "\r[" && line[2..2 + |r.bar|] == r.bar && line[2 + |r.bar|..4 + |r.bar|] == "] "
    ensures line[4 + |r.bar|..|line| - 1] == Show(r.percent) && line[|line| - 1] == '%'
  {
    "\r[" + r.bar + "] " + Show(r.percent) + "%"
  }

  /** A reader of the terminal gets the bar and the percentage back from every drawn line. */
  lemma ProgressLineReadBack(s: int, batches: int)
    requires 0 <= s < batches
    ensures var r := RedrawAt(s, batches);
      var line := ProgressLine(r);
      |line| > 2 + BarWidth + 3 && line[2..2 + BarWidth] == r.bar &&
      ParseI32(line[4 + BarWidth..|line| - 1]) == Ok(r.percent)
  {
    var r := RedrawAt(s, batches);
    ParseShow(r.percent);
  }

  /** A non-zero multiple of a positive number is at least that number in size. */
  lemma MulSign(d: int, step: int)
    requires step >= 1
    ensures d >= 1 ==> d * step >= step
    ensures d <= -1 ==> d * step <= -step
  {
    if d >= 1 {
      MulMonotone(1, d, step);
    }
    if d <= -1 {
      MulMonotone(d, -1, step);
    }
  }

  /** `s % step == 0` says exactly that `s` is a whole multiple of the step. */
  lemma MultipleOfStep(s: int, step: int)
    requires step >= 1
    ensures s % step == 0 <==> exists j :: s == j * step
  {
    var q, r := s / step, s % step;
    assert s == q * step + r && 0 <= r < step;
    if exists j :: s == j * step {
      var j :| s == j * step;
      assert (j - q) * step == r;
      MulSign(j - q, step);
    }
  }

  /** The redraw condition of the batch loop: the last batch, or a batch that is a whole multiple of the step. */
  function RedrawsAfter(s: int, batches: int, step: int): (redraw: bool)
    requires step >= 1
    ensures redraw <==> s == batches - 1 || exists j :: s == j * step
    ensures s == 0 || s == batches - 1 || step == 1 ==> redraw
  {
    MultipleOfStep(s, step);
    s % step == 0 || s == batches - 1
  }

  /** The redraws of the first `n` batches, in order. */
  function Schedule(batches: int, step: int, n: nat): (redraws: seq<Redraw>)
    requires step >= 1 && n <= batches
    ensures |redraws| <= n
    ensures n > 0 ==> redraws != [] && redraws[0] == RedrawAt(0, batches)
  {
    if n == 0 then []
    else Schedule(batches, step, n - 1) + if RedrawsAfter(n - 1, batches, step) then [RedrawAt(n - 1, batches)] else []
  }

  /** The schedule holds exactly one redraw per batch that meets the condition, in batch order. */
  lemma {:induction false} ScheduleMembers(batches: int, step: int, n: nat)
    requires step >= 1 && n <= batches
    ensures forall r :: r in Schedule(batches, step, n) <==>
      0 <= r.batch < n && RedrawsAfter(r.batch, batches, step) && r == RedrawAt(r.batch, batches)
    ensures forall i, j :: 0 <= i < j < |Schedule(batches, step, n)| ==>
      Schedule(batches, step, n)[i].batch < Schedule(batches, step, n)[j].batch
  {
    if n > 0 {
      ScheduleMembers(batches, step, n - 1);
    }
  }

  /** The first batch and the last batch always redraw; the last redraw shows a full bar and 100%. */
  lemma ScheduleEnds(batches: int, step: int)
    requires step >= 1 && batches > 0
    ensures Schedule(batches, step, batches) != []
    ensures Schedule(batches, step, batches)[0] == RedrawAt(0, batches)
    ensures var last := Schedule(batches, step, batches)[|Schedule(batches, step, batches)| - 1];
      last.bar == Repeat('=', BarWidth) && last.percent == 100
  {
    ScheduleMembers(batches, step, batches);
    var sch := Schedule(batches, step, batches);
    var first := RedrawAt(0, batches);
    assert RedrawsAfter(0, batches, step);
    assert first in sch;
    var i :| 0 <= i < |sch| && sch[i] == first;
  }

  /** The arithmetic on the batch counter stays within i32. */
  lemma ProgressFitsI32(rows: int, s: int)
    requires IsI32(rows) && 0 <= s < NumBatches(rows)
    ensures IsI32((s + 1) * 100) && IsI32((s + 1) * BarWidth)
  {
  }

  /** One record of the output file. The temperature is the already formatted text. */
  datatype Measurement = Measurement(station: Name, temperature: Name)

  /** `format!("{};{:.1}\n", station, temperature)`. */
  function Line(m: Measurement): (line: Name)
    ensures |line| == |m.station| + |m.temperature| + 2
    ensures line[..|m.station|] == m.station && line[|m.station|] == Semicolon
    ensures line[|m.station| + 1..|line| - 1] == m.temperature && line[|line| - 1] == Newline
  {
    m.station + [Semicolon] + m.temperature + [Newline]
  }

  /** A reader that splits an output line at its first ';' gets the station back. */
  lemma LineStationField(m: Measurement)
    requires Semicolon !in m.station
    ensures FirstField(Line(m)) == m.station
  {
    var line := Line(m);
    var f := FirstField(line);
    assert line[|m.station|] == Semicolon;
    assert f == line[..|f|] == m.station;
  }

  /** Every line of the output names a loaded station before its first ';', when no loaded name holds a ';'. */
  lemma OutputLineStations(names: seq<Name>, file: seq<Measurement>)
    requires forall k :: 0 <= k < |names| ==> Semicolon !in names[k]
    requires forall k :: 0 <= k < |file| ==> file[k].station in names
    ensures forall k :: 0 <= k < |file| ==> FirstField(Line(file[k])) in names
  {
    forall k | 0 <= k < |file| ensures FirstField(Line(file[k])) in names {
      LineStationField(file[k]);
    }
  }

  /** The working sample: slot `j` holds the list entry that draw `j` picked. */
  method DrawSample(names: seq<Name>, sampleDraws: seq<int>) returns (sample: seq<Name>)
    requires |sampleDraws| == SampleSize
    requires forall j :: 0 <= j < |sampleDraws| ==> 0 <= sampleDraws[j] < |names|
    ensures |sample| == SampleSize
    ensures forall j :: 0 <= j < SampleSize ==> sample[j] == names[sampleDraws[j]]
  {
    sample := [];
    for n := 0 to SampleSize
      invariant |sample| == n
      invariant forall j :: 0 <= j < n ==> sample[j] == names[sampleDraws[j]]
    {
      sample := sample + [names[sampleDraws[n]]];
    }
  }

  /** One batch: record `t` pairs the sample entry picked by draw `base + t` with temperature `base + t`. */
  method FillBatch(sample: seq<Name>, recordDraws: seq<int>, temperatures: seq<Name>, base: nat)
    returns (batch: seq<Measurement>)
    requires |sample| == SampleSize
    requires base + BatchSize <= |recordDraws| == |temperatures|
    requires forall k :: 0 <= k < |recordDraws| ==> 0 <= recordDraws[k] < SampleSize
    ensures |batch| == BatchSize
    ensures forall t :: 0 <= t < BatchSize ==>
      batch[t] == Measurement(sample[recordDraws[base + t]], temperatures[base + t])
  {
    batch := [];
    for j := 0 to BatchSize
      invariant |batch| == j
      invariant forall t :: 0 <= t < j ==>
        batch[t] == Measurement(sample[recordDraws[base + t]], temperatures[base + t])
    {
      var station := sample[recordDraws[base + j]];
      batch := batch + [Measurement(station, temperatures[base + j])];
    }
  }

  lemma AppendBatch(file: seq<Measurement>, batch: seq<Measurement>, sample: seq<Name>, recordDraws: seq<int>, temperatures: seq<Name>)
    requires |file| + |batch| <= |recordDraws| == |temperatures|
    requires forall k :: 0 <= k < |recordDraws| ==> 0 <= recordDraws[k] < |sample|
    requires forall k :: 0 <= k < |file| ==> file[k] == Measurement(sample[recordDraws[k]], temperatures[k])
    requires forall t :: 0 <= t < |batch| ==>
      batch[t] == Measurement(sample[recordDraws[|file| + t]], temperatures[|file| + t])
    ensures forall k :: 0 <= k < |file + batch| ==>
      (file + batch)[k] == Measurement(sample[recordDraws[k]], temperatures[k])
  {
  }

  /** `build_test_data`, given the random draws and without the file and terminal I/O. */
  method BuildTestData(names: seq<Name>, rows: int, sampleDraws: seq<int>, recordDraws: seq<int>, temperatures: seq<Name>)
    returns (sample: seq<Name>, file: seq<Measurement>, redraws: seq<Redraw>)
    requires IsI32(rows)
    requires |sampleDraws| == SampleSize
    requires forall j :: 0 <= j < |sampleDraws| ==> 0 <= sampleDraws[j] < |names|
    requires |recordDraws| == |temperatures| == RecordsWritten(rows)
    requires forall k :: 0 <= k < |recordDraws| ==> 0 <= recordDraws[k] < SampleSize
    ensures |sample| == SampleSize
    ensures forall j :: 0 <= j < SampleSize ==> sample[j] == names[sampleDraws[j]]
    ensures |file| == RecordsWritten(rows)
    ensures forall k :: 0 <= k < |file| ==> file[k] == Measurement(sample[recordDraws[k]], temperatures[k])
    ensures forall k :: 0 <= k < |file| ==> file[k].station in names
    ensures NumBatches(rows) <= 0 ==> redraws == []
    ensures NumBatches(rows) > 0 ==> redraws == Schedule(NumBatches(rows), ProgressStep(rows), NumBatches(rows))
  {
    sample := DrawSample(names, sampleDraws);
    var batches := NumBatches(rows);
    var step := ProgressStep(rows);
    file, redraws := [], [];
    var s := 0;
    while s < batches
      invariant 0 <= s <= (if batches > 0 then batches else 0)
      invariant |file| == s * BatchSize
      invariant forall k :: 0 <= k < |file| ==> file[k] == Measurement(sample[recordDraws[k]], temperatures[k])
      invariant s <= batches ==> redraws == Schedule(batches, step, s)
      invariant s == 0 ==> redraws == []
    {
      var batch := FillBatch(sample, recordDraws, temperatures, s * BatchSize);
      AppendBatch(file, batch, sample, recordDraws, temperatures);
      file := file + batch;
      if RedrawsAfter(s, batches, step) {
        redraws := redraws + [RedrawAt(s, batches)];
      }
      s := s + 1;
    }
    forall k | 0 <= k < |file| ensures file[k].station in names {
      assert file[k].station == names[sampleDraws[recordDraws[k]]];
    }
  }
}
