/**
 * The converter's configuration and its conversion run: default filling, the
 * derivation of the output height, and the pixel loop that writes one ramp
 * byte per pixel and a newline per row.
 */
module Img2Asci {
  import opened GoInt
  import opened Raster
  import opened Sink

  const DefaultWidth: Int64 := 240
  const DefaultSharp: real := 5.0
  const DefaultBright: real := 5.0
  const DefaultContrast: real := 75.0
  /** The ramp `.:-=+*#%@`, darkest first. */
  const DefaultGrayScale: seq<Byte> := Bytes(".:-=+*#%@")

  /** A Go runtime panic the conversion can hit. */
  datatype Panic = DivideByZero | IndexOutOfRange

  /** A value, or the panic that prevented it. */
  datatype Result<T> = Ok(value: T) | Panicked(panic: Panic)

  datatype Option<T> = None | Some(value: T)

  /** How a conversion ends. */
  datatype Outcome =
    | Done
    | LoadFailed     // the source image could not be opened or decoded
    | CreateFailed   // the output file could not be created
    | WriteFailed    // a write to the buffered writer returned an error
    | Crashed(panic: Panic)

  /** The fields of a ProcessingValues record; floats are kept as reals. */
  datatype Values = Values(
    width: Int64,
    height: Int64,
    sharp: real,
    bright: real,
    contrast: real,
    grayScaleAsciTable: seq<Byte>)

  /** `ProcessingValues{}`: every field zero or empty. */
  const Unset := Values(0, 0, 0.0, 0.0, 0.0, [])

  /** Every field that default filling looks at is set. */
  predicate Complete(v: Values)
  {
    v.width != 0 && v.sharp != 0.0 && v.bright != 0.0 && v.contrast != 0.0 && v.grayScaleAsciTable != []
  }

  /**
   * Default filling: each zero or empty field takes its default, every set
   * field is kept, and the height is never touched.
   */
  function WithDefaults(v: Values): (d: Values)
    ensures Complete(d)
    ensures d.height == v.height
    ensures v.width != 0 ==> d.width == v.width
    ensures v.sharp != 0.0 ==> d.sharp == v.sharp
    ensures v.bright != 0.0 ==> d.bright == v.bright
    ensures v.contrast != 0.0 ==> d.contrast == v.contrast
    ensures v.grayScaleAsciTable != [] ==> d.grayScaleAsciTable == v.grayScaleAsciTable
    ensures v.width == 0 ==> d.width == DefaultWidth
    ensures v.sharp == 0.0 ==> d.sharp == DefaultSharp
    ensures v.bright == 0.0 ==> d.bright == DefaultBright
    ensures v.contrast == 0.0 ==> d.contrast == DefaultContrast
    ensures v.grayScaleAsciTable == [] ==> d.grayScaleAsciTable == DefaultGrayScale
  {
    Values(
      if v.width == 0 then DefaultWidth else v.width,
      v.height,
      if v.sharp == 0.0 then DefaultSharp else v.sharp,
      if v.bright == 0.0 then DefaultBright else v.bright,
      if v.contrast == 0.0 then DefaultContrast else v.contrast,
      if v.grayScaleAsciTable == [] then DefaultGrayScale else v.grayScaleAsciTable)
  }

  /** Complete values are a fixed point of default filling. */
  lemma CompleteIsFixedPoint(v: Values)
    requires Complete(v)
    ensures WithDefaults(v) == v
  {
  }

  /** Filling defaults twice is the same as once. */
  lemma {:induction false} WithDefaultsIdempotent(v: Values)
    ensures WithDefaults(WithDefaults(v)) == WithDefaults(v)
  {
    CompleteIsFixedPoint(WithDefaults(v));
  }

  /** An all-unset record becomes exactly the documented defaults. */
  lemma UnsetGetsDocumentedDefaults()
    ensures WithDefaults(Unset) == Values(240, 0, 5.0, 5.0, 75.0, Bytes(".:-=+*#%@"))
  {
  }

  /**
   * `(X * Width * 10) / (X * 16)` in Go `int` arithmetic, where X is the
   * source image's `Bounds().Max.X`; a zero divisor is a runtime panic.
   */
  function DerivedHeight(maxX: Int64, width: Int64): (h: Result<Int64>)
    ensures h.Panicked? <==> Wrap64(maxX * 16) == 0
    ensures h.Panicked? ==> h.panic == DivideByZero
  {
    var den := Wrap64(maxX * 16);
    if den == 0 then Panicked(DivideByZero)
    else Ok(Wrap64(TruncDiv(Wrap64(Wrap64(maxX * width) * 10), den)))
  }

  /** The products in the height formula stay within Go's 64-bit `int`. */
  predicate HeightFormulaFits(maxX: int, width: int)
  {
    -0x8000_0000_0000_0000 <= maxX * width * 10 < 0x8000_0000_0000_0000
    && -0x8000_0000_0000_0000 <= maxX * 16 < 0x8000_0000_0000_0000
  }

  /**
   * For any source width X > 0 the derived height is `(Width * 10) / 16`:
   * X cancels, so the source's aspect ratio plays no part.
   */
  lemma {:induction false} DerivedHeightIgnoresSource(maxX: Int64, width: Int64)
    requires 0 < maxX && HeightFormulaFits(maxX, width)
    ensures DerivedHeight(maxX, width) == Ok(TruncDiv(width * 10, 16))
    ensures width >= 0 ==> DerivedHeight(maxX, width) == Ok((width * 10) / 16)
  {
    var m := maxX * width;
    assert m * 10 == maxX * (width * 10);
    assert Wrap64(m) == m;
    assert Wrap64(m * 10) == m * 10;
    assert Wrap64(maxX * 16) == maxX * 16;
    TruncDivCancel(maxX, width * 10, 16);
    assert TruncDiv(maxX * (width * 10), maxX * 16) == TruncDiv(width * 10, 16);
  }

  /** Width 80 over a 1600-pixel-wide source gives 50 rows. */
  lemma DerivedHeightOf80Over1600()
    ensures DerivedHeight(1600, 80) == Ok(50)
  {
  }

  /** The values after preprocessing: a zero height is replaced by the derived one. */
  function Preprocessed(v: Values, maxX: Int64): (r: Result<Values>)
    ensures v.height != 0 ==> r == Ok(v)
    ensures r.Ok? ==> r.value.(height := v.height) == v
    ensures r.Panicked? ==> v.height == 0 && r == Panicked(DivideByZero)
  {
    if v.height != 0 then Ok(v)
    else match DerivedHeight(maxX, v.width)
      case Ok(h) => Ok(v.(height := h))
      case Panicked(p) => Panicked(p)
  }

  /**
   * With a zero height and a positive source width, preprocessing stores
   * `(Width * 10) / 16` as the height and changes nothing else.
   */
  lemma {:induction false} PreprocessedHeight(v: Values, maxX: Int64)
    requires v.height == 0 && 0 < maxX && HeightFormulaFits(maxX, v.width)
    ensures Preprocessed(v, maxX) == Ok(v.(height := TruncDiv(v.width * 10, 16)))
  {
    DerivedHeightIgnoresSource(maxX, v.width);
  }

  /**
   * A decoded source image: its `Bounds().Max.X`, and what the imaging
   * library's resize, sharpen, brightness and contrast steps make of it for
   * given processing values.
   */
  datatype Decoded = Decoded(maxX: Int64, imaging: Values -> Grid)

  /**
   * The output the pixel loop produces when every write succeeds, or the panic
   * it stops at: indexing an empty table panics at the first pixel.
   */
  function Expected(table: seq<Byte>, img: Grid): (r: Result<seq<Byte>>)
    ensures r.Ok? <==> Renderable(table, img.rows)
    ensures r.Panicked? ==> r.panic == IndexOutOfRange
  {
    if Renderable(table, img.rows) then Ok(Render(table, img.rows)) else Panicked(IndexOutOfRange)
  }

  /**
   * How the pixel loop can end, given the output `exp` it would produce: a
   * panic before anything is written, every byte written, or a proper prefix
   * written and the writer failed.
   */
  predicate RunEnded(exp: Result<seq<Byte>>, outcome: Outcome,
                     before: seq<Byte>, after: seq<Byte>, failedBefore: bool, failedAfter: bool)
  {
    match exp
    case Panicked(p) => outcome == Crashed(p) && after == before && failedAfter == failedBefore
    case Ok(out) =>
      || (outcome == Done && failedAfter == failedBefore && after == before + out)
      || (outcome == WriteFailed && failedAfter && AppendedStrictPrefix(before, after, out))
  }

  /**
   * The pixel loop of `run`: for each row y from the top, the row's ramp
   * bytes (WriteRowPixels, the inner loop over x) and then a newline. The
   * first failing write, or the index panic, stops the loop.
   */
  method WriteRows(table: seq<Byte>, img: Grid, buffer: Writer) returns (outcome: Outcome)
    modifies buffer
    ensures RunEnded(Expected(table, img), outcome, old(buffer.written), buffer.written, old(buffer.failed), buffer.failed)
  {
    ghost var before := buffer.written;
    var imgX, imgY := img.width, |img.rows|;
    var y := 0;
    while y < imgY
      invariant 0 <= y <= imgY
      invariant |table| > 0 || imgX == 0 || y == 0
      invariant Renderable(table, img.rows[..y])
      invariant buffer.written == before + Render(table, img.rows[..y])
      invariant buffer.failed == old(buffer.failed)
    {
      var rowOutcome := WriteRow(table, img.rows[y], buffer);
      if rowOutcome.Crashed? {
        FirstPixelPanics(table, img);
        return rowOutcome;
      }
      if rowOutcome == WriteFailed {
        StoppedInRow(before, buffer.written, table, img.rows, y);
        return WriteFailed;
      }
      NextRow(before, table, img.rows, y);
      y := y + 1;
    }
    assert img.rows[..y] == img.rows;
    return Done;
  }

  /** One pass of the outer loop of `run`: the row's ramp bytes, then a newline. */
  method WriteRow(table: seq<Byte>, row: seq<Rgb>, buffer: Writer) returns (outcome: Outcome)
    modifies buffer
    ensures outcome == Done || outcome == WriteFailed || outcome == Crashed(IndexOutOfRange)
    ensures outcome.Crashed? <==> |table| == 0 && row != []
    ensures outcome.Crashed? ==> buffer.written == old(buffer.written) && buffer.failed == old(buffer.failed)
    ensures outcome == Done ==> buffer.written == old(buffer.written) + RowPixels(table, row) + [NEWLINE]
    ensures outcome == Done ==> buffer.failed == old(buffer.failed)
    ensures outcome == WriteFailed ==> buffer.failed
    ensures outcome == WriteFailed ==> AppendedStrictPrefix(old(buffer.written), buffer.written, RowPixels(table, row) + [NEWLINE])
  {
    outcome := WriteRowPixels(table, row, buffer);
    if outcome != Done {
      return;
    }
    var ok := buffer.WriteByte(NEWLINE);
    if !ok {
      return WriteFailed;
    }
  }

  /**
   * A failed write in row `y`, its newline included, leaves a proper prefix
   * of the whole rendering after `before`.
   */
  lemma StoppedInRow(before: seq<Byte>, after: seq<Byte>, table: seq<Byte>, rows: seq<seq<Rgb>>, y: nat)
    requires Renderable(table, rows) && y < |rows|
    requires AppendedStrictPrefix(before + Render(table, rows[..y]), after, RowPixels(table, rows[y]) + [NEWLINE])
    ensures AppendedStrictPrefix(before, after, Render(table, rows))
  {
    StopIsStrictPrefix(table, rows, y, 0);
    var rendered := Render(table, rows[..y]);
    var row := RowPixels(table, rows[y]);
    var k := |after| - |before + rendered|;
    assert (row + [NEWLINE])[..k] == row[..k];
    StopIsStrictPrefix(table, rows, y, k);
    AppendAssoc(before, rendered, row[..k]);
    AppendPrefix(before, rendered + row[..k], Render(table, rows));
  }

  /** One more row of the loop: its ramp bytes and a newline extend the rendering of the rows above. */
  lemma NextRow(before: seq<Byte>, table: seq<Byte>, rows: seq<seq<Rgb>>, y: nat)
    requires y < |rows| && Renderable(table, rows[..y]) && (|table| > 0 || rows[y] == [])
    ensures Renderable(table, rows[..y + 1])
    ensures before + Render(table, rows[..y]) + RowPixels(table, rows[y]) + [NEWLINE] == before + Render(table, rows[..y + 1])
  {
    RenderStep(table, rows, y);
    var rendered, row := Render(table, rows[..y]), RowPixels(table, rows[y]);
    AppendAssoc(before, rendered, row);
    AppendAssoc(before, rendered + row, [NEWLINE]);
  }

  /**
   * The inner loop of `run` over one row: for each column x from the left,
   * the luminance of the pixel picks a ramp byte, which is written. Indexing
   * an empty table panics at the first pixel.
   */
  method WriteRowPixels(table: seq<Byte>, row: seq<Rgb>, buffer: Writer) returns (outcome: Outcome)
    modifies buffer
    ensures RunEnded(if |table| > 0 || row == [] then Ok(RowPixels(table, row)) else Panicked(IndexOutOfRange),
                     outcome, old(buffer.written), buffer.written, old(buffer.failed), buffer.failed)
  {
    ghost var before := buffer.written;
    var x := 0;
    while x < |row|
      invariant 0 <= x <= |row|
      invariant |table| > 0 || x == 0
      invariant buffer.written == before + RowPixels(table, row[..x])
      invariant buffer.failed == old(buffer.failed)
    {
      var p := row[x];
      var gr := Luminance(p.r, p.g, p.b);
      var idx := RampIndex(gr, |table|);
      if |table| > 0 {
        RampIndexInRange(gr, |table|);
      }
      if idx >= |table| {
        return Crashed(IndexOutOfRange);
      }
      var ok := buffer.WriteString([table[idx]]);
      if !ok {
        RowPixelsPrefix(table, row, x);
        AppendPrefix(before, RowPixels(table, row[..x]), RowPixels(table, row));
        return WriteFailed;
      }
      RowPixelsStep(table, row, x);
      assert before + (RowPixels(table, row[..x]) + [table[idx]]) == before + RowPixels(table, row[..x]) + [table[idx]];
      x := x + 1;
    }
    assert row[..x] == row;
    return Done;
  }

  /** Appending a proper prefix of `out` is what AppendedStrictPrefix describes. */
  lemma AppendPrefix(before: seq<Byte>, done: seq<Byte>, out: seq<Byte>)
    requires |done| < |out| && IsPrefix(done, out)
    ensures AppendedStrictPrefix(before, before + done, out)
  {
  }

  /**
   * An empty table cannot be indexed: an image with a pixel then has no
   * output, only the index panic.
   */
  lemma FirstPixelPanics(table: seq<Byte>, img: Grid)
    requires |table| == 0 && |img.rows| > 0 && img.width > 0
    ensures Expected(table, img) == Panicked(IndexOutOfRange)
  {
    assert img.rows[0] != [];
  }

  class ProcessingValues {
    var width: Int64
    var height: Int64
    var sharp: real
    var bright: real
    var contrast: real
    var grayScaleAsciTable: seq<Byte>

    /** `&ProcessingValues{}`. */
    constructor ()
      ensures Snapshot() == Unset
    {
      width, height := 0, 0;
      sharp, bright, contrast := 0.0, 0.0, 0.0;
      grayScaleAsciTable := [];
    }

    /** A record filled in by the caller. */
    constructor Of(v: Values)
      ensures Snapshot() == v
    {
      width, height := v.width, v.height;
      sharp, bright, contrast := v.sharp, v.bright, v.contrast;
      grayScaleAsciTable := v.grayScaleAsciTable;
    }

    function Snapshot(): Values
      reads this
    {
      Values(width, height, sharp, bright, contrast, grayScaleAsciTable)
    }

    /** Fills each zero or empty field with its default, in place. */
    method Defaults()
      modifies this
      ensures Snapshot() == WithDefaults(old(Snapshot()))
    {
      if width == 0 {
        width := DefaultWidth;
      }
      if sharp == 0.0 {
        sharp := DefaultSharp;
      }
      if bright == 0.0 {
        bright := DefaultBright;
      }
      if contrast == 0.0 {
        contrast := DefaultContrast;
      }
      if grayScaleAsciTable == [] {
        grayScaleAsciTable := DefaultGrayScale;
      }
    }
  }

  class Config {
    var processingValues: ProcessingValues?
    /** Echo the output to the console; only the writer's construction uses it. */
    var term: bool

    constructor (pv: ProcessingValues?, term: bool)
      ensures processingValues == pv && this.term == term
    {
      processingValues := pv;
      this.term := term;
    }

    /**
     * Allocates and defaults a record only when there is none; a record the
     * caller supplied is left exactly as it is, even with unset fields.
     */
    method Defaults()
      modifies this
      ensures term == old(term)
      ensures old(processingValues) == null ==>
                processingValues != null && fresh(processingValues)
                && processingValues.Snapshot() == WithDefaults(Unset)
      ensures old(processingValues) != null ==>
                processingValues == old(processingValues)
                && processingValues.Snapshot() == old(processingValues.Snapshot())
      ensures processingValues != null
    {
      if processingValues == null {
        processingValues := new ProcessingValues();
        processingValues.Defaults();
      }
    }

    /**
     * Derives and stores the height when it is zero, then hands the values to
     * the imaging library.
     */
    method Preprocess(src: Decoded) returns (img: Result<Grid>)
      requires processingValues != null
      modifies processingValues
      ensures match Preprocessed(old(processingValues.Snapshot()), src.maxX)
        case Panicked(p) => img == Panicked(p) && processingValues.Snapshot() == old(processingValues.Snapshot())
        case Ok(v) => processingValues.Snapshot() == v && img == Ok(src.imaging(v))
    {
      if processingValues.height == 0 {
        var h := DerivedHeight(src.maxX, processingValues.width);
        if h.Panicked? {
          return Panicked(h.panic);
        }
        processingValues.height := h.value;
      }
      img := Ok(src.imaging(processingValues.Snapshot()));
    }

    /**
     * Preprocesses the image, then writes its rows with WriteRows: `run`
     * returns the writer, or the first write error.
     */
    method Run(src: Decoded, buffer: Writer) returns (outcome: Outcome)
      requires processingValues != null
      modifies processingValues, buffer
      ensures match Preprocessed(old(processingValues.Snapshot()), src.maxX)
        case Panicked(p) =>
          outcome == Crashed(p) && buffer.written == old(buffer.written) && buffer.failed == old(buffer.failed)
          && processingValues.Snapshot() == old(processingValues.Snapshot())
        case Ok(v) =>
          processingValues.Snapshot() == v
          && RunEnded(Expected(v.grayScaleAsciTable, src.imaging(v)), outcome,
                      old(buffer.written), buffer.written, old(buffer.failed), buffer.failed)
    {
      var pre := Preprocess(src);
      if pre.Panicked? {
        return Crashed(pre.panic);
      }
      outcome := WriteRows(processingValues.grayScaleAsciTable, pre.value, buffer);
    }

    /**
     * The conversion entry point with its I/O results as inputs: `decoded` is
     * the loaded image (None when opening or decoding failed) and `created`
     * the writer over the output file (None when it could not be created).
     * Defaults are filled first; the errors of the flushes are not reported.
     */
    method Process(decoded: Option<Decoded>, created: Option<Writer>) returns (outcome: Outcome)
      modifies this, processingValues, if created.Some? then {created.value} else {}
      ensures term == old(term)
      ensures processingValues != null
      ensures old(processingValues) != null ==> processingValues == old(processingValues)
      ensures old(processingValues) == null ==> fresh(processingValues)
      ensures decoded.None? ==> outcome == LoadFailed
      ensures decoded.Some? && created.None? ==> outcome == CreateFailed
      ensures old(processingValues) == null ==> outcome != Crashed(IndexOutOfRange)
      ensures outcome == Crashed(DivideByZero) ==> decoded.Some? && Wrap64(decoded.value.maxX * 16) == 0
      ensures outcome == WriteFailed ==> decoded.Some? && created.Some? && created.value.failed
      ensures var start := if old(processingValues) == null then WithDefaults(Unset) else old(processingValues.Snapshot());
              (outcome == LoadFailed || outcome == CreateFailed) ==> processingValues.Snapshot() == start
      ensures (outcome == LoadFailed || outcome == CreateFailed) && created.Some? ==>
                created.value.written == old(created.value.written) && created.value.failed == old(created.value.failed)
      ensures var start := if old(processingValues) == null then WithDefaults(Unset) else old(processingValues.Snapshot());
              outcome == Done ==> decoded.Some? && Preprocessed(start, decoded.value.maxX) == Ok(processingValues.Snapshot())
      ensures var start := if old(processingValues) == null then WithDefaults(Unset) else old(processingValues.Snapshot());
              decoded.Some? && created.Some? ==>
                match Preprocessed(start, decoded.value.maxX)
                case Panicked(p) =>
                  outcome == Crashed(p) && processingValues.Snapshot() == start
                  && created.value.written == old(created.value.written)
                case Ok(v) =>
                  processingValues.Snapshot() == v &&
                  match Expected(v.grayScaleAsciTable, decoded.value.imaging(v))
                  case Panicked(p) => outcome == Crashed(p) && created.value.written == old(created.value.written)
                  case Ok(out) =>
                    || (outcome == Done && created.value.written == old(created.value.written) + out)
                    || (outcome == WriteFailed && created.value.failed
                        && AppendedStrictPrefix(old(created.value.written), created.value.written, out))
      ensures outcome == Done ==>
                decoded.Some? && created.Some? &&
                var v := processingValues.Snapshot();
                Renderable(v.grayScaleAsciTable, decoded.value.imaging(v).rows) &&
                created.value.written == old(created.value.written) + Render(v.grayScaleAsciTable, decoded.value.imaging(v).rows)
    {
      Defaults();
      if decoded.None? {
        return LoadFailed;
      }
      if created.None? {
        return CreateFailed;
      }
      var buffer := created.value;
      outcome := Run(decoded.value, buffer);
      if outcome == Done {
        var _ := buffer.Flush();
      }
      // the deferred Flush, which runs on every path from here, panics included
      var _ := buffer.Flush();
    }
  }
}
