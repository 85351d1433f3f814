/**
 * The rasteriser's pure core: the luminance of a pixel, the index of the ramp
 * character it maps to, and the text the pixel loop emits for a whole image.
 */
module Raster {
  import opened GoInt

  /** A 16-bit colour channel, as Go's `color.Color.RGBA` returns it. */
  type Channel = c: int | 0 <= c <= 0xFFFF

  /** A pixel after grey conversion: the three channels `RGBA` yields. */
  datatype Rgb = Rgb(r: Channel, g: Channel, b: Channel)

  /**
   * A preprocessed image: `width` is `Bounds().Max.X` (imgX) and the rows,
   * top to bottom, are indexed by y in `0 .. Bounds().Max.Y` (imgY).
   */
  datatype Image = Image(width: nat, rows: seq<seq<Rgb>>)
  {
    predicate Valid()
    {
      forall y :: 0 <= y < |rows| ==> |rows[y]| == width
    }
  }

  /** An image whose every row has `width` pixels. */
  type Grid = img: Image | img.Valid() witness Image(0, [])

  /** The byte written after each row. */
  const NEWLINE: Byte := 0x0A

  /**
   * The longest ramp for which `gr * (len - 1)` cannot wrap in uint32 for any
   * `gr <= 255`: 255 * 16843009 = 2^32 - 1.
   */
  const MaxExactRamp: nat := 16843010

  /**
   * The luma sum before the shift, in exact arithmetic: the ITU-R BT.601
   * weights scaled to 2^16 (19595 + 38470 + 7471 == 65536) plus the rounding
   * term `1<<15`.
   */
  function LumaSum(r: int, g: int, b: int): int
  {
    19595 * r + 38470 * g + 7471 * b + 0x8000
  }

  /**
   * `(19595*r + 38470*g + 7471*b + 1<<15) >> 24` on uint32 operands: Go wraps
   * each product and sum modulo 2^32, which is the exact sum modulo 2^32, and
   * the shift of a 32-bit value leaves at most 8 bits.
   */
  function Luminance(r: Uint32, g: Uint32, b: Uint32): (gr: Uint32)
    ensures gr <= 255
  {
    Wrap32(LumaSum(r, g, b)) / 0x100_0000
  }

  /** The luminance of one grey-converted pixel. */
  function PixelLuminance(p: Rgb): (gr: Uint32)
    ensures gr <= 255
  {
    Luminance(p.r, p.g, p.b)
  }

  /**
   * For 16-bit channels the weighted sum never wraps in uint32, so the
   * luminance is the exact sum divided by 2^24.
   */
  lemma LuminanceNoOverflow(p: Rgb)
    ensures LumaSum(p.r, p.g, p.b) <= 0xFFFF_8000
    ensures PixelLuminance(p) == LumaSum(p.r, p.g, p.b) / 0x100_0000
  {
  }

  /** A brighter channel never gives a darker luminance. */
  lemma LuminanceMonotone(p: Rgb, q: Rgb)
    requires p.r <= q.r && p.g <= q.g && p.b <= q.b
    ensures PixelLuminance(p) <= PixelLuminance(q)
  {
    LuminanceNoOverflow(p);
    LuminanceNoOverflow(q);
    DivMonotone(LumaSum(p.r, p.g, p.b), LumaSum(q.r, q.g, q.b), 0x100_0000);
  }

  /**
   * The channels of an 8-bit grey `y` are `y * 0x101`; the formula gives `y`
   * back exactly.
   */
  lemma {:induction false} LuminanceOfGray(y: Byte)
    ensures PixelLuminance(Rgb(y * 0x101, y * 0x101, y * 0x101)) == y
  {
    var c := y * 0x101;
    var p := Rgb(c, c, c);
    LuminanceNoOverflow(p);
    assert LumaSum(c, c, c) == y * 0x100_0000 + (y * 0x1_0000 + 0x8000);
    DivUnique(LumaSum(c, c, c), 0x100_0000, y, y * 0x1_0000 + 0x8000);
  }

  /**
   * `(gr * (uint32(len(table)) - 1)) / 255` on uint32 operands, where `n` is
   * the table's length in bytes.
   */
  function RampIndex(gr: Uint32, n: nat): (i: Uint32)
    ensures i <= 16843009
  {
    Wrap32(gr * Wrap32(Wrap32(n) - 1)) / 255
  }

  /** For every non-empty table the index is a valid position in it. */
  lemma {:induction false} RampIndexInRange(gr: Uint32, n: nat)
    requires gr <= 255 && n >= 1
    ensures RampIndex(gr, n) < n
  {
    var m := Wrap32(Wrap32(n) - 1);
    if Wrap32(n) == 0 {
      assert n >= 0x1_0000_0000;
    } else if 255 * m < 0x1_0000_0000 {
      assert m <= n - 1;
      MulLe(gr, 255, m);
      assert Wrap32(gr * m) == gr * m;
      DivMonotone(gr * m, 255 * m, 255);
      assert (255 * m) / 255 == m;
    } else {
      assert m >= 16843010;
      assert n > 16843009;
    }
  }

  lemma MulSucc(n: nat, k: nat)
    ensures (n + 1) * k == n * k + k
  {
  }

  lemma MulLe(a: nat, b: nat, c: nat)
    requires a <= b
    ensures a * c <= b * c
  {
  }

  /**
   * Up to MaxExactRamp bytes the index is exactly `floor(gr * (n - 1) / 255)`:
   * the darkest luminance picks the first byte and the brightest the last.
   */
  lemma {:induction false} RampIndexExact(gr: Uint32, n: nat)
    requires gr <= 255 && 1 <= n <= MaxExactRamp
    ensures RampIndex(gr, n) == (gr * (n - 1)) / 255
    ensures gr == 0 ==> RampIndex(gr, n) == 0
    ensures gr == 255 ==> RampIndex(gr, n) == n - 1
  {
    MulLe(gr, 255, n - 1);
    assert Wrap32(gr * (n - 1)) == gr * (n - 1);
  }

  /** Up to MaxExactRamp bytes a brighter luminance never picks an earlier byte. */
  lemma {:induction false} RampIndexMonotone(g1: Uint32, g2: Uint32, n: nat)
    requires g1 <= g2 <= 255 && 1 <= n <= MaxExactRamp
    ensures RampIndex(g1, n) <= RampIndex(g2, n)
  {
    RampIndexExact(g1, n);
    RampIndexExact(g2, n);
    MulLe(g1, g2, n - 1);
    DivMonotone(g1 * (n - 1), g2 * (n - 1), 255);
  }

  /**
   * Past MaxExactRamp bytes the product wraps: the brightest luminance then
   * picks the first, darkest byte.
   */
  lemma RampIndexWrapsPastMaxExactRamp()
    ensures RampIndex(255, MaxExactRamp + 1) == 0
  {
  }

  /** The ramp byte the pixel loop writes for one pixel. */
  function RampByte(table: seq<Byte>, p: Rgb): (c: Byte)
    requires |table| > 0
    ensures c in table
  {
    RampIndexInRange(PixelLuminance(p), |table|);
    table[RampIndex(PixelLuminance(p), |table|)]
  }

  /** A uniform grey that is brighter never maps to an earlier ramp byte. */
  lemma {:induction false} BrighterGrayNotEarlier(u: Byte, v: Byte, n: nat)
    requires u <= v && 1 <= n <= MaxExactRamp
    ensures RampIndex(PixelLuminance(Rgb(u * 0x101, u * 0x101, u * 0x101)), n)
         <= RampIndex(PixelLuminance(Rgb(v * 0x101, v * 0x101, v * 0x101)), n)
  {
    LuminanceOfGray(u);
    LuminanceOfGray(v);
    RampIndexMonotone(u, v, n);
  }

  /** The ramp bytes of one row, left to right. */
  function RowPixels(table: seq<Byte>, row: seq<Rgb>): (s: seq<Byte>)
    requires |table| > 0 || row == []
    ensures |s| == |row|
  {
    if row == [] then [] else RowPixels(table, row[..|row| - 1]) + [RampByte(table, row[|row| - 1])]
  }

  /** Byte `x` of a row's output is the ramp byte of pixel `x`. */
  lemma {:induction false} RowPixelsAt(table: seq<Byte>, row: seq<Rgb>)
    requires |table| > 0
    ensures forall x :: 0 <= x < |row| ==> RowPixels(table, row)[x] == RampByte(table, row[x])
  {
    if row != [] {
      var init := row[..|row| - 1];
      RowPixelsAt(table, init);
      forall x | 0 <= x < |row|
        ensures RowPixels(table, row)[x] == RampByte(table, row[x])
      {
        if x < |init| {
          assert row[x] == init[x];
        }
      }
    }
  }

  /** A table the pixel loop can index for these rows: non-empty, or no pixel at all. */
  predicate Renderable(table: seq<Byte>, rows: seq<seq<Rgb>>)
  {
    |table| > 0 || forall y :: 0 <= y < |rows| ==> rows[y] == []
  }

  /**
   * The whole output for `rows`, top row first: each row is its ramp bytes
   * followed by a newline.
   */
  function Render(table: seq<Byte>, rows: seq<seq<Rgb>>): (out: seq<Byte>)
    requires Renderable(table, rows)
  {
    if rows == [] then []
    else Render(table, rows[..|rows| - 1]) + RowPixels(table, rows[|rows| - 1]) + [NEWLINE]
  }

  /** On a pixel grid the loop can index every pixel exactly when the table is non-empty or there is no pixel. */
  lemma RenderableIffSomePixel(table: seq<Byte>, img: Grid)
    ensures Renderable(table, img.rows) <==> |table| > 0 || img.width == 0 || |img.rows| == 0
  {
    if |img.rows| > 0 && img.width > 0 {
      assert img.rows[0] != [];
    }
  }

  /** Every byte of the output is a newline or a byte of the table. */
  lemma {:induction false} RenderBytesFromTable(table: seq<Byte>, rows: seq<seq<Rgb>>)
    requires Renderable(table, rows)
    ensures forall i :: 0 <= i < |Render(table, rows)| ==> Render(table, rows)[i] == NEWLINE || Render(table, rows)[i] in table
  {
    if rows != [] {
      RenderBytesFromTable(table, rows[..|rows| - 1]);
      if |table| > 0 {
        RowPixelsAt(table, rows[|rows| - 1]);
      }
    }
  }

  lemma AppendAssoc(a: seq<Byte>, b: seq<Byte>, c: seq<Byte>)
    ensures a + (b + c) == (a + b) + c
  {
  }

  predicate IsPrefix(a: seq<Byte>, b: seq<Byte>)
  {
    |a| <= |b| && a == b[..|a|]
  }

  /** Every row has `w + 1` bytes of output: `|rows| * (w + 1)` in all. */
  lemma {:induction false} RenderLength(table: seq<Byte>, rows: seq<seq<Rgb>>, w: nat)
    requires Renderable(table, rows)
    requires forall y :: 0 <= y < |rows| ==> |rows[y]| == w
    ensures |Render(table, rows)| == |rows| * (w + 1)
  {
    if rows != [] {
      var init := rows[..|rows| - 1];
      RenderLength(table, init, w);
      assert |Render(table, rows)| == |Render(table, init)| + w + 1;
      MulSucc(|init|, w + 1);
    }
  }

  /**
   * Row-major layout: byte `x` of output row `y` is the ramp byte of pixel
   * (x, y) for `x < w`, and the newline for `x == w`.
   */
  lemma {:induction false} RenderAt(table: seq<Byte>, rows: seq<seq<Rgb>>, w: nat, y: nat, x: nat)
    requires Renderable(table, rows)
    requires forall k :: 0 <= k < |rows| ==> |rows[k]| == w
    requires y < |rows| && x <= w
    ensures y * (w + 1) + x < |Render(table, rows)|
    ensures x < w ==> |rows[y]| > 0 && |table| > 0 && Render(table, rows)[y * (w + 1) + x] == RampByte(table, rows[y][x])
    ensures x == w ==> Render(table, rows)[y * (w + 1) + x] == NEWLINE
  {
    var init, last := rows[..|rows| - 1], rows[|rows| - 1];
    RenderLength(table, init, w);
    var tail := RowPixels(table, last) + [NEWLINE];
    assert Render(table, rows) == Render(table, init) + tail;
    assert |Render(table, rows)| == |init| * (w + 1) + (w + 1);
    if y < |rows| - 1 {
      RenderAt(table, init, w, y, x);
      assert init[y] == rows[y];
      assert (y + 1) * (w + 1) <= |init| * (w + 1) by {
        MulLe(y + 1, |init|, w + 1);
      }
    } else {
      assert |Render(table, init)| == y * (w + 1);
      assert Render(table, rows)[y * (w + 1) + x] == tail[x];
      if x < w {
        RowPixelsAt(table, last);
      }
    }
  }

  /** The output for the first `j` rows is a prefix of the output for all of them. */
  lemma {:induction false} RenderPrefix(table: seq<Byte>, rows: seq<seq<Rgb>>, j: nat)
    requires Renderable(table, rows) && j <= |rows|
    ensures Renderable(table, rows[..j])
    ensures IsPrefix(Render(table, rows[..j]), Render(table, rows))
  {
    if j < |rows| {
      var init := rows[..|rows| - 1];
      RenderPrefix(table, init, j);
      assert init[..j] == rows[..j];
    } else {
      assert rows[..j] == rows;
    }
  }

  /**
   * What the pixel loop has written when it stops at column `x` of row `y`
   * (x == |row| is the newline) is a proper prefix of the whole output.
   */
  lemma {:induction false} StopIsStrictPrefix(table: seq<Byte>, rows: seq<seq<Rgb>>, y: nat, x: nat)
    requires Renderable(table, rows) && y < |rows| && x <= |rows[y]|
    ensures Renderable(table, rows[..y])
    ensures var done := Render(table, rows[..y]) + RowPixels(table, rows[y])[..x];
            |done| < |Render(table, rows)| && IsPrefix(done, Render(table, rows))
  {
    RenderPrefix(table, rows, y + 1);
    var upTo := rows[..y + 1];
    assert upTo[..y] == rows[..y] && upTo[y] == rows[y];
    var row := RowPixels(table, rows[y]);
    assert Render(table, upTo) == Render(table, rows[..y]) + row + [NEWLINE];
  }

  /** Extending a row prefix by one pixel appends that pixel's ramp byte. */
  lemma RowPixelsStep(table: seq<Byte>, row: seq<Rgb>, x: nat)
    requires |table| > 0 && x < |row|
    ensures RowPixels(table, row[..x + 1]) == RowPixels(table, row[..x]) + [RampByte(table, row[x])]
  {
    assert row[..x + 1][..x] == row[..x];
  }

  /** Extending the rendered rows by one row appends its ramp bytes and a newline. */
  lemma RenderStep(table: seq<Byte>, rows: seq<seq<Rgb>>, y: nat)
    requires y < |rows| && Renderable(table, rows[..y]) && (|table| > 0 || rows[y] == [])
    ensures Renderable(table, rows[..y + 1])
    ensures Render(table, rows[..y + 1]) == Render(table, rows[..y]) + RowPixels(table, rows[y]) + [NEWLINE]
  {
    RenderableStep(table, rows, y);
    var upTo := rows[..y + 1];
    var init := upTo[..|upTo| - 1];
    assert init == rows[..y];
    assert upTo[|upTo| - 1] == rows[y];
    assert Render(table, upTo) == Render(table, init) + RowPixels(table, rows[y]) + [NEWLINE];
  }

  /** Adding a row the table can index keeps the rows renderable. */
  lemma RenderableStep(table: seq<Byte>, rows: seq<seq<Rgb>>, y: nat)
    requires y < |rows| && Renderable(table, rows[..y]) && (|table| > 0 || rows[y] == [])
    ensures Renderable(table, rows[..y + 1])
  {
    if |table| == 0 {
      var upTo := rows[..y + 1];
      forall i | 0 <= i < |upTo|
        ensures upTo[i] == []
      {
        if i < y {
          assert upTo[i] == rows[..y][i];
        }
      }
    }
  }

  /** The ramp bytes of the first `x` pixels are the first `x` ramp bytes of the row. */
  lemma {:induction false} RowPixelsPrefix(table: seq<Byte>, row: seq<Rgb>, x: nat)
    requires (|table| > 0 || row == []) && x <= |row|
    ensures RowPixels(table, row[..x]) == RowPixels(table, row)[..x]
  {
    if x == |row| {
      assert row[..x] == row;
    } else {
      var init := row[..|row| - 1];
      RowPixelsPrefix(table, init, x);
      assert init[..x] == row[..x];
    }
  }

  /** A solid black 2x2 image with the ramp " #" gives two rows of spaces. */
  lemma BlackSquare()
    ensures var black := Rgb(0, 0, 0);
            Render(Bytes(" #"), [[black, black], [black, black]]) == Bytes("  \n  \n")
  {
    var black := Rgb(0, 0, 0);
    var table := Bytes(" #");
    assert table == [0x20, 0x23];
    assert RampByte(table, black) == 0x20;
    var row := RowPixels(table, [black, black]);
    RowPixelsAt(table, [black, black]);
    assert row == [0x20, 0x20];
    var rows := [[black, black], [black, black]];
    assert rows[..1][..0] == [];
    assert Render(table, rows[..1]) == row + [NEWLINE];
    assert Bytes("  \n  \n") == row + [NEWLINE] + row + [NEWLINE];
  }

  /** A solid white 2x2 image with the ramp " #" gives two rows of '#'. */
  lemma WhiteSquare()
    ensures var white := Rgb(0xFFFF, 0xFFFF, 0xFFFF);
            Render(Bytes(" #"), [[white, white], [white, white]]) == Bytes("##\n##\n")
  {
    var white := Rgb(0xFFFF, 0xFFFF, 0xFFFF);
    var table := Bytes(" #");
    assert table == [0x20, 0x23];
    LuminanceOfGray(255);
    assert RampByte(table, white) == 0x23;
    var row := RowPixels(table, [white, white]);
    RowPixelsAt(table, [white, white]);
    assert row == [0x23, 0x23];
    var rows := [[white, white], [white, white]];
    assert rows[..1][..0] == [];
    assert Render(table, rows[..1]) == row + [NEWLINE];
    assert Bytes("##\n##\n") == row + [NEWLINE] + row + [NEWLINE];
  }
}
