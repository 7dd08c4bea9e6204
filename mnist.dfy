/** The digit-classification sample: a 28x28 image is binarised on its first
    channel, an ASCII preview of it is written out, the model scores the ten
    digit classes and the first class with the highest score is reported. */
module Mnist {
  import opened Png

  /** The only image size the model accepts. */
  const Side: nat := 28

  /** The number of digit classes the model scores. */
  const Classes: nat := 10

  // ---------------------------------------------------------------------
  // Binarisation and the preview

  /** The model input for an interleaved image of stride pixels: 1.0 where
      the first channel of the pixel is 0 (ink), 0.0 elsewhere. */
  function Binarized(input: seq<Byte>, stride: nat): (r: seq<real>)
    requires |input| == 3 * stride
    ensures |r| == stride
  {
    seq(stride, i requires 0 <= i < stride => if input[i * 3] == 0 then 1.0 else 0.0)
  }

  /** The two characters the preview prints for one pixel. */
  function Cell(ink: bool): (cell: string)
    ensures |cell| == 2 && '\n' !in cell
  {
    if ink then "**" else "--"
  }

  /** The preview text get_output_data has printed after its first n pixels:
      a cell per pixel, and a line break after pixel i when (i + 1) % w == 0. */
  function PreviewPrefix(input: seq<Byte>, n: nat, w: nat): (r: string)
    requires 3 * n <= |input| && (n == 0 || w > 0)
    ensures n > 0 ==> |r| >= 2 && (r[|r| - 1] == '\n' <==> n % w == 0)
  {
    if n == 0 then ""
    else PreviewPrefix(input, n - 1, w) + Cell(input[(n - 1) * 3] == 0) + (if n % w == 0 then "\n" else "")
  }

  /** The preview of n pixels is two characters per pixel plus one line
      break per completed row. */
  lemma {:induction false} PreviewLength(input: seq<Byte>, n: nat, w: nat)
    requires 3 * n <= |input| && w > 0
    ensures |PreviewPrefix(input, n, w)| == 2 * n + n / w
  {
    if n > 0 {
      PreviewLength(input, n - 1, w);
      NextQuotient(n, w);
    }
  }

  /** The cells of the k pixels from pixel `start` on. */
  function RowText(input: seq<Byte>, start: nat, k: nat): (text: string)
    requires 3 * (start + k) <= |input|
  {
    if k == 0 then ""
    else RowText(input, start, k - 1) + Cell(input[(start + k - 1) * 3] == 0)
  }

  /** The preview as lines: each of the first `rows` rows of w cells,
      followed by a line break. */
  function RowsText(input: seq<Byte>, rows: nat, w: nat): (text: string)
    requires 3 * (rows * w) <= |input|
  {
    if rows == 0 then ""
    else
      assert (rows - 1) * w + w == rows * w;
      RowsText(input, rows - 1, w) + RowText(input, (rows - 1) * w, w) + "\n"
  }

  /** A run of k cells is 2 * k characters. */
  lemma {:induction false} RowTextLength(input: seq<Byte>, start: nat, k: nat)
    requires 3 * (start + k) <= |input|
    ensures |RowText(input, start, k)| == 2 * k
  {
    if k > 0 {
      RowTextLength(input, start, k - 1);
    }
  }

  /** A run of cells holds no line break. */
  lemma {:induction false} RowTextNoBreak(input: seq<Byte>, start: nat, k: nat)
    requires 3 * (start + k) <= |input|
    ensures '\n' !in RowText(input, start, k)
  {
    if k > 0 {
      RowTextNoBreak(input, start, k - 1);
    }
  }

  /** Cell j of a run is "**" exactly when pixel start + j is ink. */
  lemma {:induction false} RowTextCell(input: seq<Byte>, start: nat, k: nat, j: nat)
    requires 3 * (start + k) <= |input| && j < k
    ensures |RowText(input, start, k)| == 2 * k
    ensures RowText(input, start, k)[2 * j] == Cell(input[(start + j) * 3] == 0)[0]
    ensures RowText(input, start, k)[2 * j + 1] == Cell(input[(start + j) * 3] == 0)[1]
  {
    RowTextLength(input, start, k - 1);
    if j < k - 1 {
      RowTextCell(input, start, k - 1, j);
    }
  }

  /** A run of k cells is 2 * k characters, "**" exactly at ink pixels and
      "--" elsewhere, and holds no line break. */
  lemma RowTextCells(input: seq<Byte>, start: nat, k: nat)
    requires 3 * (start + k) <= |input|
    ensures |RowText(input, start, k)| == 2 * k
    ensures forall j | 0 <= j < k :: RowText(input, start, k)[2 * j..2 * j + 2] == Cell(input[(start + j) * 3] == 0)
    ensures '\n' !in RowText(input, start, k)
  {
    RowTextLength(input, start, k);
    RowTextNoBreak(input, start, k);
    forall j | 0 <= j < k
      ensures RowText(input, start, k)[2 * j..2 * j + 2] == Cell(input[(start + j) * 3] == 0)
    {
      RowTextCell(input, start, k, j);
      var r := RowText(input, start, k);
      assert r[2 * j..2 * j + 2] == [r[2 * j], r[2 * j + 1]];
    }
  }

  lemma MulAtLeast(x: nat, w: nat)
    requires x >= 1
    ensures x * w >= w
  {
    assert x * w == (x - 1) * w + w;
  }

  /** Pixel q * w + r of an image w pixels wide is in row q, column r. */
  lemma ColumnOf(q: nat, w: nat, r: nat)
    requires r < w
    ensures (q * w + r) % w == r
    ensures (q * w + r) / w == q
  {
    var a := q * w + r;
    var d, m := a / w, a % w;
    assert a == d * w + m;
    if d < q {
      MulAtLeast(q - d, w);
    } else if q < d {
      MulAtLeast(d - q, w);
    }
  }

  /** Pixel n completes a row exactly when n % w == 0, and then the number
      of completed rows goes up by one. */
  lemma NextQuotient(n: nat, w: nat)
    requires 0 < n && 0 < w
    ensures n / w == (n - 1) / w + (if n % w == 0 then 1 else 0)
  {
    var q, m := (n - 1) / w, (n - 1) % w;
    assert n - 1 == q * w + m;
    if m + 1 < w {
      assert n == q * w + (m + 1);
      ColumnOf(q, w, m + 1);
    } else {
      assert (q + 1) * w == q * w + w;
      assert n == (q + 1) * w + 0;
      ColumnOf(q + 1, w, 0);
    }
  }

  /** One more pixel inside a row adds its cell and no line break. */
  lemma CellAdded(input: seq<Byte>, row: nat, k: nat, w: nat)
    requires 0 < k < w && 3 * (row * w + k) <= |input|
    requires PreviewPrefix(input, row * w + k - 1, w) == RowsText(input, row, w) + RowText(input, row * w, k - 1)
    ensures PreviewPrefix(input, row * w + k, w) == RowsText(input, row, w) + RowText(input, row * w, k)
  {
    ColumnOf(row, w, k);
  }

  lemma RowStart(row: nat, w: nat)
    requires 0 < row
    ensures (row - 1) * w + w == row * w
  {
  }

  /** The last pixel of a row adds its cell and a line break. */
  lemma PreviewStepEndOfRow(input: seq<Byte>, row: nat, start: nat, w: nat)
    requires 0 < w && start + w == row * w && 3 * (start + w) <= |input|
    ensures PreviewPrefix(input, start + w, w) == PreviewPrefix(input, start + w - 1, w) + Cell(input[(start + w - 1) * 3] == 0) + "\n"
  {
    ColumnOf(row, w, 0);
  }

  /** The preview breaks the line exactly after each row: after row * w + k
      pixels it is the finished rows followed by the first k cells of the
      next one. */
  lemma {:induction false} PreviewPrefixRows(input: seq<Byte>, row: nat, k: nat, w: nat)
    requires 0 < w && k < w && 3 * (row * w + k) <= |input|
    ensures PreviewPrefix(input, row * w + k, w) == RowsText(input, row, w) + RowText(input, row * w, k)
    decreases row, k, 1
  {
    if k > 0 {
      PreviewPrefixRows(input, row, k - 1, w);
      CellAdded(input, row, k, w);
    } else if row > 0 {
      PreviewPrefixRowsClosed(input, row, w);
    }
  }

  /** The case of PreviewPrefixRows where the previous row has just been
      closed by a line break. */
  lemma {:induction false} PreviewPrefixRowsClosed(input: seq<Byte>, row: nat, w: nat)
    requires 0 < w && 0 < row && 3 * (row * w) <= |input|
    ensures PreviewPrefix(input, row * w, w) == RowsText(input, row, w)
    decreases row, 0, 0
  {
    var start := (row - 1) * w;
    RowStart(row, w);
    PreviewStepEndOfRow(input, row, start, w);
    PreviewPrefixRows(input, row - 1, w - 1, w);
    RowClosed(input, row, start, w);
  }

  /** Closing the row that starts at pixel `start`: if the preview before
      its last pixel is the earlier rows and that row's first w - 1 cells,
      the preview after it is the first `row` rows. */
  lemma RowClosed(input: seq<Byte>, row: nat, start: nat, w: nat)
    requires 0 < row && 0 < w && start == (row - 1) * w && start + w == row * w
    requires 3 * (start + w) <= |input|
    requires PreviewPrefix(input, start + w, w) == PreviewPrefix(input, start + w - 1, w) + Cell(input[(start + w - 1) * 3] == 0) + "\n"
    requires PreviewPrefix(input, start + w - 1, w) == RowsText(input, row - 1, w) + RowText(input, start, w - 1)
    ensures PreviewPrefix(input, start + w, w) == RowsText(input, row, w)
  {
    assert RowText(input, start, w) == RowText(input, start, w - 1) + Cell(input[(start + w - 1) * 3] == 0);
  }

  /** The preview of a whole h x w image is its h rows, each ended by a line
      break. */
  lemma PreviewIsRows(input: seq<Byte>, h: nat, w: nat)
    requires 0 < w && |input| == 3 * (h * w)
    ensures PreviewPrefix(input, h * w, w) == RowsText(input, h, w)
  {
    PreviewPrefixRows(input, h, 0, w);
  }

  /** The preview of `rows` rows is that many lines of 2 * w characters,
      each followed by a line break. */
  lemma {:induction false} RowsTextLength(input: seq<Byte>, rows: nat, w: nat)
    requires 3 * (rows * w) <= |input|
    ensures |RowsText(input, rows, w)| == rows * (2 * w + 1)
  {
    if rows > 0 {
      assert (rows - 1) * w + w == rows * w;
      RowsTextLength(input, rows - 1, w);
      RowTextCells(input, (rows - 1) * w, w);
      assert (rows - 1) * (2 * w + 1) + 2 * w + 1 == rows * (2 * w + 1);
    }
  }

  /** Cell j of row r of the preview is "**" exactly where the model input
      is 1.0, and "--" where it is 0.0. */
  lemma PreviewCellMatchesInput(input: seq<Byte>, h: nat, w: nat, r: nat, j: nat)
    requires |input| == 3 * (h * w) && r < h && j < w
    ensures r * w + j < h * w && (r + 1) * w <= h * w
    ensures |RowText(input, r * w, w)| == 2 * w
    ensures RowText(input, r * w, w)[2 * j..2 * j + 2] == if Binarized(input, h * w)[r * w + j] == 1.0 then "**" else "--"
  {
    MulAtLeast(h - r, w);
    assert (h - r) * w == h * w - r * w;
    RowTextCells(input, r * w, w);
  }

  /** Only the first channel of each pixel is read: images that agree on it
      give the same model input and the same preview. */
  lemma {:induction false} OnlyFirstChannelRead(a: seq<Byte>, b: seq<Byte>, n: nat, w: nat)
    requires |a| == |b| && 3 * n <= |a| && (n == 0 || w > 0)
    requires forall i | 0 <= i < n :: a[i * 3] == b[i * 3]
    ensures PreviewPrefix(a, n, w) == PreviewPrefix(b, n, w)
    ensures |a| == 3 * n ==> Binarized(a, n) == Binarized(b, n)
  {
    if n > 0 {
      OnlyFirstChannelRead(a, b, n - 1, w);
    }
  }

  // ---------------------------------------------------------------------
  // get_output_data

  /** Printing pixel n appends its cell, then a line break if it ends a row. */
  lemma PreviewStep(input: seq<Byte>, n: nat, w: nat)
    requires 3 * (n + 1) <= |input| && w > 0
    ensures PreviewPrefix(input, n + 1, w) ==
      PreviewPrefix(input, n, w) + Cell(input[n * 3] == 0) + (if (n + 1) % w == 0 then "\n" else "")
  {
  }

  /** Allocates the binarised h x w model input and reports its element
      count, printing the preview as it goes. */
  method GetOutputData(input: array<Byte>, h: nat, w: nat) returns (output: array<real>, outputCount: nat, preview: string)
    requires input.Length == 3 * (h * w)
    ensures outputCount == h * w && output.Length == outputCount
    ensures forall i | 0 <= i < h * w :: (output[i] == 1.0 <==> input[i * 3] == 0) && (output[i] == 0.0 <==> input[i * 3] != 0)
    ensures output[..] == Binarized(input[..], h * w)
    ensures h * w > 0 ==> preview == PreviewPrefix(input[..], h * w, w)
    ensures h * w == 0 ==> preview == ""
    ensures fresh(output)
  {
    var stride := h * w;
    outputCount := stride * 1;
    output := new real[outputCount];
    preview := "";
    ghost var pixels, binarized := input[..], Binarized(input[..], stride);
    for i := 0 to stride
      invariant forall j | 0 <= j < i :: output[j] == binarized[j]
      invariant i == 0 || w > 0
      invariant preview == PreviewPrefix(pixels, i, w)
    {
      PreviewStep(pixels, i, w);
      output[i] := if input[i * 3] == 0 then 1.0 else 0.0;
      assert output[i] == binarized[i];
      var temp := if input[i * 3] == 0 then "**" else "--";
      preview := preview + temp;
      if (i + 1) % w == 0 {
        preview := preview + "\n";
      }
    }
  }

  // ---------------------------------------------------------------------
  // The predicted class

  /** The index std::max_element picks: the first of the highest scores. It
      scans left to right and moves only on a strictly greater score. */
  function ArgMax(s: seq<real>): (k: nat)
    requires |s| > 0
    ensures k < |s|
    ensures forall j | 0 <= j < |s| :: s[j] <= s[k]
    ensures forall j | 0 <= j < k :: s[j] < s[k]
  {
    if |s| == 1 then 0
    else
      var k := ArgMax(s[..|s| - 1]);
      if s[k] < s[|s| - 1] then |s| - 1 else k
  }

  /** The first of the highest scores is the only index with both
      properties: no score above it, none as high before it. */
  lemma ArgMaxUnique(s: seq<real>, k: nat)
    requires k < |s|
    requires forall j | 0 <= j < |s| :: s[j] <= s[k]
    requires forall j | 0 <= j < k :: s[j] < s[k]
    ensures ArgMax(s) == k
  {
  }

  /** The predicted class depends only on how the scores compare, so any
      order-preserving map of the scores (softmax in exact arithmetic)
      predicts the same class. */
  lemma ArgMaxOrderInvariant(s: seq<real>, t: seq<real>)
    requires |s| == |t| > 0
    requires forall i, j | 0 <= i < |s| && 0 <= j < |s| :: s[i] < s[j] <==> t[i] < t[j]
    ensures ArgMax(s) == ArgMax(t)
  {
    var k := ArgMax(s);
    forall j | 0 <= j < |t|
      ensures t[j] <= t[k]
    {
      assert !(s[k] < s[j]);
    }
    ArgMaxUnique(t, k);
  }

  /** Two equal highest scores: the first one wins. */
  lemma ArgMaxTieGoesLeft()
    ensures ArgMax([1.0, 2.0, 3.0, 4.0, 1.0, 2.0, 3.0, 4.0, 1.0, 2.0]) == 3
  {
    var s := [1.0, 2.0, 3.0, 4.0, 1.0, 2.0, 3.0, 4.0, 1.0, 2.0];
    ArgMaxUnique(s, 3);
  }

  // ---------------------------------------------------------------------
  // read_png_file and run_inference

  /** Decodes src and binarises it, printing the preview. Fails (-1) when the
      header cannot be read, when the decoded length is not that of a 28x28
      image, or when the pixel data cannot be decoded. */
  method ReadPngFile(src: PngSource) returns (status: int, height: nat, width: nat, output: array<real>, outputCount: nat, preview: string)
    requires src.Valid()
    ensures status == 0 || status == -1
    ensures status == 0 <==> Decoded(src, Side)
    ensures status == 0 ==>
      height == src.height && width == src.width && height * width == Side * Side &&
      outputCount == height * width && output[..] == Binarized(src.pixels.value, height * width) &&
      preview == PreviewPrefix(src.pixels.value, height * width, width)
    ensures status != 0 ==> preview == ""
  {
    output := new real[0];
    height, width, outputCount, preview := 0, 0, 0, "";
    if !src.opens {
      return -1, height, width, output, outputCount, preview;
    }
    var inputDataLength := ImageSize(src.height, src.width);
    if inputDataLength != Side * Side * 3 {
      return -1, height, width, output, outputCount, preview;
    }
    if src.pixels.None? {
      return -1, height, width, output, outputCount, preview;
    }
    var pixels := src.pixels.value;
    var buffer := new Byte[inputDataLength](k requires 0 <= k < inputDataLength => pixels[k]);
    assert buffer[..] == pixels;
    output, outputCount, preview := GetOutputData(buffer, src.height, src.width);
    width := src.width;
    height := src.height;
    status := 0;
  }

  /** One run of the sample: read and check the image, run the model
      (classify, which also applies softmax) on the binarised input, and
      report the predicted class. The model runs exactly when the image
      decodes and is 28x28; the preview is printed for every decoded image,
      including one that is then rejected. */
  method RunInference(src: PngSource, classify: seq<real> -> seq<real>)
    returns (status: int, ran: bool, result: int, preview: string)
    requires src.Valid()
    requires forall x | |x| == Side * Side :: |classify(x)| == Classes
    ensures status == 0 || status == -1
    ensures ran <==> Admission(src, Side) == Admitted
    ensures status == 0 <==> ran
    ensures ran ==>
      var scores := classify(Binarized(src.pixels.value, Side * Side));
      0 <= result < Classes && result == ArgMax(scores)
    ensures Decoded(src, Side) ==> preview == PreviewPrefix(src.pixels.value, src.height * src.width, src.width)
    ensures !Decoded(src, Side) ==> preview == ""
  {
    ran, result := false, 0;
    var readStatus, inputHeight, inputWidth, modelInput, modelInputCount;
    readStatus, inputHeight, inputWidth, modelInput, modelInputCount, preview := ReadPngFile(src);
    if readStatus != 0 {
      return -1, ran, result, preview;
    }
    if inputHeight != Side || inputWidth != Side {
      return -1, ran, result, preview;
    }
    var results := classify(modelInput[..]);
    ran := true;
    result := ArgMax(results);
    status := 0;
  }

  /** A 30x30 image already fails the length check, before it is decoded. */
  lemma ThirtyByThirtyFailsLengthCheck(src: PngSource)
    requires src.opens && src.height == 30 && src.width == 30
    ensures Admission(src, Side) == WrongLength
  {
  }

  /** A 14x56 image passes the length check, is decoded and previewed, and
      is only then rejected for its size. */
  lemma SameAreaOtherShapeDecodes(src: PngSource)
    requires src.opens && src.height == 14 && src.width == 56 && src.pixels.Some?
    ensures Decoded(src, Side) && Admission(src, Side) == WrongSize
  {
  }

  /** PNG_IMAGE_SIZE wraps: a 848696-wide, 15182-high header reports the
      length of a 28x28 image and passes the length check, but libpng
      refuses to finish reading an image that large. */
  lemma WrappedHeaderFailsAtFinishRead(src: PngSource)
    requires src.Valid() && src.opens && src.height == 15182 && src.width == 848696
    ensures ImageSize(src.height, src.width) == ImageSize(Side, Side)
    ensures Admission(src, Side) == FinishReadFailed
  {
  }
}
