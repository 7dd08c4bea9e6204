/** The style-transfer sample: a 720x720 BGR image is converted from the
    interleaved (HWC) byte layout to the planar (CHW) float layout the model
    takes, and the model's planar output is converted back to bytes. */
module StyleTransfer {
  import opened Png

  /** The only image size the model accepts. */
  const Side: nat := 720

  // ---------------------------------------------------------------------
  // The two index maps

  /** Slot of channel c of pixel i in a planar tensor of 3 * stride floats. */
  function PlanarIndex(c: nat, i: nat, stride: nat): (k: nat)
    requires c < 3 && i < stride
    ensures k < 3 * stride
  {
    c * stride + i
  }

  /** Slot of channel c of pixel i in an interleaved buffer; the slot
      determines both the pixel and the channel. */
  function InterleavedIndex(i: nat, c: nat): (k: nat)
    requires c < 3
    ensures k / 3 == i && k % 3 == c
  {
    i * 3 + c
  }

  /** The channel and pixel a planar slot belongs to: PlanarIndex is onto. */
  function PlanarCoords(k: nat, stride: nat): (ci: (nat, nat))
    requires k < 3 * stride
    ensures ci.0 < 3 && ci.1 < stride && PlanarIndex(ci.0, ci.1, stride) == k
  {
    if k < stride then (0, k)
    else if k < 2 * stride then (1, k - stride)
    else (2, k - 2 * stride)
  }

  /** The pixel and channel an interleaved slot belongs to: InterleavedIndex
      is onto the 3 * stride slots of a buffer of stride pixels. */
  function InterleavedCoords(k: nat, stride: nat): (ic: (nat, nat))
    requires k < 3 * stride
    ensures ic.0 < stride && ic.1 < 3 && InterleavedIndex(ic.0, ic.1) == k
  {
    (k / 3, k % 3)
  }

  /** PlanarIndex is one-to-one, so hwc_to_chw writes each slot once. */
  lemma PlanarIndexInjective(c1: nat, i1: nat, c2: nat, i2: nat, stride: nat)
    requires c1 < 3 && i1 < stride && c2 < 3 && i2 < stride
    requires PlanarIndex(c1, i1, stride) == PlanarIndex(c2, i2, stride)
    ensures c1 == c2 && i1 == i2
  {
    // c * stride is one of 0, stride, 2 * stride
    assert c1 * stride == if c1 == 0 then 0 else if c1 == 1 then stride else 2 * stride;
    assert c2 * stride == if c2 == 0 then 0 else if c2 == 1 then stride else 2 * stride;
  }

  /** InterleavedIndex is one-to-one, so chw_to_hwc writes each slot once. */
  lemma InterleavedIndexInjective(i1: nat, c1: nat, i2: nat, c2: nat)
    requires c1 < 3 && c2 < 3
    requires InterleavedIndex(i1, c1) == InterleavedIndex(i2, c2)
    ensures i1 == i2 && c1 == c2
  {
  }

  // ---------------------------------------------------------------------
  // The two conversions, as functions of whole buffers

  /** The byte chw_to_hwc stores for the float f: a value below 0 or above
      255 becomes 0 (it is not saturated), any other is truncated. */
  function ToByte(f: real): (b: Byte)
    ensures f < 0.0 || f > 255.0 ==> b == 0
    ensures 0.0 <= f <= 255.0 ==> b as real <= f < b as real + 1.0
  {
    if f < 0.0 || f > 255.0 then 0 else f.Floor
  }

  /** The planar tensor of an interleaved buffer of stride pixels. */
  function PlanarOf(b: seq<Byte>, stride: nat): (r: seq<real>)
    requires |b| == 3 * stride
    ensures |r| == 3 * stride
  {
    seq(3 * stride, k requires 0 <= k < 3 * stride =>
      var ci := PlanarCoords(k, stride);
      b[InterleavedIndex(ci.1, ci.0)] as real)
  }

  /** The interleaved bytes of the first 3 * stride floats of a planar tensor. */
  function InterleavedOf(f: seq<real>, stride: nat): (r: seq<Byte>)
    requires 3 * stride <= |f|
    ensures |r| == 3 * stride
  {
    seq(3 * stride, k requires 0 <= k < 3 * stride =>
      var ic := InterleavedCoords(k, stride);
      ToByte(f[PlanarIndex(ic.1, ic.0, stride)]))
  }

  /** Channel c of pixel i of the planar tensor is byte c of pixel i. */
  lemma PlanarOfAt(b: seq<Byte>, stride: nat, c: nat, i: nat)
    requires |b| == 3 * stride && c < 3 && i < stride
    ensures PlanarOf(b, stride)[PlanarIndex(c, i, stride)] == b[InterleavedIndex(i, c)] as real
  {
    var ci := PlanarCoords(PlanarIndex(c, i, stride), stride);
    PlanarIndexInjective(ci.0, ci.1, c, i, stride);
  }

  /** Byte c of pixel i of the interleaved buffer comes from channel c of
      pixel i of the tensor. */
  lemma InterleavedOfAt(f: seq<real>, stride: nat, c: nat, i: nat)
    requires 3 * stride <= |f| && c < 3 && i < stride
    ensures InterleavedOf(f, stride)[InterleavedIndex(i, c)] == ToByte(f[PlanarIndex(c, i, stride)])
  {
    var ic := InterleavedCoords(InterleavedIndex(i, c), stride);
    InterleavedIndexInjective(ic.0, ic.1, i, c);
  }

  /** A buffer holding at every slot the byte its planar element converts
      to is the interleaved image. */
  lemma InterleavedOfPointwise(out: seq<Byte>, f: seq<real>, stride: nat)
    requires 3 * stride <= |f| && |out| == 3 * stride
    requires forall c, i | 0 <= c < 3 && 0 <= i < stride ::
      out[InterleavedIndex(i, c)] == ToByte(f[PlanarIndex(c, i, stride)])
    ensures out == InterleavedOf(f, stride)
  {
    forall k | 0 <= k < 3 * stride
      ensures out[k] == InterleavedOf(f, stride)[k]
    {
      var ic := InterleavedCoords(k, stride);
      InterleavedOfAt(f, stride, ic.1, ic.0);
    }
  }

  /** A byte survives the trip through float: it is in range and integral. */
  lemma ToByteOfByte(x: Byte)
    ensures ToByte(x as real) == x
  {
  }

  /** Converting an image to the planar layout and back gives the image. */
  lemma {:induction false} RoundTrip(b: seq<Byte>, stride: nat)
    requires |b| == 3 * stride
    ensures InterleavedOf(PlanarOf(b, stride), stride) == b
  {
    var p := PlanarOf(b, stride);
    var q := InterleavedOf(p, stride);
    forall k | 0 <= k < 3 * stride
      ensures q[k] == b[k]
    {
      var ic := InterleavedCoords(k, stride);
      InterleavedOfAt(p, stride, ic.1, ic.0);
      PlanarOfAt(b, stride, ic.1, ic.0);
      ToByteOfByte(b[k]);
    }
  }

  // ---------------------------------------------------------------------
  // hwc_to_chw and chw_to_hwc

  /** Allocates the planar float tensor of an interleaved h x w image and
      reports its element count. */
  method HwcToChw(input: array<Byte>, h: nat, w: nat) returns (output: array<real>, outputCount: nat)
    requires input.Length == 3 * (h * w)
    ensures outputCount == 3 * (h * w) && output.Length == outputCount
    ensures forall c, i | 0 <= c < 3 && 0 <= i < h * w ::
      output[PlanarIndex(c, i, h * w)] == input[InterleavedIndex(i, c)] as real
    ensures output[..] == PlanarOf(input[..], h * w)
    ensures fresh(output)
  {
    var stride := h * w;
    outputCount := stride * 3;
    output := new real[outputCount];
    for i := 0 to stride
      invariant forall c', i' | 0 <= c' < 3 && 0 <= i' < i ::
        output[PlanarIndex(c', i', stride)] == input[InterleavedIndex(i', c')] as real
    {
      for c := 0 to 3
        invariant forall c', i' | 0 <= c' < 3 && 0 <= i' < i ::
          output[PlanarIndex(c', i', stride)] == input[InterleavedIndex(i', c')] as real
        invariant forall c' | 0 <= c' < c ::
          output[PlanarIndex(c', i, stride)] == input[InterleavedIndex(i, c')] as real
      {
        forall c', i' | 0 <= c' < 3 && 0 <= i' < stride && (c', i') != (c, i)
          ensures PlanarIndex(c', i', stride) != PlanarIndex(c, i, stride)
        {
          if PlanarIndex(c', i', stride) == PlanarIndex(c, i, stride) {
            PlanarIndexInjective(c', i', c, i, stride);
          }
        }
        output[PlanarIndex(c, i, stride)] := input[InterleavedIndex(i, c)] as real;
      }
    }
    forall k | 0 <= k < 3 * stride
      ensures output[k] == PlanarOf(input[..], stride)[k]
    {
      var ci := PlanarCoords(k, stride);
      PlanarOfAt(input[..], stride, ci.0, ci.1);
    }
  }

  /** Allocates the interleaved byte buffer of the first 3 * h * w floats of
      a planar tensor, zeroing out-of-range values and truncating the rest. */
  method ChwToHwc(input: array<real>, h: nat, w: nat) returns (output: array<Byte>)
    requires 3 * (h * w) <= input.Length
    ensures output.Length == 3 * (h * w)
    ensures forall c, i | 0 <= c < 3 && 0 <= i < h * w ::
      output[InterleavedIndex(i, c)] == ToByte(input[PlanarIndex(c, i, h * w)])
    ensures output[..] == InterleavedOf(input[..], h * w)
    ensures fresh(output)
  {
    var stride := h * w;
    output := new Byte[stride * 3];
    for c := 0 to 3
      invariant forall c', i' | 0 <= c' < c && 0 <= i' < stride ::
        output[InterleavedIndex(i', c')] == ToByte(input[PlanarIndex(c', i', stride)])
    {
      var t := c * stride;
      // the channel's offset, without the product
      assert t == if c == 0 then 0 else if c == 1 then stride else 2 * stride;
      for i := 0 to stride
        invariant forall c', i' | 0 <= c' < c && 0 <= i' < stride ::
          output[InterleavedIndex(i', c')] == ToByte(input[PlanarIndex(c', i', stride)])
        invariant forall i' | 0 <= i' < i ::
          output[InterleavedIndex(i', c)] == ToByte(input[PlanarIndex(c, i', stride)])
      {
        assert t + i == PlanarIndex(c, i, stride);
        var f := input[t + i];
        if f < 0.0 || f > 255.0 {
          f := 0.0;
        }
        output[InterleavedIndex(i, c)] := f.Floor;
      }
    }
    InterleavedOfPointwise(output[..], input[..], stride);
  }

  // ---------------------------------------------------------------------
  // The output tensor and its shape check

  /** A float tensor as the inference runtime returns it: its dimensions
      and its elements in row-major order. */
  datatype Tensor = Tensor(dims: seq<int>, data: seq<real>)
  {
    /** What the runtime guarantees of a tensor it returns. */
    predicate Valid()
    {
      (forall k | 0 <= k < |dims| :: dims[k] >= 0) && |data| == Product(dims)
    }
  }

  /** The number of elements of a tensor with the given dimensions: the
      product of the dimensions, 1 for a scalar. */
  function Product(dims: seq<int>): (p: int)
  {
    if dims == [] then 1 else dims[0] * Product(dims[1..])
  }

  /** The C conversion of an int64 dimension to png_uint_32 (modulo 2^32). */
  function ToPngUint32(d: int): (u: nat)
    ensures u < U32
    ensures 0 <= d < U32 ==> u == d
  {
    d % U32
  }

  /** The height and width write_tensor_to_png_file gives the output image,
      or None when it rejects the tensor's shape: there must be exactly four
      dimensions, a batch of 1 and 3 channels. */
  function OutputImageSize(dims: seq<int>): (r: Option<(nat, nat)>)
    ensures r.Some? <==> |dims| == 4 && dims[0] == 1 && dims[1] == 3
  {
    if |dims| != 4 then None
    else if dims[0] != 1 || dims[1] != 3 then None
    else Some((ToPngUint32(dims[2]), ToPngUint32(dims[3])))
  }

  lemma ProductOfFour(dims: seq<int>)
    requires |dims| == 4
    ensures Product(dims) == dims[0] * (dims[1] * (dims[2] * dims[3]))
  {
    calc {
      Product(dims);
      dims[0] * Product(dims[1..]);
      dims[0] * (dims[1] * Product(dims[2..]));
      { assert dims[2..][1..] == dims[3..]; }
      dims[0] * (dims[1] * (dims[2] * Product(dims[3..])));
      { assert dims[3..][1..] == []; }
      dims[0] * (dims[1] * (dims[2] * (dims[3] * 1)));
    }
  }

  lemma MulMonotonic(a: nat, b: nat, x: nat, y: nat)
    requires a <= x && b <= y
    ensures a * b <= x * y
  {
    calc {
      a * b;
    <= { assert a * b <= x * b; }
      x * b;
    <= { assert x * (y - b) >= 0; }
      x * y;
    }
  }

  /** chw_to_hwc never reads past the tensor: the image it is given has at
      most as many samples as the tensor holds, and exactly as many with the
      height dims[2] and width dims[3] when both fit in 32 bits. */
  lemma {:induction false} OutputSizeFitsTensor(t: Tensor)
    requires t.Valid() && OutputImageSize(t.dims).Some?
    ensures var (h, w) := OutputImageSize(t.dims).value; 3 * (h * w) <= |t.data|
    ensures t.dims[2] < U32 && t.dims[3] < U32 ==>
      OutputImageSize(t.dims) == Some((t.dims[2] as nat, t.dims[3] as nat)) && 3 * (t.dims[2] * t.dims[3]) == |t.data|
  {
    var (h, w) := OutputImageSize(t.dims).value;
    var d2, d3 := t.dims[2], t.dims[3];
    assert t.dims[0] >= 0 && t.dims[1] >= 0 && d2 >= 0 && d3 >= 0;
    ProductOfFour(t.dims);
    assert h <= d2 && w <= d3;
    MulMonotonic(h, w, d2, d3);
  }

  // ---------------------------------------------------------------------
  // read_png_file, write_tensor_to_png_file and run_inference

  /** Decodes src and converts it to the planar layout. Fails (-1) when the
      header cannot be read, when the decoded length is not that of a
      720x720 image, or when the pixel data cannot be decoded. */
  method ReadPngFile(src: PngSource) returns (status: int, height: nat, width: nat, output: array<real>, outputCount: nat)
    requires src.Valid()
    ensures status == 0 || status == -1
    ensures status == 0 <==> Decoded(src, Side)
    ensures status == 0 ==>
      height == src.height && width == src.width && height * width == Side * Side &&
      outputCount == 3 * (height * width) && output[..] == PlanarOf(src.pixels.value, height * width)
  {
    output := new real[0];
    height, width, outputCount := 0, 0, 0;
    if !src.opens {
      return -1, height, width, output, outputCount;
    }
    var inputDataLength := ImageSize(src.height, src.width);
    if inputDataLength != Side * Side * 3 {
      return -1, height, width, output, outputCount;
    }
    if src.pixels.None? {
      return -1, height, width, output, outputCount;
    }
    var pixels := src.pixels.value;
    var buffer := new Byte[inputDataLength](k requires 0 <= k < inputDataLength => pixels[k]);
    assert buffer[..] == pixels;
    output, outputCount := HwcToChw(buffer, src.height, src.width);
    width := src.width;
    height := src.height;
    status := 0;
  }

  /** The image write_tensor_to_png_file hands to the encoder: its height,
      width and interleaved bytes. */
  datatype PngImage = PngImage(height: nat, width: nat, bytes: seq<Byte>)

  /** Checks the output tensor's shape, converts it to interleaved bytes and
      hands them to the encoder, whose success is writeOk. Returns 0 only
      when the shape is accepted and the write succeeds. */
  method WriteTensorToPngFile(tensor: Tensor, writeOk: bool) returns (status: int, image: Option<PngImage>)
    requires tensor.Valid()
    ensures status == 0 || status == -1
    ensures image.Some? <==> OutputImageSize(tensor.dims).Some?
    ensures image.Some? ==>
      var (h, w) := OutputImageSize(tensor.dims).value;
      image.value.height == h && image.value.width == w &&
      3 * (h * w) <= |tensor.data| && image.value.bytes == InterleavedOf(tensor.data, h * w)
    ensures status == 0 <==> image.Some? && writeOk
  {
    if |tensor.dims| != 4 {
      return -1, None;
    }
    var dims := tensor.dims;
    if dims[0] != 1 || dims[1] != 3 {
      return -1, None;
    }
    var f := new real[|tensor.data|](k requires 0 <= k < |tensor.data| => tensor.data[k]);
    assert f[..] == tensor.data;
    var height := ToPngUint32(dims[2]);
    var width := ToPngUint32(dims[3]);
    OutputSizeFitsTensor(tensor);
    var modelOutputBytes := ChwToHwc(f, height, width);
    image := Some(PngImage(height, width, modelOutputBytes[..]));
    status := if writeOk then 0 else -1;
  }

  /** One run of the sample: read and check the image, run the model (infer)
      on the planar tensor, and write the model's output. The model runs
      exactly when the image decodes and is 720x720. */
  method RunInference(src: PngSource, infer: seq<real> -> Tensor, writeOk: bool)
    returns (status: int, ran: bool, image: Option<PngImage>)
    requires src.Valid()
    requires forall x | |x| == 3 * (Side * Side) :: infer(x).Valid()
    ensures status == 0 || status == -1
    ensures ran <==> Admission(src, Side) == Admitted
    ensures !ran ==> image == None
    ensures ran ==>
      var out := infer(PlanarOf(src.pixels.value, Side * Side));
      (image.Some? <==> OutputImageSize(out.dims).Some?) &&
      (image.Some? ==>
        var (h, w) := OutputImageSize(out.dims).value;
        3 * (h * w) <= |out.data| && image.value == PngImage(h, w, InterleavedOf(out.data, h * w)))
    ensures status == 0 <==> ran && image.Some? && writeOk
  {
    ran, image := false, None;
    var readStatus, inputHeight, inputWidth, modelInput, modelInputCount := ReadPngFile(src);
    if readStatus != 0 {
      return -1, ran, image;
    }
    if inputHeight != Side || inputWidth != Side {
      return -1, ran, image;
    }
    var outputTensor := infer(modelInput[..]);
    ran := true;
    status, image := WriteTensorToPngFile(outputTensor, writeOk);
  }

  /** With a model that returns its input as a 1x3x720x720 tensor, a run
      writes back exactly the image it read. */
  method IdentityModelRoundTrip(src: PngSource) returns (status: int, image: Option<PngImage>)
    requires src.Valid() && Admission(src, Side) == Admitted
    ensures status == 0
    ensures image == Some(PngImage(Side, Side, src.pixels.value))
  {
    var identity := (x: seq<real>) => Tensor([1, 3, Side, Side], x);
    forall x | |x| == 3 * (Side * Side)
      ensures identity(x).Valid()
    {
      ProductOfFour(identity(x).dims);
    }
    var ran;
    status, ran, image := RunInference(src, identity, true);
    RoundTrip(src.pixels.value, Side * Side);
  }

  /** PNG_IMAGE_SIZE wraps: a 943648-wide, 4552-high header reports the
      length of a 720x720 image and passes the length check, but libpng
      refuses to finish reading an image that large. */
  lemma WrappedHeaderFailsAtFinishRead(src: PngSource)
    requires src.Valid() && src.opens && src.height == 4552 && src.width == 943648
    ensures ImageSize(src.height, src.width) == ImageSize(Side, Side)
    ensures Admission(src, Side) == FinishReadFailed
  {
  }
}
