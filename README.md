# ONNX Runtime image samples: layout conversion, binarisation and arg-max

This project models the two C++ sample programs that feed one image to a
pre-trained ONNX model.

- **Style transfer.** `fns_candy_style_transfer` reads a 720x720 BGR image.
  It converts the interleaved (HWC) bytes to a planar (CHW) float tensor and
  runs the model. It then converts the planar output back to interleaved
  bytes and writes a PNG. Output values outside [0, 255] become 0; the rest
  are truncated.
- **Digit classification.** `MNIST` reads a 28x28 image and binarises it on
  the first channel of each pixel: 1.0 where that byte is 0, else 0.0. While
  it does so it prints an ASCII preview. It then runs the model and reports
  the first class with the highest score.

The project has three modules.

- `Png` (png.dfy). The decode stage both samples share. A `PngSource` is
  the outcome of libpng's begin-read and finish-read. `ImageSize` is the
  `PNG_IMAGE_SIZE` length, computed in 32-bit unsigned arithmetic as libpng
  does. `Admission` is the verdict of the fixed-size checks in
  `read_png_file` and `run_inference`.
- `StyleTransfer` (style_transfer.dfy). The index maps `c*stride+i` and
  `i*3+c`, with their inverses and injectivity. The converters `HwcToChw`
  and `ChwToHwc` are array methods with nested loops. Each is proved against
  a whole-buffer function (`PlanarOf`, `InterleavedOf`), and `RoundTrip`
  proves one function inverts the other on bytes. The module also models the
  output-shape check, `read_png_file`, `write_tensor_to_png_file` and
  `run_inference`.
- `Mnist` (mnist.dfy). `GetOutputData` is proved against `Binarized` and
  `PreviewPrefix`, and lemmas show the preview is h lines of w cells. The
  module also has the leftmost arg-max of `std::max_element`,
  `read_png_file` and `run_inference`.

Outside collaborators become parameters:

- Decoding is a `PngSource` value.
- The model is a function: `infer` returns the output tensor; `classify`
  returns the ten scores after softmax.
- Whether the PNG encoder succeeds is a `bool`.

Floats are `real`, bytes are `int` in 0..255, and sizes are unbounded `nat`.

One might expect a 30x30 image sent to the 28x28 sample to fail at the
"please resize" check (MNIST.cc:102-106). It fails earlier, at the
decoded-length check in `read_png_file` (MNIST.cc:71), because 30*30*3 is
not 28*28*3 (`Mnist.ThirtyByThirtyFailsLengthCheck`). Only an image with the right pixel
count but the wrong shape, such as 14x56, reaches the resize check
(`Mnist.SameAreaOtherShapeDecodes`). That image is still binarised and
previewed first.

`PNG_IMAGE_SIZE` is a 32-bit product, and libpng accepts widths and heights
up to 1,000,000 by default, so the length check can be passed by a header
whose true size is far larger. A 943648-wide, 4552-high header reports
1555200 = 720*720*3 bytes, and an 848696-wide, 15182-high one reports
2352 = 28*28*3. Neither run reaches the model: `png_image_finish_read`
refuses an image whose byte count does not fit in 32 bits, so both stop at
the finish-read (`StyleTransfer.WrappedHeaderFailsAtFinishRead`,
`Mnist.WrappedHeaderFailsAtFinishRead`).

## Model

| member | source | states |
|---|---|---|
| `Png.ImageSize` | c_cxx/fns_candy_style_transfer_cxx/fns_candy_style_transfer.cc:76-77 | the length `PNG_IMAGE_SIZE` reports is below 2^32, and is height*width*3 whenever that product fits in 32 bits |
| `Png.Decoded` | c_cxx/fns_candy_style_transfer_cxx/fns_candy_style_transfer.cc:71-85 | read_png_file gets past its checks iff the header reads, the pixels decode and the reported length is the expected one; the decoded pixels then fill exactly the expected length, and the image has side*side pixels whenever that length does not wrap |
| `Png.Admission` | c_cxx/fns_candy_style_transfer_cxx/fns_candy_style_transfer.cc:71-85 | the model is reached iff the header reads, the pixels decode and height and width are both the hard-coded side; a size rejection happens only after the length check passed; a length rejection means the shape is wrong |
| `StyleTransfer.PlanarIndex` | c_cxx/fns_candy_style_transfer_cxx/fns_candy_style_transfer.cc:33-35 | every planar slot `c*stride+i` written by hwc_to_chw (or read by chw_to_hwc) lies in [0, 3*stride) |
| `StyleTransfer.PlanarCoords` | c_cxx/fns_candy_style_transfer_cxx/fns_candy_style_transfer.cc:51-54 | every planar slot below 3*stride is `c*stride+i` for some channel c < 3 and pixel i < stride (the map is onto) |
| `StyleTransfer.PlanarIndexInjective` | c_cxx/fns_candy_style_transfer_cxx/fns_candy_style_transfer.cc:33-35 | distinct (channel, pixel) pairs give distinct planar slots, so each slot is written once |
| `StyleTransfer.InterleavedIndex` | c_cxx/fns_candy_style_transfer_cxx/fns_candy_style_transfer.cc:35 | the interleaved slot `i*3+c` determines pixel i and channel c |
| `StyleTransfer.InterleavedCoords` | c_cxx/fns_candy_style_transfer_cxx/fns_candy_style_transfer.cc:53-56 | every interleaved slot below 3*stride is `i*3+c` for some pixel i < stride and channel c < 3 (the map is onto) |
| `StyleTransfer.InterleavedIndexInjective` | c_cxx/fns_candy_style_transfer_cxx/fns_candy_style_transfer.cc:56 | distinct (pixel, channel) pairs give distinct interleaved slots, so each slot is written once |
| `StyleTransfer.ToByte` | c_cxx/fns_candy_style_transfer_cxx/fns_candy_style_transfer.cc:54-56 | a value below 0 or above 255 becomes byte 0 (not saturated); a value f in [0, 255] becomes the byte b with b <= f < b+1 |
| `StyleTransfer.ToByteOfByte` | c_cxx/fns_candy_style_transfer_cxx/fns_candy_style_transfer.cc:55-56 | a byte converted to float and back is unchanged, so the zeroing branch never fires on it |
| `StyleTransfer.PlanarOf` | c_cxx/fns_candy_style_transfer_cxx/fns_candy_style_transfer.cc:30-31 | the planar tensor of stride pixels has 3*stride elements |
| `StyleTransfer.InterleavedOf` | c_cxx/fns_candy_style_transfer_cxx/fns_candy_style_transfer.cc:49-50 | the interleaved buffer of stride pixels has 3*stride bytes |
| `StyleTransfer.PlanarOfAt` | c_cxx/fns_candy_style_transfer_cxx/fns_candy_style_transfer.cc:33-37 | planar slot `c*stride+i` holds byte `i*3+c` of the image |
| `StyleTransfer.InterleavedOfAt` | c_cxx/fns_candy_style_transfer_cxx/fns_candy_style_transfer.cc:51-57 | interleaved byte `i*3+c` is the converted value of planar slot `c*stride+i` |
| `StyleTransfer.RoundTrip` | c_cxx/fns_candy_style_transfer_cxx/fns_candy_style_transfer.cc:21-60 | converting any buffer of 3*stride bytes to the planar layout and back gives the same buffer |
| `StyleTransfer.HwcToChw` | c_cxx/fns_candy_style_transfer_cxx/fns_candy_style_transfer.cc:29-39 | the output is a newly allocated array; output_count is 3*h*w and is the output's length; `output[c*h*w+i] == input[i*3+c]` for every channel and pixel; the output is PlanarOf(input) |
| `StyleTransfer.ChwToHwc` | c_cxx/fns_candy_style_transfer_cxx/fns_candy_style_transfer.cc:48-60 | the output is a newly allocated array of 3*h*w bytes; `output[i*3+c]` is ToByte of `input[c*h*w+i]`; only the first 3*h*w floats are read; the output is InterleavedOf(input) |
| `StyleTransfer.ToPngUint32` | c_cxx/fns_candy_style_transfer_cxx/fns_candy_style_transfer.cc:118-119 | the cast of an int64 dimension to png_uint_32 is below 2^32 and keeps any dimension that fits |
| `StyleTransfer.OutputImageSize` | c_cxx/fns_candy_style_transfer_cxx/fns_candy_style_transfer.cc:101-110 | the output tensor is accepted iff it has exactly 4 dims with dims[0] = 1 and dims[1] = 3 |
| `StyleTransfer.OutputSizeFitsTensor` | c_cxx/fns_candy_style_transfer_cxx/fns_candy_style_transfer.cc:105-120 | for an accepted tensor, the image chw_to_hwc is given never needs more floats than the tensor holds; when dims[2] and dims[3] fit in 32 bits, the height is dims[2], the width is dims[3] and the image uses the whole tensor |
| `StyleTransfer.ReadPngFile` | c_cxx/fns_candy_style_transfer_cxx/fns_candy_style_transfer.cc:66-91 | returns 0 iff the header reads, the decoded length is 720*720*3 and the pixels decode, else -1; on success it reports the decoded height and width and the planar tensor of the pixels, with its element count |
| `StyleTransfer.WriteTensorToPngFile` | c_cxx/fns_candy_style_transfer_cxx/fns_candy_style_transfer.cc:96-129 | an image goes to the encoder iff the shape is accepted; the image has height dims[2] and width dims[3] (cast to 32 bits) and holds InterleavedOf of the tensor; returns 0 iff an image went to the encoder and the write succeeded |
| `StyleTransfer.RunInference` | c_cxx/fns_candy_style_transfer_cxx/fns_candy_style_transfer.cc:133-182 | the model runs iff the image decodes and is 720x720; it runs on PlanarOf of the pixels; the image written is the converted model output; otherwise -1 and nothing is written |
| `StyleTransfer.IdentityModelRoundTrip` | c_cxx/fns_candy_style_transfer_cxx/fns_candy_style_transfer.cc:142-181 | with a model that returns its input as a 1x3x720x720 tensor, a run on an admitted image succeeds and writes exactly the decoded pixels |
| `StyleTransfer.WrappedHeaderFailsAtFinishRead` | c_cxx/fns_candy_style_transfer_cxx/fns_candy_style_transfer.cc:76-85 | a 943648x4552 header reports the length of a 720x720 image and passes the length check, but the run stops at the finish-read |
| `Mnist.Binarized` | c_cxx/MNIST_cxx/MNIST.cc:43-45 | the model input of stride pixels has stride elements |
| `Mnist.PreviewPrefix` | c_cxx/MNIST_cxx/MNIST.cc:47-52 | after n > 0 pixels the printed text ends with a line break iff n % w == 0, that is, exactly after the last pixel of a row |
| `Mnist.PreviewLength` | c_cxx/MNIST_cxx/MNIST.cc:47-52 | the preview of n pixels is 2*n characters plus one line break per completed row, n / w of them |
| `Mnist.NextQuotient` | c_cxx/MNIST_cxx/MNIST.cc:51 | pixel n ends a row exactly when n % w == 0, and the count of completed rows then goes up by one |
| `Mnist.GetOutputData` | c_cxx/MNIST_cxx/MNIST.cc:42-54 | the output is a newly allocated array; output_count is h*w and is the output's length; `output[i]` is 1.0 iff `input[i*3] == 0`, and 0.0 iff it is not; the preview is the text PreviewPrefix describes |
| `Mnist.OnlyFirstChannelRead` | c_cxx/MNIST_cxx/MNIST.cc:48-49 | two images that agree on byte `i*3` of every pixel give the same model input and the same preview, whatever bytes `i*3+1` and `i*3+2` hold |
| `Mnist.RowTextCells` | c_cxx/MNIST_cxx/MNIST.cc:49-50 | a run of k cells is 2*k characters, "**" exactly at pixels whose first byte is 0 and "--" elsewhere, with no line break |
| `Mnist.ColumnOf` | c_cxx/MNIST_cxx/MNIST.cc:51 | pixel `q*w + r` with r < w is in column r, so `(i+1) % w == 0` holds exactly at the last pixel of a row |
| `Mnist.PreviewPrefixRows` | c_cxx/MNIST_cxx/MNIST.cc:47-52 | after `row*w + k` pixels (k < w) the preview is the finished rows, each ended by a line break, then the first k cells of the next row |
| `Mnist.PreviewPrefixRowsClosed` | c_cxx/MNIST_cxx/MNIST.cc:51 | after a whole number of rows the preview ends with the line break of the last row |
| `Mnist.PreviewIsRows` | c_cxx/MNIST_cxx/MNIST.cc:47-52 | the preview of an h x w image is h rows of w cells, each followed by a line break |
| `Mnist.RowsTextLength` | c_cxx/MNIST_cxx/MNIST.cc:49-51 | the preview of h rows is h*(2*w+1) characters |
| `Mnist.PreviewCellMatchesInput` | c_cxx/MNIST_cxx/MNIST.cc:48-49 | cell j of row r of the preview is "**" exactly where the model input is 1.0, and "--" elsewhere |
| `Mnist.ArgMax` | c_cxx/MNIST_cxx/MNIST.cc:146 | the predicted class indexes the scores; no score exceeds the score there, and every earlier score is strictly smaller |
| `Mnist.ArgMaxUnique` | c_cxx/MNIST_cxx/MNIST.cc:146 | any index with both properties is the one ArgMax picks |
| `Mnist.ArgMaxOrderInvariant` | c_cxx/MNIST_cxx/MNIST.cc:141-146 | two score vectors that compare alike pairwise predict the same class, so any strictly order-preserving map of the scores predicts the same class |
| `Mnist.ArgMaxTieGoesLeft` | c_cxx/MNIST_cxx/MNIST.cc:146 | for scores [1,2,3,4,1,2,3,4,1,2] the predicted class is 3, the first of the two maxima |
| `Mnist.ReadPngFile` | c_cxx/MNIST_cxx/MNIST.cc:60-86 | returns 0 iff the header reads, the decoded length is 28*28*3 and the pixels decode, else -1 with no preview; on success it reports the height and width, the binarised input with its count, and the preview |
| `Mnist.RunInference` | c_cxx/MNIST_cxx/MNIST.cc:90-154 | the model runs iff the image decodes and is 28x28, and then the run returns 0; the result is ArgMax of the model's ten scores on the binarised input, so it is in [0, 10); a decoded image is previewed even when the size check then rejects it |
| `Mnist.ThirtyByThirtyFailsLengthCheck` | c_cxx/MNIST_cxx/MNIST.cc:70-74 | a 30x30 image fails at the decoded-length check |
| `Mnist.SameAreaOtherShapeDecodes` | c_cxx/MNIST_cxx/MNIST.cc:70-106 | a 14x56 image passes the length check, is decoded, and is rejected only by the 28x28 check |
| `Mnist.WrappedHeaderFailsAtFinishRead` | c_cxx/MNIST_cxx/MNIST.cc:70-79 | an 848696x15182 header reports the length of a 28x28 image and passes the length check, but the run stops at the finish-read |

## Left out

- ONNX Runtime. Creating the environment, the session and the tensors,
  `Run`, and the `IsTensor` and input/output-count assertions are not
  modelled: the runtime's source cannot be seen. The model is a function
  parameter. `ORT_ABORT_ON_ERROR` aborts on a runtime error; that path is
  not modelled.
- libpng. `png_image_begin_read_from_file`, `png_image_finish_read`,
  `png_image_write_to_file` and the `PNG_IMAGE_SIZE` macro are file I/O
  through a library that cannot be seen. Their outcomes are inputs: a
  `PngSource` and a `writeOk` flag. `PngSource.Valid` states what these
  functions guarantee. Heights and widths are 32-bit. A finish-read that
  succeeds fills height*width*3 bytes. It refuses ("image too large") an
  image whose byte count does not fit in 32 bits; the model relies on this
  libpng 1.6 behaviour. `ImageSize` is the macro for 8-bit BGR, with its
  32-bit wrap-around.
- `softmax` (MNIST.cc:26-37). It uses float `exp` and float summation, so
  "sums to 1" cannot be stated exactly. `classify` stands for the model
  followed by softmax. `ArgMaxOrderInvariant` states when the predicted
  class is the same before and after an order-preserving map.
- Floating point. Floats are reals. NaN, infinities and float rounding are
  not modelled. With a NaN, the range test in chw_to_hwc passes and the
  cast is undefined. A byte converted to float is exact in 32-bit floats
  too.
- Integer widths. `size_t` sizes are unbounded. In `hwc_to_chw` and
  `get_output_data`, `h*w*3` is the decoded length, which is below 2^32.
  In `chw_to_hwc` it is at most the number of floats the output tensor
  holds (`OutputSizeFitsTensor`). So no 64-bit product wraps. Two 32-bit
  computations are modelled: the
  `PNG_IMAGE_SIZE` product (`ImageSize`) and the int64 to `png_uint_32`
  cast of the output dimensions (`ToPngUint32`).
- `main`. Argument parsing, the execution-provider choice (`cpu`, `cuda`,
  `dml`, and the compile-time switches), and printing "fail." are left
  out: this is argument plumbing. `main` returns 0 whatever
  `run_inference` returns.
- Memory. `malloc`/`free` bookkeeping is not modelled, and neither are the
  leaks. `buffer` is not freed when the finish-read fails. In MNIST.cc,
  `memory_info` is released at line 122 and then passed to
  `CreateTensorWithDataAsOrtValue` at line 132; that call is left out with
  the rest of the runtime.
- Console output other than the preview. The printed decoded length, the
  error messages and the ten printed scores are not modelled.
- `Mnist.RunInference`: the printed "Result : n" line is not modelled; the
  result is returned instead.
