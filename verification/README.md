# Virtual camera: a verified model

akvirtualcamera feeds frames from a broadcasting program to the programs that watch a virtual camera. This project
models its frame path in Dafny and proves properties of it, for all inputs, all runs and all interleavings.

Check everything with `dafny verify dfyconfig.toml`.

## What is modelled

- **Frame layout** (`FrameLayout`, `Samples`, `PixelBytes`): the pixel format table, plane offsets and alignment,
  sub-sampled addressing, and which byte holds every sample of every pixel.
- **Colour** (`ColorConvert.dfy`, `ColorTheorems`, `Compositing`, `ColorAccuracy`, `ColorAccuracyInverse`,
  `ColorRoundTrip`): the fixed-point matrices, what rounding does to ranges, greys, depth conversion and compositing,
  how far the results are from the colour equations over the reals, and how far a colour moves there and back. `/` is
  C++ division (toward zero), `>>` rounds down.
- **Scaling** (`Scaling`, `Boxes`, `ConvertParameters`, `IntegralImage.dfy`, `Upscale`, `ResizedSamples`): output
  geometry, index maps, the tables built from them, box averaging through integral images, three-tap blending, and what
  they make of a frame's samples.
- **Pixel loops** (`BitFields`, `PixelLoops`, `OutputSamples`): the word-and-bit-field loops and their single-byte
  twins, over whole output buffers in which several pixels write one chroma byte.
- **Whole conversions and the slot cache** (`Conversion`, `ConversionTheorems`, `ConversionAccuracy`, `ConverterCache`,
  `Converter`, `Answers`): what one request means without a cache, the object that reuses configured slots, tables and
  buffers from frame to frame, and the size, format and samples of everything it answers.
- **The broker** (`Broker`, `BrokerRuns`): handlers as methods on the slot map, then every interleaving of them, with
  `listen` suspended in the middle. A listener's wait may end at any time (notification, timeout or spurious wake-up).
- **The wire** (`Bytes`, `Wire`, `Lockstep`, `Messages`): partial sends and receives, framing, lock-step exchanges as a
  byte-level state machine of both ends, and the message codecs. A socket is a byte channel whose chunk sizes the
  system chooses freely.
- **Pixel adjustment** (`VideoAdjusts`, `HslTheorems`): integer HSL, and what each setting does to a colour.

The main results, hardest first:

1. `Converter.VideoConverter.Run`: over any run of setters, `begin`, `convert`, `end` and `reset`, the cached converter
   gives every frame the samples that the settings in force alone determine. All four aspect modes take part; in Fit
   mode the border of a reused frame survives from its first fill.
2. `Answers.ReferenceSize` and `Answers.ReferenceSample` say what those frames are, for every pair of byte formats,
   scaling mode and aspect mode: their format and size, which pixel of a chroma group decides a sample, and how far that
   sample is from the exact colour equations of the resized input (`ConversionAccuracy.ConvertedSample`,
   `ResizedSamples`, `PixelBytes.SampleByte`). `ConversionTheorems.BorderSample` says what all other samples are.
   `ByteLoopsRefine`, `NothingWraps` and `RgbRoundTrip` complete the picture.
3. `ConvertParameters.FrameConvertParameters.Downscale`, `Boxes.ReadsMeans` and `Boxes.Conservation`: what the
   integral-image scaler computes, exactly when that is the naive box mean, and exactly when no source sample is lost or
   counted twice.
4. `ColorAccuracy.Rgb2YuvAccurate` and `ColorAccuracyInverse.Yuv2RgbAccurate`: at every bit depth the integer matrices
   are less than two codes from the exact equations; `ColorRoundTrip.RgbReturnsNear` combines the two into a bound on
   RGB to YUV and back. `ColorTheorems.WidenNarrow`, `Rgb2YuvRawRange`, `GreyIsNeutral`
   and `NeutralIsGreyInStudio` say where the rounding error vanishes altogether or cannot leave the range.
5. `BrokerRuns.WaitingSlotSurvives`, `RepliesCarryLastFrame`, `ListenersWaitForFrames`, `BroadcastersTakeTurns`: safety
   of the broker over every interleaving.
6. `Lockstep.ExchangesMatch` and `Messages.BroadcastRoundTrip`: requests, replies and frames survive any splitting of
   the byte stream.
7. `HslTheorems.ColorReturns` and `HslTheorems.OrderKept`: what the integer HSL model keeps of a colour.

## Hypotheses

They are `requires` clauses, never hidden:

- An integral buffer starts with a zero row 0 and column 0 (`IntegralImages.ZeroBorder`, carried by
  `ConverterCache.Memory.Fits`). The code clears it with a byte count where an element count is meant
  (VCamUtils/src/videoconverter.cpp:8467-8470). A new output frame holds arbitrary bytes, as it does in the code.
- In Fit mode the samples of a new output frame, after `fillRgb`, are a given function of its format
  (`Conversion.Fill`, required by `ConverterCache.Memory.Fits`). `fillRgb` leaves the last line of a sub-sampled plane
  alone when the height is odd (VCamUtils/src/videoframe.cpp:853-864); there the hypothesis is about the allocator too.
- The linear enlarger needs a source rectangle of two by two samples (VCamUtils/src/videoconverter.cpp:8731).
  `Conversion.Served` collects this, the line bounds below and what Fit mode asks of its border;
  `ConversionTheorems.ServedWithoutCrop` and `ServedWithCrop` give its exact meaning.
- Broker messages name a device and carry a non-zero process id, client ids are not reused, and a connection runs one
  handler at a time, its disconnect last (`BrokerRuns.Enabled`).

## Where the code differs from its documentation or its evident intent

The model follows the code.

- The comment on `blend` allows weights up to 2^N (VCamUtils/src/videoconverter.cpp:240-243); the tables stop at N, so
  an enlarged sample barely moves from its source sample (`Upscale.BlendBarelyMoves`).
- Above 8 bits the studio luma ceiling is too high, 944 instead of 940 at 10 bits
  (`ColorMatrices.StudioLimitsMeetStandard`).
- An opaque alpha darkens RGB samples above mid-scale by one code (`Compositing.RgbAlpha`), and at 8 bits in studio
  swing lowers nearly every chroma code by one (`Compositing.OpaqueTints`, exactly which in `Compositing.YuvAlpha`).
- In full swing neutral YUV pixels come out tinted at every depth and in every colour space
  (`ColorTheorems.FullSwingRaw`), so they stay grey in studio swing only (`ColorTheorems.NeutralIsGreyInStudio`).
- `isFast` does not ask for 8 bits; in the table this makes no difference (`FrameLayout.TableFastFormats`).
- Lines of the chroma plane of NV12 and NV21 run past the plane for odd heights, unless a line takes 32 bytes
  (`FrameLayout.LinesInPlane`).
- A picture shrunk to one column or line in Keep or Fit mode leaves out the last source column or line
  (`Boxes.KeepLosesColumn`; `Boxes.Conservation` has the exact condition).
- Averaging boxes are cut at the frame, not at the input rectangle, so the last one can take in samples from outside
  (`Boxes.CropLeaks`; `Scaling.BoxesInRectangle` has the exact condition).
- In Fit mode the averaging loops divide by areas of other lines when there is a border above the picture
  (`Boxes.LetterboxMisread`), and by areas of other columns when the picture ends behind the source width
  (`Boxes.WideMisread`). `Boxes.ReadsMeans` and `Boxes.AreasRightWhole` have the exact conditions. Under an input
  rectangle such an area can be zero (`Boxes.CropDividesByZero`). The areas of an output too tall or too wide do not fit
  into their table (`Boxes.Room`).
- In Fit mode the blending loops can read a sample beyond the source (`Upscale.FitReadsPast`;
  `Scaling.NextSourceInside` has the exact condition).
- The crop of Expanding mode leaves its rectangle when that starts too far from the origin (`Scaling.CropInside`).
- An input rectangle is ignored when the output has the input's format and size
  (`ConversionTheorems.RectangleIgnored`).
- Word size is chosen by colour depth, so the packed 16-bit formats are read and written byte by byte: little-endian
  ones keep just their third component, big-endian ones lose all three (`BitFields.PackedNeedsWords`).
- The decoders add up announced sizes without regard to overflow: payloads of 8, 16 and 17 bytes that announce nearly
  2^64 bytes are accepted (`Messages.WrappedListen`, `WrappedBroadcast`, `WrappedFrameReady`). A frame reply also copies
  more bytes than its frame has, if it announces more (`Messages.ReplyOverflows`).
- A frame without bytes loses its format and size on the wire (`Messages.BroadcastRoundTrip`).
- Raising the saturation turns greys red (`HslTheorems.GreysTurnRed`).
- Client 0 can leave its entry behind, since its id also marks a vacant broadcaster (`BrokerRuns.ClientZeroMisled`).
  Any client leaves entries behind after listening twice: a disconnect takes one (`Broker.RemoveTakesOne`).

## Model

| member | source | states |
|---|---|---|
| `ColorMatrices.RoundedDivNearest` | VCamUtils/src/colorconvert.cpp:541-552 | the rounded quotient is a nearest integer to the exact quotient, for either sign of the dividend |
| `ColorMatrices.RoundedDivExact` | VCamUtils/src/colorconvert.cpp:541-552 | a multiple of the divisor divides exactly |
| `ColorMatrices.PowOf2NearIsNearest` | VCamUtils/src/colorconvert.cpp:554-566 | no power of two is nearer to the value than the one returned |
| `ColorMatrices.ColorConvert.NearestPowOf2` | VCamUtils/src/colorconvert.cpp:554-566 | the shifting loop returns that power |
| `ColorMatrices.LimitsProper` | VCamUtils/src/colorconvert.cpp:568-610 | from two bits up, in both swings, the luma and chroma ranges are proper and inside the channel; studio chroma is centred on mid-scale |
| `ColorMatrices.StudioLimitsMeetStandard` | VCamUtils/src/colorconvert.cpp:568-610 | from 8 bits up the luma floor and both chroma limits are those of Recommendation ITU-R BT.601-7, section 2.5.3, scaled to the depth; the luma ceiling is the standard's at 8 bits only and too high at every other depth |
| `ColorMatrices.ColorConvert.ComputeLimitsY` | VCamUtils/src/colorconvert.cpp:568-592 | the two out-parameters are the luma range |
| `ColorMatrices.ColorConvert.ComputeLimitsUV` | VCamUtils/src/colorconvert.cpp:594-610 | the two out-parameters are the chroma range |
| `ColorMatrices.ColorConvert.LoadAbc2xyzMatrix` | VCamUtils/src/colorconvert.cpp:612-644 | the matrix field becomes the diagonal depth-conversion matrix; nothing else changes |
| `ColorMatrices.ColorConvert.LoadRgb2yuvMatrix` | VCamUtils/src/colorconvert.cpp:646-717 | the matrix field becomes the RGB to YUV matrix of the colour space and swing |
| `ColorMatrices.ColorConvert.LoadYuv2rgbMatrix` | VCamUtils/src/colorconvert.cpp:719-780 | the matrix field becomes the YUV to RGB matrix of the colour space and swing |
| `ColorMatrices.ColorConvert.LoadAlphaRgbMatrix` | VCamUtils/src/colorconvert.cpp:952-965 | the alpha field becomes the matrix that `Compositing.RgbAlpha` is about |
| `ColorMatrices.ColorConvert.LoadAlphaYuvMatrix` | VCamUtils/src/colorconvert.cpp:967-1002 | the alpha field becomes the matrix that `Compositing.YuvAlpha` is about |
| `ColorTheorems.DepthConversion` | VCamUtils/src/colorconvert.h:97-103 | for all six depths and every in-range sample the unbounded diagonal form stays in range, and takes black to black and peak to peak |
| `ColorTheorems.DepthConversionMonotone` | VCamUtils/src/colorconvert.h:97-103 | depth conversion keeps the order of samples on every channel |
| `ColorTheorems.SameDepthIdentity` | VCamUtils/src/colorconvert.cpp:612-644 | between equal depths the diagonal form is the identity on every integer |
| `ColorTheorems.WidenNarrow` | VCamUtils/src/colorconvert.cpp:612-644 | widening from n to any m of at least n bits and narrowing back is the identity on every sample |
| `ColorTheorems.Rgb2YuvRawRange` | VCamUtils/src/colorconvert.cpp:646-717 | for all depths of at least two, all colour spaces and both swings, bounding moves luma by at most one code (upward range only) and chroma by at most one code (downward range only) |
| `ColorTheorems.GreyIsNeutral` | VCamUtils/src/colorconvert.cpp:646-717 | equal red, green and blue of equal depth give chroma within one code of mid-scale |
| `ColorTheorems.NeutralIsGrey` | VCamUtils/src/colorconvert.cpp:719-780 | in studio swing, mid-scale chroma gives equal red, green and blue for every luma code |
| `ColorTheorems.NeutralIsGreyInStudio` | VCamUtils/src/colorconvert.cpp:719-780 | at equal depths of at least two bits, in every colour space, neutral pixels of all luma codes come out grey if and only if the swing is studio swing |
| `ColorTheorems.FullSwingRaw` | VCamUtils/src/colorconvert.cpp:719-780 | in full swing, at every such depth and in every colour space, red and blue come out one code above luma, green at luma or one code below |
| `ColorTheorems.FullSwingTints` | VCamUtils/src/colorconvert.cpp:719-780 | at 8 bits in BT.601 green is one code below for every luma code |
| `ColorTheorems.GreyRamp` | VCamUtils/src/colorconvert.cpp:719-780 | that grey is monotone in luma, and takes the luma floor to 0 and the luma ceiling to the channel maximum |
| `ColorAccuracy.Rgb2YuvAccurate` | VCamUtils/src/colorconvert.cpp:646-717 | for all depths of at least two, all colour spaces and both swings, each of the three fixed-point results is less than two codes from the colour equation over the reals, before it is bounded |
| `ColorAccuracy.StandardWeights` | VCamUtils/src/colorconvert.cpp:490-545 | the weights in those equations are the decimals of Recommendations ITU-R BT.601, BT.709 and BT.2020 and of SMPTE 240M, and a third each for the average |
| `ColorAccuracyInverse.Yuv2RgbAccurate` | VCamUtils/src/colorconvert.cpp:719-780 | the same for YUV to RGB, for every combination of codes, in or out of the nominal ranges |
| `ColorAccuracyInverse.EquationsInvert` | VCamUtils/src/colorconvert.cpp:719-780 | the two sets of real equations the matrices approximate are inverse to each other |
| `ColorRoundTrip.ReturnsNear` | VCamUtils/src/colorconvert.cpp:646-780 | for every RGB colour, depth, colour space and swing, conversion to YUV and back moves red and blue by less than 2 + 5.8 g codes and green by less than 2 + 7.4 g, g being the ratio of the RGB range to the coded ranges |
| `ColorRoundTrip.RgbReturnsNear` | VCamUtils/src/colorconvert.cpp:646-780 | so from 8 bits up red and blue come back within eight codes and green within ten; in full swing within seven and nine at all depths from two bits |
| `Compositing.RgbAlpha` | VCamUtils/src/colorconvert.cpp:952-965 | compositing never brightens, full transparency is black, and full opacity keeps a sample exactly when it is not above mid-scale |
| `Compositing.YuvAlpha` | VCamUtils/src/colorconvert.cpp:967-1002 | at all depths and in both swings: full transparency gives the luma floor with mid-scale chroma; full opacity keeps exactly the codes up to mid-scale plus a stated slack and takes one code off the others; partial opacity lies between |
| `Compositing.OpaqueTints` | VCamUtils/src/colorconvert.cpp:967-1002 | at 8 bits in studio swing, opaque pixels keep luma up to 144 and of the chroma codes only 0 and 1; all others lose one code |
| `FrameLayout.TablePlanes` | VCamUtils/src/videoformat.cpp:79-255 | every plane of every table format has whole-byte pixels and regularly stepped components; all but the packed 16-bit formats are plain bytes with no two samples on one byte |
| `FrameLayout.TableComponents` | VCamUtils/src/videoformat.cpp:79-255 | every table format has just the three components of its colour family, and just two formats add alpha |
| `FrameLayout.FastComponentsMeaning` | VCamUtils/src/videoformatspec.cpp:210-236 | the running-depth scan accepts exactly the specifications with unshifted components of one power-of-two depth, however large |
| `BitFields.PowerOfTwoTest` | VCamUtils/src/videoformatspec.cpp:223-226 | a depth shares no bit with its predecessor exactly when it is a power of two |
| `FrameLayout.TableFastFormats` | VCamUtils/src/videoformatspec.cpp:210-236 | although the scan never asks for 8 bits, a table format passes it exactly when it is not packed into 16 bits, and then all its components are single bytes |
| `FrameLayout.AlignUpMultiple` | VCamUtils/src/algorithm.h:29-33 | aligning a multiple of the alignment leaves it alone |
| `FrameLayout.FrameParams.UpdateParams` | VCamUtils/src/videoframe.cpp:774-816 | the loop fills offset, size, line size and sub-sampling of every plane, and the total size |
| `FrameLayout.DataSize` | VCamUtils/src/videoformat.cpp:511-539 | the format computes the same total size as the frame built from it |
| `FrameLayout.PlanesDisjoint` | VCamUtils/src/videoframe.cpp:774-816 | planes start on 32-byte boundaries, do not overlap and end inside the buffer |
| `FrameLayout.LinesInPlane` | VCamUtils/src/videoframe.cpp:713-725 | all lines lie in their plane exactly when the height is even, or the plane is not sub-sampled, or its lines take one alignment unit |
| `FrameLayout.ComponentInLine` | VCamUtils/src/videoframe.cpp:713-725 | every component access of a pixel lies in its line, odd widths included |
| `FrameLayout.SamplesDistinct` | VCamUtils/src/videoframe.cpp:713-725 | two accesses to one plane of plain bytes meet exactly when they are accesses to one sample of one component |
| `Samples.SampleRange` | VCamUtils/src/videoconverter.cpp:537-563 | a sample read through a word and a field is at most the component's maximum |
| `Samples.TableFramesReadable` | VCamUtils/src/videoframe.cpp:713-725 | every sample of every pixel of a table-format frame lies in the frame's buffer |
| `IntegralImages.IntegralImage1` | VCamUtils/src/videoconverter.cpp:1037-1070 | two running lines turn the samples into their integral image, whatever the interior of the buffer held |
| `IntegralImages.FourCorners` | VCamUtils/src/videoconverter.cpp:355-367 | four corners of the integral image give the sum over the box |
| `IntegralImages.BoxMeanRange` | VCamUtils/src/videoconverter.cpp:355-367 | a box average lies between any bounds on the samples of the box |
| `Scaling.FittedSizeFits` | VCamUtils/src/videoconverter.cpp:8677-8696 | the fitted size never exceeds the target, meets it in one dimension, and misses the aspect ratio by less than a pixel |
| `Scaling.ActiveWindow` | VCamUtils/src/videoconverter.cpp:8698-8701 | the active window has the fitted size, is centred and lies in the output, in every mode |
| `Scaling.CropFits` | VCamUtils/src/videoconverter.cpp:8714-8725 | the crop of Expanding mode is the whole rectangle in one dimension at least and has the output's aspect ratio to within a sample; of a rectangle at the origin it is the middle |
| `Scaling.CropInside` | VCamUtils/src/videoconverter.cpp:8714-8725 | so it lies inside its rectangle exactly under the stated condition on the rectangle's origin |
| `Scaling.GeometryMeans` | VCamUtils/src/videoconverter.cpp:8656-8726 | mode by mode, without naming the functions that compute them: output size, picture size and the part of the source that is shown |
| `Scaling.SourceRectMeans` | VCamUtils/src/videoconverter.cpp:8656-8659 | the source rectangle holds just the samples of the frame that lie in the input rectangle, if there is one |
| `Scaling.MapsBracket` | VCamUtils/src/videoconverter.cpp:8731-8741 | source and destination maps bracket every output pixel |
| `Scaling.WeightRange` | VCamUtils/src/videoconverter.cpp:8742-8775 | every interpolation weight lies between 0 and 8 |
| `Scaling.WeightMeans` | VCamUtils/src/videoconverter.cpp:8742-8775 | it is the number of eighths a pixel has gone from the image of its own sample to that of the next, rounded down, and none on the image itself |
| `Scaling.WeightGrows` | VCamUtils/src/videoconverter.cpp:8742-8775 | it never falls from pixel to pixel of one source sample |
| `Scaling.SourceIndexInside` | VCamUtils/src/videoconverter.cpp:8742-8775 | source indices stay in the rectangle exactly when it is two samples wide or the window is one pixel |
| `Scaling.NextSourceInside` | VCamUtils/src/videoconverter.cpp:8742-8775 | so does the index of the next sample the blend uses, exactly when the window reaches the end of the output, the axis is enlarged, or a single pixel shows several samples |
| `Scaling.BoxNotEmpty` | VCamUtils/src/videoconverter.cpp:8742-8775 | every averaging box of a shrinking axis holds at least one sample and ends inside the frame |
| `Scaling.BoxesInRectangle` | VCamUtils/src/videoconverter.cpp:8742-8775 | the boxes stay inside the input rectangle exactly when the last one does, out * (size - 1) / (out - 1) <= size, or when the rectangle reaches the end of the frame |
| `Boxes.CropLeaks` | VCamUtils/src/videoconverter.cpp:8742-8775 | a request whose second box averages eight columns and lines from outside the input rectangle |
| `Scaling.BoxesTile` | VCamUtils/src/videoconverter.cpp:8742-8775 | boxes of a whole axis follow each other without gap or overlap and reach its end |
| `Scaling.SinglePixel` | VCamUtils/src/videoconverter.cpp:8742-8775 | a single output pixel averages all samples of its axis but the last, unless there is just one |
| `ConvertParameters.FrameConvertParameters.ConfigureScaling` | VCamUtils/src/videoconverter.cpp:8651-8841 | the geometry is the one `Scaling.GeometryMeans` is about, and every per-column, per-line and per-pixel table is the map, weight, box end or box area it stands for, in every request that does not divide by zero and has room for its areas |
| `ConvertParameters.FrameConvertParameters.FillColumns` | VCamUtils/src/videoconverter.cpp:8742-8775 | the column loop fills the column tables |
| `ConvertParameters.FrameConvertParameters.FillLines` | VCamUtils/src/videoconverter.cpp:8777-8801 | the line loop fills the line tables in both of its forms |
| `ConvertParameters.FrameConvertParameters.FillAreas` | VCamUtils/src/videoconverter.cpp:8808-8835 | whenever the flat area table has room, it holds the box area of every output pixel; of lines longer than the source all but the last lose what is behind the source width to the line after |
| `ConvertParameters.FrameConvertParameters.DownscaleLine` | VCamUtils/src/videoconverter.cpp:2684-2727 | one line of the shrinking loop yields the box sums over the areas met |
| `ConvertParameters.FrameConvertParameters.DownscaleComponent` | VCamUtils/src/videoconverter.cpp:2671-2732 | the moving area pointer meets, at every window pixel of every line, the area of the pixel named by `Boxes.MetPixel` |
| `ConvertParameters.FrameConvertParameters.Downscale` | VCamUtils/src/videoconverter.cpp:2671-2732 | from frame bytes to output: every value is the sum of its box of samples over the area met, and where all pixels meet their own area its floored mean; nothing of the buffer's earlier contents shows |
| `Boxes.BoxReadIsMean` | VCamUtils/src/videoconverter.cpp:355-367 | corner difference divided by table area equals the naive mean, with a positive area, at every pixel that meets the area of its own box |
| `Boxes.ReadsMeans` | VCamUtils/src/videoconverter.cpp:2671-2732 | every value of every image is the mean of its box if and only if every window pixel meets the area of its own box; bitmaps are enough to tell |
| `Boxes.AreasRightWithoutBorder` | VCamUtils/src/videoconverter.cpp:8808-8835 | in Ignore, Keep and Expanding mode every pixel of every shrinking request does, and the table always has room |
| `Boxes.AreasRightWhole` | VCamUtils/src/videoconverter.cpp:2676-2678 | of whole frames whose window ends within the source width, Fit mode included, all pixels do if and only if there is no border above the picture or the picture has one line at most |
| `Scaling.ShiftedBoxes` | VCamUtils/src/videoconverter.cpp:8742-8775 | because box sizes repeat at the distance of the border only if there is no border or just one box |
| `Boxes.LetterboxMisread` | VCamUtils/src/videoconverter.cpp:2676-2678 | six by six samples fitted into three by five pixels: under the line of border a picture of hundreds comes out as 150 |
| `Boxes.WideMisread` | VCamUtils/src/videoconverter.cpp:8824-8834 | 640 by 480 samples fitted into 800 by 450 pixels: without a border above, a pixel behind the source width meets the area of the next line, and a picture of hundreds comes out as 50 there |
| `Boxes.WideServed` | VCamUtils/src/videoconverter.cpp:8824-8834 | 640 by 480 samples fitted into 700 by 360 pixels: wider than the source, with room for the areas, and all of them right |
| `Boxes.WholeDivides` | VCamUtils/src/videoconverter.cpp:2676-2727 | in whole frames, Fit mode included, no pixel meets an area below one |
| `Boxes.CropDividesByZero` | VCamUtils/src/videoconverter.cpp:8824-8834 | with an input rectangle in Fit mode one can: five by five out of five by eight samples, fitted into four by eight pixels, start with an area of zero |
| `Boxes.Conservation` | VCamUtils/src/videoconverter.cpp:8731-8788 | in whole-frame shrinking, for all images, the boxes of all output pixels add up to the sum of all source samples if and only if no axis of several samples is reduced to a single pixel or to none; in Ignore mode this is always so |
| `Boxes.KeepLosesColumn` | VCamUtils/src/videoconverter.cpp:8675-8696 | a hundred by four hundred samples kept in four by four pixels become one column, which leaves out the last of the hundred |
| `Upscale.BlendConvex` | VCamUtils/src/videoconverter.cpp:240-252 | for weights up to 2^N the blend lies between the smallest and largest of its three samples |
| `Upscale.BlendBarelyMoves` | VCamUtils/src/videoconverter.cpp:240-252 | with the weights the tables hold, it moves by at most a thirty-second of their spread |
| `Upscale.IgnoreAndKeepCover` | VCamUtils/src/videoconverter.cpp:8651-8841 | in Ignore and Keep mode a rectangle of two by two samples is enough for every index to stay inside |
| `Upscale.FitReadsPast` | VCamUtils/src/videoconverter.cpp:8742-8775 | a Fit request whose last picture column blends with a sample beyond the source |
| `Upscale.TapsInside` | VCamUtils/src/videoconverter.cpp:389-418 | all three taps of every pixel are in the source and both weights in range |
| `Upscale.UpscaleConvex` | VCamUtils/src/videoconverter.cpp:389-418 | every enlarged value lies between the smallest and largest of its three source samples |
| `Upscale.UpscaleComponent` | VCamUtils/src/videoconverter.cpp:6752-6785 | the enlarging loop yields the blended value of every pixel of the window |
| `ResizedSamples.SourceMapped` | VCamUtils/src/videoconverter.cpp:8731-8741 | the source map takes, in the proportion of the spans, the last source sample no further on than the pixel, and no other; the first pixel shows the first sample and the last pixel the last |
| `ResizedSamples.ModeBySize` | VCamUtils/src/videoconverter.cpp:8703-8709 | a picture counts as enlarged if it is larger than the source rectangle in some dimension, as shrunk if it is smaller in some and larger in none |
| `ResizedSamples.NearestSample` | VCamUtils/src/videoconverter.cpp:537-563 | in fast scaling, and where nothing changes size, the resized sample is the input's sample at the mapped source pixel |
| `ResizedSamples.BlendedSample` | VCamUtils/src/videoconverter.cpp:389-418 | in linear scaling of an enlarged picture it is the input's sample plus, in 512ths, the column weight times the step to the next pixel's sample and the line weight times the step to the sample below |
| `ResizedSamples.AveragedSample` | VCamUtils/src/videoconverter.cpp:355-367 | in linear scaling of a shrunk picture it is the floored mean of the input's samples from that of the pixel up to that of the next one, across and down |
| `PixelBytes.SampleByte` | VCamUtils/src/videoformat.cpp:79-255 | every sample of every format of one byte per component is the byte at the position that the format's memory order prescribes |
| `BitFields.InsertSplices` | VCamUtils/src/videoconverter.cpp:957-977 | masking out and OR-ing in a value replaces just the bits of its field |
| `BitFields.PackedPixelRoundTrip` | VCamUtils/src/videoconverter.cpp:957-977 | the three components of a packed 16-bit pixel, written one after the other into any word, read back as written |
| `BitFields.OneByteEnough` | VCamUtils/src/videoconverter.cpp:537-563 | reading a component through one byte gives what its two-byte word gives, for all frames, exactly when it lies in the low eight bits of a little-endian word; never for a big-endian word, whose first byte is its high one |
| `BitFields.PackedNeedsWords` | VCamUtils/src/videoconverter.cpp:8485-8511 | so with the word size the converter picks for them, little-endian packed formats keep just their third component, and big-endian ones none |
| `BitFields.BigEndianLosesThird` | VCamUtils/src/algorithm.h:51-60 | for the bytes 1, 0 the third component reads 0 through the word and 1 through the byte |
| `PixelLoops.ReadPixel` | VCamUtils/src/videoconverter.cpp:537-599 | the word read and the byte read give the samples of the pixel |
| `PixelLoops.WritePixel` | VCamUtils/src/videoconverter.cpp:957-1032 | writes the three or four components of one pixel and no other byte, by fields or by bytes |
| `PixelLoops.ConvertLine` | VCamUtils/src/videoconverter.cpp:1270-1296 | one line of a conversion loop |
| `PixelLoops.ConvertFrame` | VCamUtils/src/videoconverter.cpp:1256-1890 | the generic loops and the byte loops, in all four alpha modes, for both kernels, leave the buffer their specification says |
| `PixelLoops.WriteGrid` | VCamUtils/src/videoconverter.cpp:2671-2732 | the writing half of the linear loops, at any window |
| `PixelLoops.FastIsGeneric` | VCamUtils/src/videoconverter.cpp:1256-1890 | between formats of plain bytes the byte loops leave the whole output buffer exactly as the generic loops do |
| `OutputSamples.FrameSamples` | VCamUtils/src/videoconverter.cpp:1256-1890 | with sub-sampled components, the sample of a group ends up as the byte of the last pixel, in reading order, that shares it |
| `OutputSamples.LastInClosed` | VCamUtils/src/videoconverter.cpp:8756-8759 | that pixel is the last of its group, or of the window when the window cuts the group |
| `OutputSamples.FrameSparesOutside` | VCamUtils/src/videoconverter.cpp:1256-1890 | bytes that are no sample of the window keep their value |
| `OutputSamples.SameSamplesAfterwards` | VCamUtils/src/videoconverter.cpp:1256-1890 | two buffers with any contents agree on every sample after the same picture is written |
| `OutputSamples.NothingCarriedOver` | VCamUtils/src/videoconverter.cpp:7782-7800 | writing one picture over another leaves the buffer that writing it alone would |
| `Conversion.WriterReady` | VCamUtils/src/videoconverter.cpp:8489-8649 | for every served request, in all four aspect modes, the writer stays in its frame, writes plain bytes, and keeps the samples of different components apart, across planes too |
| `Conversion.SourcesReady` | VCamUtils/src/videoconverter.cpp:8489-8649 | and every source sample lies in the input frame |
| `ConversionTheorems.ServedWithoutCrop` | VCamUtils/src/videoconverter.cpp:8651-8841 | in Ignore, Keep and Fit mode with a two by two rectangle, a request is served exactly when the lines of both frames lie inside them and, in Fit mode, the border fits: room in the area table, for an averaged picture the areas of its own boxes (`Boxes.AreasRightWhole` says when), and no border after an axis that is blended but not enlarged |
| `ConversionTheorems.ServedWithCrop` | VCamUtils/src/videoconverter.cpp:8711-8726 | in Expanding mode with a crop of two by two, exactly when besides the lines the crop lies inside the frame |
| `ConversionTheorems.ByteLoopsRefine` | VCamUtils/src/videoconverter.cpp:7453-7512 | for every pair of byte formats the loops chosen refine the generic ones on the whole buffer |
| `ConversionAccuracy.YuvCodes` | VCamUtils/src/colorconvert.cpp:646-717 | at 8 bits, for every colour space and swing, each code of the RGB to YUV matrix, bounded, is less than two codes from the colour equation |
| `ConversionAccuracy.RgbCodes` | VCamUtils/src/colorconvert.cpp:719-780 | at 8 bits each code of the YUV to RGB matrix is less than two codes from the exact value, cut to 0 to 255 |
| `ConversionAccuracy.RowOver` | VCamUtils/src/colorconvert.h:122-130 | one row of the alpha matrices at 8 bits is less than two codes from compositing its code over black |
| `ConversionAccuracy.WriterParts` | VCamUtils/src/colorconvert.cpp:296-404 | which matrix a conversion loads: by the families of the two formats, for the colour space and swing that are set |
| `ConversionAccuracy.ConvertedSample` | VCamUtils/src/videoconverter.cpp:7726-7802 | for every component of every pair of byte formats, scaling mode, aspect mode and size: the sample a picture pixel shares is, read back, what the deciding pixel of its group makes of the resized input. Inside a family that is the input's sample; alpha is the input's or opaque; between families it is less than two codes from the exact colour equation for the colour space and swing that are set; alpha that has no place is composited over black, exactly as stated inside RGB and to less than four codes in YUV |
| `ConversionTheorems.BorderSample` | VCamUtils/src/videoconverter.cpp:8837-8840 | every other sample, around the picture of Fit mode, is that of the filled frame |
| `ConversionTheorems.RectangleIgnored` | VCamUtils/src/videoconverter.cpp:7778-7782 | outside Keep mode, an output with the input's format and size is the input frame itself, whatever the input rectangle |
| `ConversionTheorems.SampleIsByte` | VCamUtils/src/videoconverter.cpp:355-441 | nearest, averaged and blended samples are bytes again, so no cast cuts them |
| `ConversionTheorems.NothingWraps` | VCamUtils/src/colorconvert.h:89-134 | no matrix, vector or alpha result wraps when it is stored in a byte |
| `ConversionTheorems.SameFamilyMoves` | VCamUtils/src/videoconverter.cpp:1594-1890 | inside a colour family a component of the output is the resized input component of the same name at the deciding pixel |
| `ConversionTheorems.UnscaledMoves` | VCamUtils/src/videoconverter.cpp:7726-7802 | with nothing to scale it is the input sample itself |
| `ConversionTheorems.RgbServed` | VCamUtils/src/videoconverter.cpp:8651-8841 | every unscaled request between such RGB formats, from two by two pixels up, is served |
| `ConversionTheorems.RgbRoundTrip` | VCamUtils/src/videoconverter.cpp:7726-7802 | between RGB formats of plain bytes, converting there and back reads back every red, green and blue sample as it was |
| `ConverterCache.CacheSlot.Configure` | VCamUtils/src/videoconverter.cpp:8489-8649 | whatever the slot held before, kernel, alpha mode, path and matrices become those of the request |
| `ConverterCache.CacheSlot.LoadMatrix` | VCamUtils/src/colorconvert.cpp:296-404 | loads the matrix of the format pair, the one `ConversionAccuracy.WriterParts` tells by family; the alpha matrix only when the input has alpha |
| `ConverterCache.CacheSlot.ConfigureScaling` | VCamUtils/src/videoconverter.cpp:8651-8841 | tables, integral buffers and output frame become those of the request |
| `ConverterCache.CacheSlot.Update` | VCamUtils/src/videoconverter.cpp:7751-7776 | after reconfiguring, the stored key implies everything derived from it |
| `ConverterCache.CacheSlot.ReadPicture` | VCamUtils/src/videoconverter.cpp:7454-7490 | the linear scalers hand over the blended or averaged picture of the request |
| `ConverterCache.CacheSlot.ConvertFast8Bits` | VCamUtils/src/videoconverter.cpp:7453-7512 | the slot's output frame gets the samples a freshly filled frame would get, and the slot stays coherent |
| `ConverterCache.ReusedBuffer` | VCamUtils/src/videoconverter.cpp:7782-7802 | whatever pictures a reused output frame holds, all samples come out as on the frame it was first written on |
| `ConverterCache.BorderKept` | VCamUtils/src/videoconverter.cpp:8837-8840 | because writing a picture leaves every sample of the border as it was filled |
| `Converter.VideoConverter.ConvertCached` | VCamUtils/src/videoconverter.cpp:7726-7802 | one cached conversion gives the samples of a converter without history, advances the slot index and keeps all slots coherent |
| `Converter.VideoConverter.Convert` | VCamUtils/src/videoconverter.cpp:7608-7622 | the public call, with its two early returns, gives the answer that the `Answers` theorems describe, sample by sample |
| `Answers.ReferenceSize` | VCamUtils/src/videoconverter.cpp:7608-7622 | that answer: empty for a frame without format, size or bytes; otherwise in the format that is set, or the frame's own if none is, and of the size that is set, in Keep mode of the largest size within it with the source's aspect ratio |
| `Answers.ReferenceConverts` | VCamUtils/src/videoconverter.cpp:7608-7622 | an answer of the frame's own format and size is the frame itself, all others are conversions |
| `Answers.ReferenceSample` | VCamUtils/src/videoconverter.cpp:7608-7622 | and every sample of those, for every component, pair of byte formats, scaling mode, aspect mode and size, is what the colour equations make of the resized input at the deciding pixel |
| `Converter.VideoConverter.Adjust` | VCamUtils/src/videoconverter.cpp:7596-7669 | setters, begin, end and reset change just their settings and keep the cache coherent |
| `Converter.VideoConverter.Run` | VCamUtils/src/videoconverter.cpp:7596-7802 | over any run of setters, begin, convert, end and reset within the first block of slots, in all four aspect modes, every frame matches, sample by sample, what the settings in force alone determine |
| `Answers.RunAnswers` | VCamUtils/src/videoconverter.cpp:7596-7622 | conversion by conversion, those frames are the answers under the settings in force at their turn |
| `Answers.LastSetterCounts` | VCamUtils/src/videoconverter.cpp:7596-7669 | of several setters of one setting the last one counts, and a setting that no setter touches stays |
| `Answers.SlotsCounted` | VCamUtils/src/videoconverter.cpp:7596-7606 | begin and end start counting slots anew: each conversion after them takes the next one |
| `Broker.ServicePrivate.Broadcast` | Service/src/service.cpp:211-258 | the whole new slot map and the status of a broadcast |
| `Broker.ServicePrivate.ListenEnter` | Service/src/service.cpp:260-280 | the whole new slot map up to the wait, and when it waits |
| `Broker.ServicePrivate.ListenResume` | Service/src/service.cpp:282-290 | the reply, and the slot map after the wait, in which no frame is ready |
| `Broker.ServicePrivate.RemoveClientById` | Service/src/service.cpp:132-174 | the whole new slot map, for any iteration order |
| `Broker.ServicePrivate.Clients` | Service/src/service.cpp:176-209 | exactly the process ids of the requested peers, each once |
| `Broker.BroadcastExclusive` | Service/src/service.cpp:222-257 | while a device has a broadcaster, a broadcast by anyone else fails and changes nothing |
| `Broker.RemoveTakesOne` | Service/src/service.cpp:132-174 | a disconnect takes exactly one of the client's entries, if it has any, unless a vacant slot is mistaken for client 0 |
| `Broker.RemoveSparesOthers` | Service/src/service.cpp:132-174 | a disconnect leaves other clients' entries, their order, and all frames alone |
| `BrokerRuns.StepKeeps` | Service/src/service.cpp:132-290 | every handler keeps the broker invariant |
| `BrokerRuns.RunKeeps` | Service/src/service.cpp:132-290 | so every run does |
| `BrokerRuns.WaitingSlotSurvives` | Service/src/service.cpp:270-286 | in every interleaving the slot a waiting listener references exists, holds its entry, and was never erased meanwhile |
| `BrokerRuns.RepliesCarryLastFrame` | Service/src/service.cpp:270-286 | every reply carries the last frame accepted on its device since the slot was created, or the empty frame; it says the device is active only if somebody was accepted there, and inactive only if all those have left |
| `BrokerRuns.ListenersWaitForFrames` | Service/src/service.cpp:270-286 | a listener goes on without waiting exactly when a frame was accepted on the device after the last reply on it, since the slot was created |
| `BrokerRuns.RejectedOnlyWhenTaken` | Service/src/service.cpp:222-257 | a broadcast is rejected only on a device on which one was accepted since its slot was created |
| `BrokerRuns.BroadcastersTakeTurns` | Service/src/service.cpp:222-257 | two clients are accepted on one device only if the first left in between |
| `BrokerRuns.DisconnectTakesOne` | Service/src/service.cpp:132-174 | in every reachable state there is no orphan slot, and a disconnect takes exactly one entry of any client but a misled client 0 |
| `BrokerRuns.ClientZeroMisled` | Service/src/service.cpp:142-171 | a reachable state in which client 0 disconnects and keeps its entry |
| `Bytes.FromLeOfLe` | VCamUtils/src/sockets.cpp:76-126 | an integer read back from its bytes is the integer |
| `Bytes.LeOfFromLe` | VCamUtils/src/sockets.cpp:76-126 | bytes written back from their integer are the bytes |
| `Bytes.ByteWeights` | VCamUtils/src/sockets.cpp:76-126 | byte i of an integer counts 256 to the i |
| `Wire.DecodeOfEncode` | VCamUtils/src/sockets.cpp:76-126 | decoding a framed message gives it back |
| `Wire.EncodeOfDecode` | VCamUtils/src/sockets.cpp:76-126 | every complete frame is the encoding of what it decodes to |
| `Wire.CompleteOnlyWhole` | VCamUtils/src/sockets.cpp:113-126 | a prefix of a framed message is complete only when it is the whole |
| `Wire.PrefixFree` | VCamUtils/src/sockets.cpp:76-126 | a byte stream splits into messages in one way only |
| `Wire.Send` | VCamUtils/src/sockets.cpp:53-74 | however the system splits the data, success means all of it went out, in order; failure means a prefix did |
| `Wire.Recv` | VCamUtils/src/sockets.cpp:90-111 | the bytes received are exactly those taken off the stream; success means all were received |
| `Wire.SendVector` | VCamUtils/src/sockets.cpp:76-88 | length then contents |
| `Wire.SendMessage` | VCamUtils/src/messageclient.cpp:273-289 | the three sends put exactly the framed message on the stream |
| `Wire.ReceiveMessage` | VCamUtils/src/messageserver.cpp:231-245 | a message is delivered only whole, and exactly its bytes leave the stream |
| `Wire.ReceiveStream` | VCamUtils/src/messageserver.cpp:231-245 | the messages of a stream come out unchanged and in order |
| `Lockstep.StepKeeps` | VCamUtils/src/messageserver.cpp:231-284 | every byte transfer and handler step keeps the connection invariant |
| `Lockstep.ExchangesMatch` | VCamUtils/src/messageclient.cpp:258-326 | in every run the handler sees the requests in order, reply i is its output for request i, and one request at most is outstanding |
| `Lockstep.QuietBetweenExchanges` | VCamUtils/src/messageclient.cpp:258-326 | between exchanges no byte is in transit and the server is at the start of a message |
| `Lockstep.TransfersProgress` | VCamUtils/src/sockets.cpp:53-126 | every transfer shortens what is left of the exchange |
| `Lockstep.NeverStuck` | VCamUtils/src/messageclient.cpp:258-326 | while both ends run, an unfinished exchange has a next step |
| `Messages.FormatOfFourCc` | VCamUtils/src/videoformattypes.h:26-92 | every table format is found under its own code |
| `Messages.CodeOfLetters` | VCamUtils/src/videoformattypes.h:26-92 | every code is made of the four characters of its format, in reverse for the big-endian 16-bit formats |
| `Messages.ListenOnWire` | VCamUtils/src/message.cpp:935-955 | where the fields of a listen request are in the bytes of the message, header included |
| `Messages.BroadcastOnWire` | VCamUtils/src/message.cpp:769-814 | where those of a broadcast are |
| `Messages.FrameReadyOnWire` | VCamUtils/src/message.cpp:542-588 | where those of a frame reply are |
| `Messages.StatusToMessage` | VCamUtils/src/message.cpp:232-239 | the payload of a status |
| `Messages.ListenToMessage` | VCamUtils/src/message.cpp:935-955 | the payload of a listen request, copied piece by piece |
| `Messages.BroadcastToMessage` | VCamUtils/src/message.cpp:769-814 | the payload of a broadcast |
| `Messages.FrameReadyToMessage` | VCamUtils/src/message.cpp:542-588 | the payload of a frame reply |
| `Messages.StatusRoundTrip` | VCamUtils/src/message.cpp:198-239 | a decoded encoded status is the status |
| `Messages.ListenRoundTrip` | VCamUtils/src/message.cpp:880-955 | a decoded encoded listen request is the request, whatever lies behind the payload |
| `Messages.ListenAcceptsEncodings` | VCamUtils/src/message.cpp:880-910 | a listen payload is accepted exactly when it is the encoding of some request or the sum of sizes wraps at 2^64; exactly in the latter case the copy leaves the payload; a name size within the payload makes acceptance mean an encoding |
| `Messages.WrappedListen` | VCamUtils/src/message.cpp:880-910 | the eight bytes F8 FF FF FF FF FF FF FF are such a payload |
| `Messages.FrameRebuilt` | VCamUtils/src/videoframe.cpp:424-441 | the rebuilt frame has just the encoded number of bytes and gets them all |
| `Messages.EmptyFrameConstructed` | VCamUtils/src/videoframe.cpp:413-416 | a default frame is one the constructors leave, so the round trips cover it |
| `Messages.BroadcastRoundTrip` | VCamUtils/src/message.cpp:679-814 | a decoded encoded broadcast is the broadcast exactly when its frame has bytes or is the default frame; otherwise just the frame's format and size are lost |
| `Messages.BroadcastAcceptsWhole` | VCamUtils/src/message.cpp:679-742 | a broadcast payload is accepted exactly when its announced parts fill it or their sum wraps, and exactly then a copy leaves the payload |
| `Messages.WrappedBroadcast` | VCamUtils/src/message.cpp:679-742 | a payload of sixteen bytes whose sum wraps |
| `Messages.FrameReadyRoundTrip` | VCamUtils/src/message.cpp:455-588 | the same for a frame reply with its active flag |
| `Messages.FrameReadyAcceptsWhole` | VCamUtils/src/message.cpp:455-515 | the same acceptance; a copy also goes wrong exactly when more bytes are announced than the announced frame has |
| `Messages.WrappedFrameReady` | VCamUtils/src/message.cpp:455-515 | a payload of seventeen bytes whose sum wraps |
| `Messages.ReplyOverflows` | VCamUtils/src/message.cpp:505-511 | a reply that is accepted and written past its frame |
| `HslTheorems.HexSector` | VCamUtils/src/videoadjusts.cpp:412-434 | every colour that is not grey is placed in the one of six sectors, and as far into it, as its position on the hexagon says |
| `HslTheorems.ColorReturns` | VCamUtils/src/videoadjusts.cpp:412-477 | through hue, saturation and lightness and back every channel of every colour returns: raised by five codes at most, lowered by seven at most |
| `HslTheorems.OrderKept` | VCamUtils/src/videoadjusts.cpp:314-343 | without a turn of the hue, every colour that is not grey keeps the order of its channels, ties included, at every saturation and luminance |
| `HslTheorems.LuminanceMoves` | VCamUtils/src/videoadjusts.cpp:314-343 | at all settings luminance moves the lightness by what is set, as far as there is room |
| `HslTheorems.SaturationSpreads` | VCamUtils/src/videoadjusts.cpp:314-343 | more saturation never brings the extremes together, and the least leaves a grey |
| `HslTheorems.HueTurns` | VCamUtils/src/videoadjusts.cpp:314-343 | a hue set a third of a turn further rotates the channels of the result, at all settings |
| `VideoAdjusts.HslToRgbRange` | VCamUtils/src/videoadjusts.cpp:436-477 | largest and smallest component depend on saturation and lightness only, and all three are bytes |
| `VideoAdjusts.LightnessKept` | VCamUtils/src/videoadjusts.cpp:436-477 | they add up to twice the lightness, one less for odd chroma |
| `VideoAdjusts.NoCastWraps` | VCamUtils/src/videoadjusts.cpp:314-343 | for all settings and pixels the adjusted components are stored uncut |
| `HslTheorems.GreyMoves` | VCamUtils/src/videoadjusts.cpp:314-343 | greys stay grey while saturation is not raised, moved by the luminance that is set, whatever the hue |
| `HslTheorems.GreysTurnRed` | VCamUtils/src/videoadjusts.cpp:314-343 | raised saturation turns greys red, unless its product with the room there is rounds to nothing |
| `VideoAdjusts.HueKeepsExtremes` | VCamUtils/src/videoadjusts.cpp:314-343 | turning the hue by any angle moves the largest component down by at most two codes and the smallest by at most one |
| `VideoAdjusts.ThirdTurnRotates` | VCamUtils/src/videoadjusts.cpp:436-477 | a third of a turn is an exact rotation of the channels |
| `VideoAdjusts.AdjustHsl` | VCamUtils/src/videoadjusts.cpp:314-343 | every pixel of the picture is adjusted in place, as the `HslTheorems` describe, nothing between the lines is touched |

## Left out

- ConvertParameters.FrameConvertParameters.ConfigureScaling: does not cover the two cases the code has no answer for: areas that leave their table (`Boxes.Room`; Fit mode only, `Boxes.AlwaysRoom`) and division by zero (`Scaling.Divides`; rectangles that miss the frame).
- ConvertParameters.FrameConvertParameters.FillAreas: the same for areas that leave their table.
- ConvertParameters.FrameConvertParameters.DownscaleLine: does not cover requests in which the code divides by an area below one (`Boxes.CropDividesByZero`); they have an input rectangle, in Fit mode (`Boxes.WholeDivides`).
- ConvertParameters.FrameConvertParameters.DownscaleComponent: the same.
- ConvertParameters.FrameConvertParameters.Downscale: the same.
- ConverterCache.CacheSlot.ConfigureScaling: covers served requests. `Conversion.Served` leaves out the requests above and, in linear scaling only, shrinking whose values are not the means of their boxes (exactly those that fail `Boxes.ReadsMeans`).
- ConverterCache.CacheSlot.Configure: packed 16-bit formats, which are read and written a byte at a time, are not served.
- Conversion.Served: the colour `fillRgb` gives the border of Fit mode is not part of this model; the filled frame is a parameter.
- Converter.VideoConverter.Run: covers the first block of slots only; growing the cache copies slots without their matrices, colour settings and rectangle. Packed 16-bit formats, which read and write wrong bytes anyway, are not served.
- Messages.BroadcastRoundTrip: frames have no frame rate, which is not sent; payloads are shorter than 2^64 bytes, as any buffer is.
- Messages.FrameRebuilt: a rebuilt frame larger than the announced bytes is zero-filled in the model and uninitialised in the code; negative sizes are taken as empty. Neither arises from an encoded constructed frame.
- Messages.DecodeListen: what a copy beyond the payload or the frame does is left at `OutOfBounds`; reading a size field beyond the payload gives an arbitrary value.
- Broker.ServicePrivate.RemoveClientById: the order in which the map is iterated is a parameter.
- BrokerRuns.StepKeeps: the server's handler mutex is not modelled; it only removes interleavings.
- VideoAdjusts.AdjustHsl: a pixel is a record of four bytes, not a packed word.
- PixelLoops.ConvertFrame: one loop with a kernel, an alpha mode and a byte switch stands for the sixteen loops of three components to three.
- ConverterCache.CacheSlot.ReadPicture: reads the whole picture before it is written; the loops interleave reading and writing, which touch different frames.
- The fast shrinking loop for matrix conversions with alpha at both ends writes alpha at the third component's offset (VCamUtils/src/videoconverter.cpp:3164); no pair of table formats reaches it.
- Grey formats, their matrices and their loops: the table has none. The grey alpha matrix uses its shift as a scale (VCamUtils/src/colorconvert.cpp:1014).
- Sums of samples are exact integers; the code sums in floating point, exact at these sizes. Machine integers are unbounded except where a width is part of a format.
- `MsgClients` decoding accepts one-client payloads only (VCamUtils/src/message.cpp:302-312), so no round trip is claimed.
- Gamma and contrast tables (floating-point powers), mirroring, channel swap and the order of adjustments (VCamUtils/src/videoadjusts.cpp:243-250).
- Sockets, threads, timers, shared memory, logging, BMP loading, preferences and the command line: system calls and plumbing.
