# zune-image frames and the bilateral filter, in Dafny

This project models two parts of the zune-image library.

- **Frames** (`crates/zune-image/src/frame.rs`). A frame is a group of planar channels plus a display duration. The model covers:
  - building a frame;
  - selecting the channels a colourspace looks at, with the trailing alpha channel optionally left out;
  - appending a channel, and replacing all of them;
  - the three ways of packing the planes into one interleaved buffer:
    - `flatten<T>`, which zips and `flat_map`s the typed views;
    - `flatten_rgba`, which expands one to four byte channels into 4-byte RGBA pixels inside a caller's buffer;
    - `u16_to_native_endian`, which writes every 16-bit sample as its two bytes in the host's order.
- **Bilateral filter** (`crates/zune-imageprocs/src/bilateral_filter.rs`). The model covers:
  - the filter's parameters, name and supported bit types;
  - `init_bilateral`, which builds the colour weight table and the space weight table of the disc-shaped window;
  - the per-pixel kernel, and the traversal of a channel;
  - the sequential channel loop of `execute_impl`, which filters every non-alpha channel of a frame and replaces it, stopping at the first error.

The model is split into modules:

- `Pixels` (`pixels.dfy`): bit types, channels, errors and colourspace layouts.
- `Interleaving` (`interleave.dfy`): `zip` followed by `flat_map`, over any number of planes.
- `Lattice` (`lattice.dfy`): the offsets the nested offset loops of `init_bilateral` visit, and their positions in the square window.
- `Frames` (`frame.dfy`): the `Frame` class, and the packing loops as methods on arrays.
- `Bilateral` (`bilateral.dfy`): the filter.

Representation choices:

- Channels are values: a kind plus the sequence of their elements.
- The frame is a class whose `channels` field the mutating methods reassign.
- The loops that fill buffers in place are methods over `array`s, proved against the functions that specify the finished buffer.
- The two weight tables are built by methods whose results are tied to functions, `ColorTable` and `SpaceTable`, and properties are proved about those functions.

Three defects of `bilateral_filter.rs` are recorded under "## Findings". Each is modelled twice:

- as written, with a lemma that exhibits the failure;
- corrected, with the intended property proved.

The channel-level members (`Filtered`, `BilateralFilterInt`, `ChannelOutcome`, `FilterChannel`, `Run`, `FilterChannels`) take a `Kernel`:

- `AsWritten` is the source's per-pixel closure, `BilateralPixelAsWritten`;
- `Corrected` is the corrected closure, `PixelAt`.

`execute_impl` is modelled twice:

- `ExecuteImplAsWritten` builds the coefficients with `InitBilateralAsWritten`. Its panic comes before any channel is touched. Otherwise it runs the channel loop with the `AsWritten` kernel.
- `ExecuteImpl` builds them with `InitBilateral`, which never panics, and runs the loop with the `Corrected` kernel.

`Channel::len` is a byte count in the code, and the model follows the code. `u16_to_native_endian` (frame.rs:285-310) sizes its output as `len() * components` bytes, and it fills that buffer with two bytes per sample. Its test (frame.rs:366-378) expects exactly that buffer, so `ByteLen` counts bytes.

## Model

| member | source | states |
|---|---|---|
| Pixels.NewWithBitType | crates/zune-imageprocs/src/bilateral_filter.rs:91 | a channel of the requested kind whose byte length is the requested length, every element zero |
| Pixels.ReinterpretAs | crates/zune-imageprocs/src/bilateral_filter.rs:95 | the typed view succeeds exactly when the channel holds that kind, and then is the channel's elements; otherwise it is `WrongTypeId(actual, expected)` |
| Interleaving.MinLen | crates/zune-image/src/frame.rs:233-237 | a `zip` yields as many items as the shortest plane: a bound on every plane that is the length of one of them |
| Interleaving.Interleave | crates/zune-image/src/frame.rs:228-264 | the packed sequence has one item per plane for each item the `zip` yields |
| Interleaving.InterleaveAt | crates/zune-image/src/frame.rs:245-249 | item `k` of plane `i` lands at position `k n + i`, and the packed length is `MinLen * n` |
| Interleaving.InterleaveSingle | crates/zune-image/src/frame.rs:226 | one plane packs to itself, as the one-component arm copies the channel |
| Interleaving.InterleaveBounded | crates/zune-image/src/frame.rs:292-345 | packing keeps every sample below a bound every plane keeps, so 16-bit samples stay 16-bit |
| Lattice.LatticePoints | crates/zune-imageprocs/src/bilateral_filter.rs:165-176 | the offsets the two nested loops visit, row by row and left to right, keeping those within distance `r`; `LatticeMembers`, `LatticeAscending` and `LatticeCount` state what that sequence is |
| Lattice.LatticeMembers | crates/zune-imageprocs/src/bilateral_filter.rs:167-172 | an offset is visited exactly when it lies in the `(2r+1)`-square and within distance `r` of the centre (both directions) |
| Lattice.LatticeAscending | crates/zune-imageprocs/src/bilateral_filter.rs:167-168 | offsets are visited in strictly increasing row-major order, so none twice |
| Lattice.LatticeInBox | crates/zune-imageprocs/src/bilateral_filter.rs:167-168 | every visited offset lies in the square window |
| Lattice.LatticeCount | crates/zune-imageprocs/src/bilateral_filter.rs:165-176 | `makx` is at least 1 (the centre) and at most the number of entries of the square window |
| Lattice.LatticeRadiusOne | crates/zune-imageprocs/src/bilateral_filter.rs:167-176 | radius 1 visits exactly the centre and its four edge neighbours, top to bottom |
| Lattice.LatticeCountRadiusOne | crates/zune-imageprocs/src/bilateral_filter.rs:165-176 | radius 1 gives `makx == 5` |
| Lattice.LatticeMirror | crates/zune-imageprocs/src/bilateral_filter.rs:167-169 | the mirror images of a visited offset in either coordinate are visited too, at the same squared distance |
| Lattice.Dist2IsSumOfSquares | crates/zune-imageprocs/src/bilateral_filter.rs:169 | the squared distance is `i*i + j*j` |
| Lattice.WindowLenIsSquare | crates/zune-imageprocs/src/bilateral_filter.rs:194 | a window of radius `r` has `(2r+1)^2` entries |
| Lattice.WindowIndexInjective | crates/zune-imageprocs/src/bilateral_filter.rs:194 | distinct offsets of the window sit at distinct row-major positions |
| Lattice.CornerIndex | crates/zune-imageprocs/src/bilateral_filter.rs:194 | position 0 of the row-major window is the offset `(-r, -r)` |
| Lattice.CornerOutsideDisc | crates/zune-imageprocs/src/bilateral_filter.rs:169-171 | past radius 0, the corner offset `(-r, -r)` is skipped by the distance test |
| Lattice.Centre | crates/zune-imageprocs/src/bilateral_filter.rs:194-196 | the pixel under the kernel sits at entry `r(2r+1)+r` of its padded `(2r+1)`-square window read row by row, the entry `mid` is meant to name |
| Lattice.CentreInDisc | crates/zune-imageprocs/src/bilateral_filter.rs:169-171 | the centre offset passes the distance test, and `Centre` is its window position |
| Frames.SelectedCount | crates/zune-image/src/frame.rs:83-94 | the selection has all components, or one fewer exactly when alpha is ignored and present (both directions) |
| Frames.Select | crates/zune-image/src/frame.rs:80-95 | the selected channels are the prefix of the frame's channels of length `SelectedCount`: one fewer than the component count exactly when alpha is present and dropped, all of them otherwise |
| Frames.SelectDropsOnlyAlpha | crates/zune-image/src/frame.rs:83-94 | ignoring alpha drops exactly the last component's channel, and nothing when the colourspace has no alpha |
| Frames.Planes | crates/zune-image/src/frame.rs:154 | plane `i` is the element sequence of channel `i` |
| Frames.FindOtherKind | crates/zune-image/src/frame.rs:138-148 | the type scan finds nothing exactly when every channel holds the kind; otherwise it reports the first channel that does not |
| Frames.RgbaSource | crates/zune-image/src/frame.rs:150-217 | the byte a pixel's slot takes comes from a selected channel, except alpha of luma and RGB, which is the constant 255 |
| Frames.RgbaByte | crates/zune-image/src/frame.rs:150-217 | byte `j` of pixel `k` per channel count: luma in red, green and blue with alpha 255 (one); luma three times then alpha (two); the three channels then 255 (three); the four channels in order (four) |
| Frames.RgbaPixelCount | crates/zune-image/src/frame.rs:156 | the pixels written fit whole in the buffer and are supplied by every channel, and their number is one of the two bounds, so it is the smaller of `out.len() / 4` and the shortest channel |
| Frames.RgbaPixel | crates/zune-image/src/frame.rs:158-161 | a pixel is four bytes, each the byte its slot takes, all below 256 for byte channels |
| Frames.RgbaPixels | crates/zune-image/src/frame.rs:156 | `c` pixels occupy `4 c` bytes |
| Frames.RgbaPixelsAt | crates/zune-image/src/frame.rs:156-161 | byte `j` of pixel `k` sits at offset `4 k + j` |
| Frames.RgbaFill | crates/zune-image/src/frame.rs:133-219 | filling keeps the length of the caller's buffer |
| Frames.RgbaFillAt | crates/zune-image/src/frame.rs:156-161 | in the filled buffer, offset `4 k + j` of a written pixel holds byte `j` of pixel `k` |
| Frames.RgbaPixelLayout | crates/zune-image/src/frame.rs:150-214 | each arm of the component match writes its own layout: luma three times then 255, luma three times then alpha, RGB then 255, RGBA |
| Frames.RgbaFillMatchesFlatten | crates/zune-image/src/frame.rs:195-214 | with four channels, the written pixels are exactly the result of `flatten` on the same channels |
| Frames.RgbaFillKeepsTail | crates/zune-image/src/frame.rs:156 | bytes past the last whole pixel written are left as they were |
| Frames.RgbaFillLumaExample | crates/zune-image/src/frame.rs:380-392 | luma `[10, 20, 20]` expands to three grey opaque pixels |
| Frames.NeBytes | crates/zune-image/src/frame.rs:297 | `to_ne_bytes` of a 16-bit sample is two bytes |
| Frames.EncodeNe | crates/zune-image/src/frame.rs:297 | every sample takes two bytes |
| Frames.DecodeNe | crates/zune-image/src/frame.rs:297 | every two bytes decode to one sample |
| Frames.DecodeEncode | crates/zune-image/src/frame.rs:297 | reading the native-order bytes back gives every sample again (round trip) |
| Frames.EncodeNeAt | crates/zune-image/src/frame.rs:309-310 | sample `q` occupies bytes `2q` and `2q + 1` |
| Frames.PackedFits | crates/zune-image/src/frame.rs:285-287 | the packed samples fit in a buffer of channel 0's length per component |
| Frames.NativeBytes | crates/zune-image/src/frame.rs:285-350 | the native-order buffer has two bytes per component per sample of channel 0 |
| Frames.NativeBytesLength | crates/zune-image/src/frame.rs:285-287 | the buffer length is `len()` of channel 0 in bytes times the component count |
| Frames.NativeBytesCell | crates/zune-image/src/frame.rs:304-345 | cell `q` holds packed sample `q` as its two native-order bytes; with `InterleaveAt`, sample `k` of component `i` fills bytes `2 (k n + i)` and `2 (k n + i) + 1` |
| Frames.NativeBytesTail | crates/zune-image/src/frame.rs:287 | bytes past the packed samples stay zero |
| Frames.NativeBytesDecode | crates/zune-image/src/frame.rs:285-350 | the written prefix decodes back to the interleaved samples |
| Frames.NativeBytesLumaExample | crates/zune-image/src/frame.rs:366-378 | one luma sample of 50000 becomes the bytes 80, 195 on a little-endian host |
| Frames.WriteCell | crates/zune-image/src/frame.rs:309 | one `copy_from_slice` of two bytes extends the correct prefix by one cell and leaves the zero tail zero |
| Frames.PackNativePixel | crates/zune-image/src/frame.rs:304-345 | one pass of the chunk loop writes pixel `k`'s samples and keeps the buffer equal to `NativeBytes` up to the next pixel |
| Frames.PackNativeEndian | crates/zune-image/src/frame.rs:285-350 | the zeroed buffer filled by the chunk loop is exactly `NativeBytes` |
| Frames.WriteRgbaPixel | crates/zune-image/src/frame.rs:158-161 | the four bytes of pixel `k` land in its chunk, and no other byte of the buffer changes |
| Frames.PackRgba | crates/zune-image/src/frame.rs:150-217 | the buffer after the packing loop is `RgbaFill` of the buffer before |
| Frames.Frame.constructor | crates/zune-image/src/frame.rs:47-53 | the frame holds the given channels and a duration of 0 |
| Frames.Frame.WithDuration | crates/zune-image/src/frame.rs:74-77 | the frame holds the given channels and duration |
| Frames.Frame.ChannelsRef | crates/zune-image/src/frame.rs:80-95 | the view is the prefix of the channels whose length is the selected count |
| Frames.Frame.SetSelected | crates/zune-image/src/frame.rs:97-113 | a store through the mutable window changes only that selected channel and keeps the duration |
| Frames.Frame.Add | crates/zune-image/src/frame.rs:114-117 | the channel is appended after the existing ones, and nothing else changes |
| Frames.Frame.SetChannels | crates/zune-image/src/frame.rs:353-356 | the channels are replaced wholesale, and the duration is kept |
| Frames.Frame.Flatten | crates/zune-image/src/frame.rs:220-270 | flattening succeeds exactly when every selected channel holds the requested kind; otherwise the `unwrap` panics |
| Frames.FlattenLayout | crates/zune-image/src/frame.rs:245-264 | the flattened buffer holds sample `k` of channel `i` at `k n + i`, for as many pixels as the shortest channel holds |
| Frames.FlattenLuma | crates/zune-image/src/frame.rs:226 | a luma frame flattens to its one channel's samples |
| Frames.Frame.FlattenRgba | crates/zune-image/src/frame.rs:133-219 | a non-byte channel gives `WrongTypeId` for the first such channel with the buffer untouched; otherwise the buffer becomes `RgbaFill` of itself |
| Frames.Frame.U16ToNativeEndian | crates/zune-image/src/frame.rs:273-351 | a non-16-bit channel panics; otherwise the result has `len()` of channel 0 bytes per component and is `NativeBytes` of the selected planes |
| Bilateral.SupportedTypes | crates/zune-imageprocs/src/bilateral_filter.rs:124-126 | the filter supports U8 and U16, and not F32 |
| Bilateral.GaussCoeff | crates/zune-imageprocs/src/bilateral_filter.rs:139-140 | the Gaussian coefficient is negative for a non-zero width |
| Bilateral.ClampSigma | crates/zune-imageprocs/src/bilateral_filter.rs:147-149 | the spatial width used for the radius is positive, and unchanged when already positive |
| Bilateral.RoundHalfAway | crates/zune-imageprocs/src/bilateral_filter.rs:152 | `round` (also at line 224) gives the nearest integer, a tie going away from zero |
| Bilateral.SaturateI32 | crates/zune-imageprocs/src/bilateral_filter.rs:152 | the `as i32` cast keeps an in-range value and turns any other into the bound on its side |
| Bilateral.Radius | crates/zune-imageprocs/src/bilateral_filter.rs:151-155 | a positive hint `d` gives the radius `d / 2`; otherwise the radius is 1.5 times the clamped width, rounded and cast |
| Bilateral.ColorWeight | crates/zune-imageprocs/src/bilateral_filter.rs:161-164 | colour weight `i` is `exp(i * i * gauss_color_coeff)` |
| Bilateral.SpaceWeight | crates/zune-imageprocs/src/bilateral_filter.rs:169-173 | the space weight of offset `(i, j)` is `exp(r * r * gauss_space_coeff)` with `r * r = i*i + j*j` |
| Bilateral.DefaultRadius | crates/zune-imageprocs/src/bilateral_filter.rs:147-152 | with no hint and a non-positive spatial width, the radius is 2 |
| Bilateral.ColorTable | crates/zune-imageprocs/src/bilateral_filter.rs:157-164 | the colour table has `color_range` entries |
| Bilateral.SpaceTable | crates/zune-imageprocs/src/bilateral_filter.rs:158-176 | the space table has as many entries as allocated |
| Bilateral.CoeffsOf | crates/zune-imageprocs/src/bilateral_filter.rs:136-183 | the coefficients hold a colour entry per intensity, and a space entry for every visited offset, `makx` counting them |
| Bilateral.SpaceSlotsAsWritten | crates/zune-imageprocs/src/bilateral_filter.rs:158 | the table allocated as written has `d * d` entries exactly when the product fits a signed 32-bit integer, and otherwise the multiplication-overflow panic |
| Bilateral.SpaceSlots | crates/zune-imageprocs/src/bilateral_filter.rs:158 | the corrected allocation holds every visited offset |
| Bilateral.FillColorWeights | crates/zune-imageprocs/src/bilateral_filter.rs:161-164 | the colour loop fills the table `ColorTable` |
| Bilateral.VisitedPrefix | crates/zune-imageprocs/src/bilateral_filter.rs:167-176 | the offsets visited so far are a prefix of all the offsets visited |
| Bilateral.StoreSpaceWeight | crates/zune-imageprocs/src/bilateral_filter.rs:173-174 | storing at `makx` extends the filled prefix by one weight and leaves the tail zero |
| Bilateral.Weights | crates/zune-imageprocs/src/bilateral_filter.rs:173 | weight `k` is the space weight of offset `k` |
| Bilateral.FillSpaceRow | crates/zune-imageprocs/src/bilateral_filter.rs:168-175 | one row of the offset loop extends the filled prefix by that row's in-disc weights, or reports that the table is too small |
| Bilateral.FillSpaceWeights | crates/zune-imageprocs/src/bilateral_filter.rs:165-176 | the offset loops succeed exactly when every visited offset fits the table, and then fill it with `SpaceTable` |
| Bilateral.InitBilateralAsWritten | crates/zune-imageprocs/src/bilateral_filter.rs:136-183 | as written, the initialisation panics exactly when `d * d` overflows or is smaller than `makx`, and otherwise gives `CoeffsOf` with `d * d` entries |
| Bilateral.SpaceTableTooSmall | crates/zune-imageprocs/src/bilateral_filter.rs:151-158 | hints 2 and 0 allocate fewer space entries than there are visited offsets |
| Bilateral.InitBilateral | crates/zune-imageprocs/src/bilateral_filter.rs:136-183 | the corrected initialisation never panics and gives `CoeffsOf` with a whole-window table |
| Bilateral.SpaceTableSymmetric | crates/zune-imageprocs/src/bilateral_filter.rs:167-173 | mirrored offsets get equal space weights |
| Bilateral.ColorWeightNonIncreasing | crates/zune-imageprocs/src/bilateral_filter.rs:161-164 | with a monotone `exp`, a larger intensity difference never weighs more |
| Bilateral.Narrow | crates/zune-imageprocs/src/bilateral_filter.rs:224 | the narrowed value lies within the depth's range |
| Bilateral.NarrowRounds | crates/zune-imageprocs/src/bilateral_filter.rs:224 | a mean within range narrows to its nearest integer |
| Bilateral.KernelValue | crates/zune-imageprocs/src/bilateral_filter.rs:207-225 | the kernel's value lies within the depth's range |
| Bilateral.BilateralKernel | crates/zune-imageprocs/src/bilateral_filter.rs:207-225 | the accumulation loop computes `KernelValue` |
| Bilateral.Sums | crates/zune-imageprocs/src/bilateral_filter.rs:212-222 | the running `sum` and `wsum` after the first `n` pairs; `BilateralKernel` is proved to compute them |
| Bilateral.PairWeight | crates/zune-imageprocs/src/bilateral_filter.rs:217-220 | the weight of a pair is its space weight times the colour weight of its distance from `val0` |
| Bilateral.Add | crates/zune-imageprocs/src/bilateral_filter.rs:221-222 | one step adds `val * w` to `sum` and `w` to `wsum` |
| Bilateral.DiscPositions | crates/zune-imageprocs/src/bilateral_filter.rs:212-216 | entry `k` is the window position of the `k`-th visited offset |
| Bilateral.PixelAt | crates/zune-imageprocs/src/bilateral_filter.rs:207-225 | the corrected kernel's value lies within the depth's range |
| Bilateral.MidAsWritten | crates/zune-imageprocs/src/bilateral_filter.rs:196 | the index `(r + 1) / 2` lies within the window |
| Bilateral.MidMissesCentre | crates/zune-imageprocs/src/bilateral_filter.rs:196-203 | past radius 0 that index lies in the top row, before the centre |
| Bilateral.AsWrittenCount | crates/zune-imageprocs/src/bilateral_filter.rs:212-216 | `zip` then `take` yields the least of the window length, the table length and `makx` |
| Bilateral.BilateralPixelAsWritten | crates/zune-imageprocs/src/bilateral_filter.rs:207-225 | the kernel as written gives a value within the depth's range |
| Bilateral.Pixel | crates/zune-imageprocs/src/bilateral_filter.rs:207-225 | the pixel of the chosen kernel, as written or corrected, lies within the depth's range |
| Bilateral.PixelKernel | crates/zune-imageprocs/src/bilateral_filter.rs:207-225 | running the closure of the chosen kernel over a window computes `Pixel` |
| Bilateral.Clamp | crates/zune-imageprocs/src/bilateral_filter.rs:194 | replicate padding reads the nearest coordinate inside the channel, which is the coordinate itself when inside |
| Bilateral.Source | crates/zune-imageprocs/src/bilateral_filter.rs:194 | every window entry reads a pixel of the channel |
| Bilateral.WindowAt | crates/zune-imageprocs/src/bilateral_filter.rs:194-227 | the window of a pixel has `(2r+1)^2` entries |
| Bilateral.WindowAtOffset | crates/zune-imageprocs/src/bilateral_filter.rs:194 | the entry of an offset is the pixel at that offset, clamped into the channel |
| Bilateral.CentreIsPixel | crates/zune-imageprocs/src/bilateral_filter.rs:202-203 | the centre of the window is the pixel under the filter |
| Bilateral.WindowBelow | crates/zune-imageprocs/src/bilateral_filter.rs:194 | padding introduces no intensity the channel lacks, so every window entry stays below the channel's bound |
| Bilateral.Filtered | crates/zune-imageprocs/src/bilateral_filter.rs:185-228 | for either kernel, the filtered channel has one pixel per source pixel, each within the depth's range |
| Bilateral.FilteredAt | crates/zune-imageprocs/src/bilateral_filter.rs:227 | pixel `(y, x)` of the output is the chosen kernel over that pixel's window; with `AsWritten` that is the source's closure |
| Bilateral.StorePixel | crates/zune-imageprocs/src/bilateral_filter.rs:227 | storing pixel `p` extends the correct prefix of the output by one |
| Bilateral.BilateralFilterInt | crates/zune-imageprocs/src/bilateral_filter.rs:185-228 | for either kernel, the destination ends up as `Filtered` of the source with that kernel |
| Bilateral.ChannelOutcome | crates/zune-imageprocs/src/bilateral_filter.rs:91-117 | F32 gives `ImageOperationNotImplemented("Bilateral Filter", F32)`; a channel of another kind gives `WrongTypeId`; otherwise a channel of the same kind and byte length whose every pixel is the chosen kernel over its window |
| Bilateral.FilterChannel | crates/zune-imageprocs/src/bilateral_filter.rs:90-118 | one pass of the channel loop yields `ChannelOutcome` with the same kernel |
| Bilateral.Run | crates/zune-imageprocs/src/bilateral_filter.rs:88-119 | the channel loop from channel `i` on, stopping at the first refusal; `RunEffect` states its result |
| Bilateral.RunEffect | crates/zune-imageprocs/src/bilateral_filter.rs:88-121 | for either kernel, the loop succeeds exactly when no channel is refused; on failure the first refusal is the result; channels before it are filtered and all others are unchanged |
| Bilateral.FilterChannels | crates/zune-imageprocs/src/bilateral_filter.rs:88-121 | the sequential loop over the non-alpha channels leaves the result and channels of `Run`, and keeps the duration |
| Bilateral.ExecuteImplAsWritten | crates/zune-imageprocs/src/bilateral_filter.rs:33-122 | as written: a panic exactly when `d * d` overflows or is below `makx` (which `SpaceTableTooSmall` shows for `d = 2` and `d = 0`), with no channel touched; otherwise result and channels are those of `Run` with the source's kernel and the `d * d` table; the duration is kept |
| Bilateral.ExecuteImpl | crates/zune-imageprocs/src/bilateral_filter.rs:33-122 | corrected: never panics; the coefficients cover the depth's intensities, and result and channels are those of `Run` with the corrected kernel; the duration is kept |
| Bilateral.SumsAgree | crates/zune-imageprocs/src/bilateral_filter.rs:212-223 | windows that agree at every paired position give the same sums |
| Bilateral.DiscOnly | crates/zune-imageprocs/src/bilateral_filter.rs:207-225 | the corrected kernel reads only the disc: windows that agree on it give the same pixel |
| Bilateral.CoeffsPositive | crates/zune-imageprocs/src/bilateral_filter.rs:163-173 | an everywhere-positive `exp` gives positive weights |
| Bilateral.FlatSums | crates/zune-imageprocs/src/bilateral_filter.rs:217-222 | over a window of one intensity, the sum is that intensity times the positive weight sum |
| Bilateral.FlatKernel | crates/zune-imageprocs/src/bilateral_filter.rs:212-224 | pairs that all read `v`, measured from `v`, average to `v` |
| Bilateral.FlatPixelCorrected | crates/zune-imageprocs/src/bilateral_filter.rs:207-225 | a window of one intensity gives that intensity under the corrected kernel |
| Bilateral.FlatPixelAsWritten | crates/zune-imageprocs/src/bilateral_filter.rs:207-225 | a window of one intensity gives that intensity under the kernel as written |
| Bilateral.FlatPixel | crates/zune-imageprocs/src/bilateral_filter.rs:207-225 | a window of one intensity gives that intensity, under either kernel |
| Bilateral.NarrowFlat | crates/zune-imageprocs/src/bilateral_filter.rs:224 | a positive weight sum whose sum is `v` times it narrows to `v` |
| Bilateral.FilterKeepsFlatImage | crates/zune-imageprocs/src/bilateral_filter.rs:185-228 | with positive weights, a channel of one intensity is its own filtered channel, both as written and corrected |
| Bilateral.CornerIgnored | crates/zune-imageprocs/src/bilateral_filter.rs:207-225 | past radius 0, windows that differ only in the top-left corner give the same corrected pixel |
| Bilateral.CornerOnlyIsZero | crates/zune-imageprocs/src/bilateral_filter.rs:207-225 | a window that is zero except in its corner gives 0 |
| Bilateral.UnitCoeffs | crates/zune-imageprocs/src/bilateral_filter.rs:136-183 | hint 3 with an `exp` that is constantly 1 gives radius 1, `makx` 5 and unit weights |
| Bilateral.UnitSums | crates/zune-imageprocs/src/bilateral_filter.rs:217-222 | with unit weights, the sums are the plain total and the pair count |
| Bilateral.AsWrittenOnUnit | crates/zune-imageprocs/src/bilateral_filter.rs:212-216 | as written, with unit weights of radius 1, the first five row-major entries are averaged |
| Bilateral.UnitCornerAsWritten | crates/zune-imageprocs/src/bilateral_filter.rs:212-216 | as written, a 9 in the top-left corner of an otherwise zero window gives 2 |
| Bilateral.UnitZeroAsWritten | crates/zune-imageprocs/src/bilateral_filter.rs:212-216 | as written, the all-zero window gives 0 |
| Bilateral.AsWrittenReadsOutsideDisc | crates/zune-imageprocs/src/bilateral_filter.rs:212-216 | two windows that differ only outside the disc give 2 and 0 as written, and 0 and 0 corrected |

## Left out

- Threads: the `threads` arm of `execute_impl` (bilateral_filter.rs:45-86) is not modelled. Only the sequential loop is.
- Floating point: `f32` values are reals, and `exp` is an uninterpreted function passed in `FloatOps`.
- Bilateral.SpaceSlotsAsWritten: `d * d` is overflow-checked as in a debug build; a release build wraps (d = -65537 allots 131073 entries and does not panic).
  - The value of `-0.5 / 0.0` is a parameter of `FloatOps`.
  - No rounding of the sums is modelled.
  - `Narrow` treats a zero weight sum as an infinite or NaN mean: a positive sum saturates to the maximum, otherwise 0.
- Lattice.LatticePoints: the distance test compares the integer squared distance with `r * r`. The source compares the `f32` square root with `radius as f32`, and that root can round `sqrt(r*r + 1)` down to `r` for radii in the thousands.
- Lattice.Dist2IsSumOfSquares: `i * i + j * j` is an `i32` in the source and overflows for radii past about 32767. The model's arithmetic is unbounded.
- Bilateral.Radius: `(sigma_space * 1.5).round() as i32` saturates, and a NaN width is not modelled.
- The `pad` and `spatial` helpers are not part of this model. `WindowAt` and `Source` state what they are taken to do:
  - replicate padding by `radius`;
  - the `(2r+1)`-square window of each pixel, row-major, handed to the closure;
  - the result written to the pixel in row-major order.
- `NumOps::from_f32` is taken to round-trip in-range values and to saturate out-of-range ones (`Narrow`).
- Bilateral.ExecuteImpl: image dimensions and bit depth are parameters, and one frame is filtered. `Image::channels_mut` over several frames is not part of this model.
- Bilateral.ExecuteImpl requires each selected channel to hold `w * h` elements, which the image guarantees. A channel of another size would make `pad` and `spatial` misbehave, and that is not modelled.
- Bilateral.ExecuteImplAsWritten: the same two limits as `ExecuteImpl`. The panic of `init_bilateral` is returned as the outer `Err(Panic)` rather than ending the program.
- Bilateral.Name is a constant (`"Bilateral Filter"`) and has no contract of its own. `ChannelOutcome` states where it appears.
- Frames.Frame.Flatten: every selected channel must hold kind `T`, or the `unwrap` panics. The panic is modelled as an `Err(Panic)` result.
- Frames.Frame.U16ToNativeEndian: the `panic!` of a non-16-bit channel is modelled the same way.
- `get_channels_mut` hands out a mutable slice. It is modelled as `SetSelected`, a store into one selected slot, which is the only use the core makes of it.
- Unreachable arms: a colourspace has one to four components (`ColorSpace`), so the `unreachable!()` arms cannot be reached and are not modelled.
- Endianness: the host's byte order is a parameter (`Endian`).
- `crates/zune-python` and `crates/zune-png` are not part of this model.

## Findings

| source | as written | input that shows it | evidently intended | confidence | as-written member | corrected member |
|---|---|---|---|---|---|---|
| crates/zune-imageprocs/src/bilateral_filter.rs:158 | the space table has `d * d` entries, but `makx` counts the visited offsets of radius `d / 2` (or of the rounded default radius when `d <= 0`) | `d = 2`: radius 1 visits 5 offsets and the table has 4 entries, so the store at line 173 indexes past the end; `d = 0` allots no entry at all | a table large enough for every visited offset, such as the whole `(2r+1)^2` window | high, not executed | Bilateral.SpaceTableTooSmall | Bilateral.InitBilateral |
| crates/zune-imageprocs/src/bilateral_filter.rs:196 | the pixel under the filter is taken as window entry `(radius + 1) / 2` | radius 1: entry 1 is the top-middle neighbour, while the centre is entry 4 | the centre of the window, entry `r (2r + 1) + r` | high, not executed | Bilateral.MidMissesCentre | Bilateral.CentreIsPixel |
| crates/zune-imageprocs/src/bilateral_filter.rs:212-216 | window entry `k`, in row-major order over the whole square, is paired with space weight `k`, which belongs to the `k`-th in-disc offset | `d = 3`, widths so large that every weight is 1: a window zero except for a 9 in its top-left corner, an offset outside the disc, gives 2 instead of 0 | each weight paired with the intensity at its own offset, so that nothing outside the disc is read | medium, not executed | Bilateral.AsWrittenReadsOutsideDisc | Bilateral.DiscOnly |
