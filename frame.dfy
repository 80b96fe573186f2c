/** A single image frame: a group of planar channels plus a duration, and the ways of packing them. */
module Frames {
  import opened Pixels
  import opened Interleaving

  /** How many leading channels a colourspace selects; its alpha channel, always the last, is left out on request. */
  function SelectedCount(cs: ColorSpace, ignoreAlpha: bool): (n: nat)
    ensures n == cs.components <==> !(ignoreAlpha && cs.hasAlpha)
    ensures n + 1 == cs.components <==> ignoreAlpha && cs.hasAlpha
    ensures n >= 1
  {
    if ignoreAlpha && cs.hasAlpha then cs.components - 1 else cs.components
  }

  /** The window of channels a colourspace looks at: a prefix of the frame's channels. */
  function Select(channels: seq<Channel>, cs: ColorSpace, ignoreAlpha: bool): (r: seq<Channel>)
    requires |channels| >= cs.components
    ensures r <= channels && |r| == SelectedCount(cs, ignoreAlpha)
    ensures |r| + 1 == cs.components <==> ignoreAlpha && cs.hasAlpha
    ensures |r| == cs.components <==> !(ignoreAlpha && cs.hasAlpha)
  {
    channels[..SelectedCount(cs, ignoreAlpha)]
  }

  /** Leaving out alpha drops exactly the last selected channel, and nothing when there is no alpha. */
  lemma SelectDropsOnlyAlpha(channels: seq<Channel>, cs: ColorSpace)
    requires |channels| >= cs.components
    ensures cs.hasAlpha ==>
      Select(channels, cs, false) == Select(channels, cs, true) + [channels[cs.components - 1]]
    ensures !cs.hasAlpha ==> Select(channels, cs, true) == Select(channels, cs, false)
  {
    if cs.hasAlpha {
      var n := cs.components;
      assert channels[..n] == channels[..n - 1] + [channels[n - 1]];
    }
  }

  /** The typed views of a group of channels. */
  function Planes(channels: seq<Channel>): (p: seq<seq<nat>>)
    ensures |p| == |channels|
    ensures forall i :: 0 <= i < |channels| ==> p[i] == channels[i].samples
  {
    seq(|channels|, i requires 0 <= i < |channels| => channels[i].samples)
  }

  predicate AllOfKind(channels: seq<Channel>, t: BitType)
  {
    forall i :: 0 <= i < |channels| ==> channels[i].kind == t
  }

  /** Channel `j` is the first whose kind is not `t`. */
  predicate FirstOfOtherKind(channels: seq<Channel>, t: BitType, j: nat)
  {
    j < |channels| && channels[j].kind != t && forall l :: 0 <= l < j ==> channels[l].kind == t
  }

  /** The scan that confirms every channel holds elements of kind `t`, stopping at the first that does not. */
  method FindOtherKind(channels: seq<Channel>, t: BitType) returns (found: Option<nat>)
    ensures found.None? <==> AllOfKind(channels, t)
    ensures found.Some? ==> FirstOfOtherKind(channels, t, found.value)
  {
    for k := 0 to |channels|
      invariant forall l :: 0 <= l < k ==> channels[l].kind == t
    {
      if channels[k].kind != t {
        return Some(k);
      }
    }
    return None;
  }

  /** Where byte `j` of an RGBA pixel comes from, for `n` selected channels: luma is repeated into red,
      green and blue, and an absent alpha (`None`) is written as opaque. */
  function RgbaSource(n: nat, j: nat): (src: Option<nat>)
    requires 1 <= n <= 4 && j < 4
    ensures src.Some? ==> src.value < n
    ensures src.None? <==> j == 3 && (n == 1 || n == 3)
  {
    if j == 3 && (n == 1 || n == 3) then None
    else if n <= 2 then Some(if j == 3 then 1 else 0)
    else Some(j)
  }

  /** Byte `j` of RGBA pixel `k`. */
  function RgbaByte(planes: seq<seq<nat>>, j: nat, k: nat): (b: nat)
    requires 1 <= |planes| <= 4 && j < 4 && k < MinLen(planes)
    ensures |planes| == 1 ==> b == (if j < 3 then planes[0][k] else 255)
    ensures |planes| == 2 ==> b == (if j < 3 then planes[0][k] else planes[1][k])
    ensures |planes| == 3 ==> b == (if j < 3 then planes[j][k] else 255)
    ensures |planes| == 4 ==> b == planes[j][k]
  {
    match RgbaSource(|planes|, j)
    case None => 255
    case Some(i) => planes[i][k]
  }

  /** Whole 4-byte pixels that fit the buffer and that every selected channel can supply. */
  function RgbaPixelCount(outLen: nat, planes: seq<seq<nat>>): (count: nat)
    requires |planes| > 0
    ensures 4 * count <= outLen && count <= MinLen(planes)
    ensures count == outLen / 4 || count == MinLen(planes)
  {
    if outLen / 4 <= MinLen(planes) then outLen / 4 else MinLen(planes)
  }

  /** The four bytes of RGBA pixel `k`. */
  function RgbaPixel(planes: seq<seq<nat>>, k: nat): (px: seq<nat>)
    requires 1 <= |planes| <= 4 && k < MinLen(planes)
    ensures |px| == 4 && forall j :: 0 <= j < 4 ==> px[j] == RgbaByte(planes, j, k)
    ensures AllBytes(planes) ==> forall j :: 0 <= j < 4 ==> px[j] < 0x100
  {
    [RgbaByte(planes, 0, k), RgbaByte(planes, 1, k), RgbaByte(planes, 2, k), RgbaByte(planes, 3, k)]
  }

  predicate AllBytes(planes: seq<seq<nat>>)
  {
    forall i, k :: 0 <= i < |planes| && 0 <= k < |planes[i]| ==> planes[i][k] < 0x100
  }

  /** The first `c` RGBA pixels, one after another. */
  function RgbaPixels(planes: seq<seq<nat>>, c: nat): (b: seq<nat>)
    requires 1 <= |planes| <= 4 && c <= MinLen(planes)
    ensures |b| == 4 * c
  {
    if c == 0 then [] else RgbaPixels(planes, c - 1) + RgbaPixel(planes, c - 1)
  }

  /** Byte `j` of pixel `k` sits at offset `4 k + j`. */
  lemma {:induction false} RgbaPixelsAt(planes: seq<seq<nat>>, c: nat, k: nat, j: nat)
    requires 1 <= |planes| <= 4 && c <= MinLen(planes) && k < c && j < 4
    ensures 4 * k + j < 4 * c
    ensures RgbaPixels(planes, c)[4 * k + j] == RgbaByte(planes, j, k)
  {
    if k < c - 1 {
      RgbaPixelsAt(planes, c - 1, k, j);
    }
  }

  /** The buffer after packing: its leading whole pixels are the RGBA pixels, and every other byte is left
      as it was. */
  function RgbaFill(before: seq<int>, planes: seq<seq<nat>>): (after: seq<int>)
    requires 1 <= |planes| <= 4
    ensures |after| == |before|
  {
    var count := RgbaPixelCount(|before|, planes);
    RgbaPixels(planes, count) + before[4 * count..]
  }

  /** Byte `j` of pixel `k`, for a pixel that is written. */
  lemma RgbaFillAt(before: seq<int>, planes: seq<seq<nat>>, k: nat, j: nat)
    requires 1 <= |planes| <= 4 && k < RgbaPixelCount(|before|, planes) && j < 4
    ensures 4 * k + j < |before| && k < MinLen(planes)
    ensures RgbaFill(before, planes)[4 * k + j] == RgbaByte(planes, j, k)
  {
    var count := RgbaPixelCount(|before|, planes);
    RgbaPixelsAt(planes, count, k, j);
    var pixels := RgbaPixels(planes, count);
    assert RgbaFill(before, planes) == pixels + before[4 * count..];
    assert 4 * k + j < |pixels|;
  }

  /** Each arm of the match on the component count writes its own pixel layout. */
  lemma RgbaPixelLayout(planes: seq<seq<nat>>, k: nat)
    requires 1 <= |planes| <= 4 && k < MinLen(planes)
    ensures |planes| == 1 ==> RgbaPixel(planes, k) == [planes[0][k], planes[0][k], planes[0][k], 255]
    ensures |planes| == 2 ==> RgbaPixel(planes, k) == [planes[0][k], planes[0][k], planes[0][k], planes[1][k]]
    ensures |planes| == 3 ==> RgbaPixel(planes, k) == [planes[0][k], planes[1][k], planes[2][k], 255]
    ensures |planes| == 4 ==> RgbaPixel(planes, k) == [planes[0][k], planes[1][k], planes[2][k], planes[3][k]]
  {
  }

  /** With four channels, the written pixels are exactly what flattening the same channels yields. */
  lemma RgbaFillMatchesFlatten(before: seq<int>, planes: seq<seq<nat>>)
    requires |planes| == 4
    ensures 4 * RgbaPixelCount(|before|, planes) <= |Interleave(planes)|
    ensures RgbaFill(before, planes)[..4 * RgbaPixelCount(|before|, planes)] ==
      Interleave(planes)[..4 * RgbaPixelCount(|before|, planes)]
  {
    var count := RgbaPixelCount(|before|, planes);
    var after := RgbaFill(before, planes);
    var flat := Interleave(planes);
    PackedFits(planes, MinLen(planes));
    SlotIsOffset(MinLen(planes), 4, 0);
    forall m | 0 <= m < 4 * count ensures after[m] == flat[m] {
      var k, j := m / 4, m % 4;
      RgbaFillAt(before, planes, k, j);
      InterleaveAt(planes, k, j);
    }
  }

  /** Bytes past the last whole pixel written keep their old values. */
  lemma RgbaFillKeepsTail(before: seq<int>, planes: seq<seq<nat>>, m: nat)
    requires 1 <= |planes| <= 4 && 4 * RgbaPixelCount(|before|, planes) <= m < |before|
    ensures RgbaFill(before, planes)[m] == before[m]
  {
  }

  /** A three-sample luma channel expands to three grey opaque pixels. */
  lemma RgbaFillLumaExample()
    ensures RgbaFill(seq(12, _ => 0), [[10, 20, 20]]) == [10, 10, 10, 255, 20, 20, 20, 255, 20, 20, 20, 255]
  {
    var before: seq<int> := seq(12, _ => 0);
    var planes := [[10, 20, 20]];
    assert RgbaPixelCount(12, planes) == 3;
    assert RgbaPixels(planes, 1) == [10, 10, 10, 255];
    assert RgbaPixels(planes, 2) == [10, 10, 10, 255, 20, 20, 20, 255];
    assert RgbaPixels(planes, 3) == [10, 10, 10, 255, 20, 20, 20, 255, 20, 20, 20, 255];
  }

  /** The two bytes of a 16-bit sample in the host's byte order (`to_ne_bytes`). */
  function NeBytes(x: nat, e: Endian): (b: seq<u8>)
    requires x < 0x1_0000
    ensures |b| == 2
  {
    if e == Little then [x % 0x100, x / 0x100] else [x / 0x100, x % 0x100]
  }

  /** Reads a 16-bit sample back from two bytes in the host's byte order (`from_ne_bytes`). */
  function FromNeBytes(b0: u8, b1: u8, e: Endian): nat
  {
    if e == Little then b0 + 0x100 * b1 else 0x100 * b0 + b1
  }

  /** Each sample in turn as its two native-order bytes. */
  function EncodeNe(s: seq<nat>, e: Endian): (b: seq<u8>)
    requires AllBelow(s, 0x1_0000)
    ensures |b| == 2 * |s|
  {
    if s == [] then [] else NeBytes(s[0], e) + EncodeNe(s[1..], e)
  }

  /** Pairs of native-order bytes read back as 16-bit samples. */
  function DecodeNe(b: seq<u8>, e: Endian): (s: seq<nat>)
    requires |b| % 2 == 0
    ensures |s| == |b| / 2
  {
    if b == [] then [] else [FromNeBytes(b[0], b[1], e)] + DecodeNe(b[2..], e)
  }

  /** Decoding the native-order bytes gives back every sample. */
  lemma {:induction false} DecodeEncode(s: seq<nat>, e: Endian)
    requires AllBelow(s, 0x1_0000)
    ensures DecodeNe(EncodeNe(s, e), e) == s
  {
    if s != [] {
      var b := EncodeNe(s, e);
      assert b[2..] == EncodeNe(s[1..], e);
      DecodeEncode(s[1..], e);
    }
  }

  /** Sample `q` occupies bytes `2q` and `2q + 1`. */
  lemma {:induction false} EncodeNeAt(s: seq<nat>, e: Endian, q: nat)
    requires AllBelow(s, 0x1_0000) && q < |s|
    ensures EncodeNe(s, e)[2 * q] == NeBytes(s[q], e)[0]
    ensures EncodeNe(s, e)[2 * q + 1] == NeBytes(s[q], e)[1]
  {
    if q > 0 {
      EncodeNeAt(s[1..], e, q - 1);
    }
  }

  predicate AllPlanesU16(planes: seq<seq<nat>>)
  {
    forall i :: 0 <= i < |planes| ==> AllBelow(planes[i], 0x1_0000)
  }

  /** The packed samples fit in a buffer of `c0` samples per component. */
  lemma PackedFits<T>(planes: seq<seq<T>>, c0: nat)
    requires |planes| > 0 && MinLen(planes) <= c0
    ensures |Interleave(planes)| == Slot(MinLen(planes), |planes|, 0) <= Slot(c0, |planes|, 0)
  {
    SlotMono(MinLen(planes), c0, |planes|);
  }

  /** The native-order buffer: one 2-byte cell per component per sample of channel 0, filled with the interleaved
      samples while every selected channel still has one, zero after that. */
  function NativeBytes(planes: seq<seq<nat>>, c0: nat, e: Endian): (b: seq<u8>)
    requires |planes| > 0 && MinLen(planes) <= c0 && AllPlanesU16(planes)
    ensures |b| == 2 * Slot(c0, |planes|, 0)
  {
    var flat := Interleave(planes);
    InterleaveBounded(planes, 0x1_0000);
    PackedFits(planes, c0);
    EncodeNe(flat, e) + seq(2 * (Slot(c0, |planes|, 0) - |flat|), _ => 0)
  }

  /** The buffer holds `len()` of channel 0 bytes for each component. */
  lemma NativeBytesLength(planes: seq<seq<nat>>, c0: nat, e: Endian)
    requires |planes| > 0 && MinLen(planes) <= c0 && AllPlanesU16(planes)
    ensures |NativeBytes(planes, c0, e)| == c0 * 2 * |planes|
  {
    DoubleSlot(c0, |planes|);
  }

  /** Cell `q` holds packed sample `q`, which is `x`, as its two native-order bytes. */
  lemma NativeBytesCell(planes: seq<seq<nat>>, c0: nat, e: Endian, q: nat, x: nat)
    requires |planes| > 0 && MinLen(planes) <= c0 && AllPlanesU16(planes)
    requires q < |Interleave(planes)| && Interleave(planes)[q] == x
    ensures x < 0x1_0000 && 2 * q + 1 < |NativeBytes(planes, c0, e)|
    ensures NativeBytes(planes, c0, e)[2 * q] == NeBytes(x, e)[0]
    ensures NativeBytes(planes, c0, e)[2 * q + 1] == NeBytes(x, e)[1]
  {
    InterleaveBounded(planes, 0x1_0000);
    PackedFits(planes, c0);
    var flat := Interleave(planes);
    EncodeNeAt(flat, e, q);
  }

  /** Bytes past the packed samples stay zero. */
  lemma NativeBytesTail(planes: seq<seq<nat>>, c0: nat, e: Endian, m: nat)
    requires |planes| > 0 && MinLen(planes) <= c0 && AllPlanesU16(planes)
    requires 2 * |Interleave(planes)| <= m < |NativeBytes(planes, c0, e)|
    ensures NativeBytes(planes, c0, e)[m] == 0
  {
  }

  /** The written prefix of the native-order buffer decodes back to the interleaved samples. */
  lemma NativeBytesDecode(planes: seq<seq<nat>>, c0: nat, e: Endian)
    requires |planes| > 0 && MinLen(planes) <= c0 && AllPlanesU16(planes)
    ensures 2 * |Interleave(planes)| <= |NativeBytes(planes, c0, e)|
    ensures DecodeNe(NativeBytes(planes, c0, e)[..2 * |Interleave(planes)|], e) == Interleave(planes)
  {
    var flat := Interleave(planes);
    InterleaveBounded(planes, 0x1_0000);
    PackedFits(planes, c0);
    assert NativeBytes(planes, c0, e)[..2 * |flat|] == EncodeNe(flat, e);
    DecodeEncode(flat, e);
  }

  /** One luma sample of 50000 becomes the bytes 80, 195 on a little-endian host. */
  lemma NativeBytesLumaExample()
    ensures NativeBytes([[50000]], 1, Little) == [80, 195]
  {
    InterleaveSingle([50000]);
    NativeBytesCell([[50000]], 1, Little, 0, 50000);
  }

  /** `copy_from_slice` of two bytes into cell `p` of `out`, whose cells before `p` already hold
      `expected` and whose cells from `p` on are still zero. */
  method WriteCell(out: array<u8>, p: nat, cell: seq<u8>, ghost expected: seq<u8>)
    requires |cell| == 2 && 2 * p + 2 <= out.Length == |expected|
    requires cell[0] == expected[2 * p] && cell[1] == expected[2 * p + 1]
    requires forall m :: 0 <= m < 2 * p ==> out[m] == expected[m]
    requires forall m :: 2 * p <= m < out.Length ==> out[m] == 0
    modifies out
    ensures forall m :: 0 <= m < 2 * p + 2 ==> out[m] == expected[m]
    ensures forall m :: 2 * p + 2 <= m < out.Length ==> out[m] == 0
  {
    out[2 * p] := cell[0];
    out[2 * p + 1] := cell[1];
  }

  /** One pass of the inner loop of `u16_to_native_endian`: the `n` samples of pixel `k`, each copied into
      its 2-byte cell, starting at cell `p`. */
  method PackNativePixel(planes: seq<seq<nat>>, c0: nat, e: Endian, out: array<u8>, k: nat, p0: nat)
    returns (p: nat)
    requires |planes| > 0 && MinLen(planes) <= c0 && AllPlanesU16(planes) && k < MinLen(planes)
    requires out.Length == |NativeBytes(planes, c0, e)| && p0 == Slot(k, |planes|, 0) && 2 * p0 <= out.Length
    requires forall m :: 0 <= m < 2 * p0 ==> out[m] == NativeBytes(planes, c0, e)[m]
    requires forall m :: 2 * p0 <= m < out.Length ==> out[m] == 0
    modifies out
    ensures p == Slot(k + 1, |planes|, 0) && 2 * p <= out.Length
    ensures forall m :: 0 <= m < 2 * p ==> out[m] == NativeBytes(planes, c0, e)[m]
    ensures forall m :: 2 * p <= m < out.Length ==> out[m] == 0
  {
    var n := |planes|;
    ghost var expected := NativeBytes(planes, c0, e);
    PackedFits(planes, c0);
    p := p0;
    for i := 0 to n
      invariant p == Slot(k, n, i) && 2 * p <= out.Length
      invariant forall m :: 0 <= m < 2 * p ==> out[m] == expected[m]
      invariant forall m :: 2 * p <= m < out.Length ==> out[m] == 0
    {
      InterleaveSlot(planes, k, i);
      NativeBytesCell(planes, c0, e, p, planes[i][k]);
      SlotNext(k, n, i);
      WriteCell(out, p, NeBytes(planes[i][k], e), expected);
      p := p + 1;
    }
    SlotNext(k, n, n);
  }

  /** The packing loops of `u16_to_native_endian`: a zeroed buffer of `c0` two-byte cells per component, then
      each sample in turn, pixel by pixel, copied in as its native-order bytes. */
  method PackNativeEndian(planes: seq<seq<nat>>, c0: nat, e: Endian) returns (bytes: seq<u8>)
    requires |planes| > 0 && MinLen(planes) <= c0 && AllPlanesU16(planes)
    ensures bytes == NativeBytes(planes, c0, e)
  {
    var length := c0 * 2 * |planes|;
    NativeBytesLength(planes, c0, e);
    var out := new u8[length](_ => 0);
    ghost var expected := NativeBytes(planes, c0, e);
    var p := 0;
    for k := 0 to MinLen(planes)
      invariant p == Slot(k, |planes|, 0) && 2 * p <= length
      invariant forall m :: 0 <= m < 2 * p ==> out[m] == expected[m]
      invariant forall m :: 2 * p <= m < length ==> out[m] == 0
    {
      p := PackNativePixel(planes, c0, e, out, k, p);
    }
    forall m | 0 <= m < length ensures out[m] == expected[m] {
      if m >= 2 * p {
        NativeBytesTail(planes, c0, e, m);
      }
    }
    bytes := out[..];
  }

  /** Writes the four bytes of pixel `k` into its chunk of `out`. */
  method WriteRgbaPixel(out: array<u8>, k: nat, px: seq<nat>)
    requires |px| == 4 && 4 * k + 4 <= out.Length
    requires forall j :: 0 <= j < 4 ==> px[j] < 0x100
    modifies out
    ensures forall m :: 0 <= m < out.Length && !(4 * k <= m < 4 * k + 4) ==> out[m] == old(out[m])
    ensures forall j :: 0 <= j < 4 ==> out[4 * k + j] == px[j]
  {
    out[4 * k] := px[0];
    out[4 * k + 1] := px[1];
    out[4 * k + 2] := px[2];
    out[4 * k + 3] := px[3];
  }

  /** The packing loop of `flatten_rgba`: one whole 4-byte chunk of `out` per pixel, while the chunks and
      every selected channel last. */
  method PackRgba(planes: seq<seq<nat>>, out: array<u8>)
    requires 1 <= |planes| <= 4 && AllBytes(planes)
    modifies out
    ensures out[..] == RgbaFill(old(out[..]), planes)
  {
    var count := RgbaPixelCount(out.Length, planes);
    ghost var before := out[..];
    ghost var expected := RgbaFill(before, planes);
    for k := 0 to count
      invariant forall m :: 0 <= m < 4 * k ==> out[m] == expected[m]
      invariant forall m :: 4 * k <= m < out.Length ==> out[m] == before[m]
    {
      var px := RgbaPixel(planes, k);
      forall j | 0 <= j < 4 ensures expected[4 * k + j] == px[j] {
        RgbaFillAt(before, planes, k, j);
      }
      WriteRgbaPixel(out, k, px);
    }
    forall m | 0 <= m < out.Length ensures out[m] == expected[m] {
      if m >= 4 * count {
        RgbaFillKeepsTail(before, planes, m);
      }
    }
  }

  /** A frame: the planar channels of one image state, and how long it is shown. */
  class Frame {
    var channels: seq<Channel>
    var duration: u64

    /** A frame with the given channels and a duration of 0. */
    constructor (channels: seq<Channel>)
      ensures this.channels == channels && duration == 0
    {
      this.channels := channels;
      duration := 0;
    }

    /** A frame with the given channels and duration. */
    constructor WithDuration(channels: seq<Channel>, duration: u64)
      ensures this.channels == channels && this.duration == duration
    {
      this.channels := channels;
      this.duration := duration;
    }

    /** `get_channels_ref`: read access to the channels a colourspace looks at. */
    function ChannelsRef(cs: ColorSpace, ignoreAlpha: bool): (r: seq<Channel>)
      reads this
      requires |channels| >= cs.components
      ensures r <= channels && |r| == SelectedCount(cs, ignoreAlpha)
    {
      Select(channels, cs, ignoreAlpha)
    }

    /** A store through the window `get_channels_mut` hands out: only a selected slot may change. */
    method SetSelected(cs: ColorSpace, ignoreAlpha: bool, k: nat, c: Channel)
      requires |channels| >= cs.components && k < SelectedCount(cs, ignoreAlpha)
      modifies this
      ensures channels == old(channels)[k := c]
      ensures duration == old(duration)
    {
      channels := channels[k := c];
    }

    /** Appends one channel after the existing ones. */
    method Add(c: Channel)
      modifies this
      ensures channels == old(channels) + [c]
      ensures duration == old(duration)
    {
      channels := channels + [c];
    }

    /** Replaces the whole group of channels. */
    method SetChannels(chs: seq<Channel>)
      modifies this
      ensures channels == chs
      ensures duration == old(duration)
    {
      channels := chs;
    }

    /** `flatten<T>`: the selected channels, viewed as kind `t`, interleaved sample by sample; a channel of
        another kind makes the typed view's `unwrap` panic. */
    function Flatten(cs: ColorSpace, t: BitType): (r: Result<seq<nat>, Panic>)
      reads this
      requires |channels| >= cs.components
      ensures r.Ok? <==> AllOfKind(channels[..cs.components], t)
    {
      var window := channels[..cs.components];
      if AllOfKind(window, t) then Ok(Interleave(Planes(window)))
      else Err(Panic("called `Result::unwrap()` on an `Err` value"))
    }

    /** `flatten_rgba`: every channel must hold bytes; then each whole 4-byte pixel of `out` that all
        selected channels can supply is written, and the rest of `out` is left as it was. */
    method FlattenRgba(cs: ColorSpace, out: array<u8>) returns (r: Result<(), ImageError>)
      requires |channels| >= cs.components
      modifies out
      ensures r.Err? <==> !AllOfKind(channels, U8)
      ensures r.Err? ==> out[..] == old(out[..])
      ensures r.Err? ==> exists j: nat :: FirstOfOtherKind(channels, U8, j) && r.error == WrongTypeId(channels[j].kind, U8)
      ensures r.Ok? ==> out[..] == RgbaFill(old(out[..]), Planes(channels[..cs.components]))
    {
      var bad := FindOtherKind(channels, U8);
      if bad.Some? {
        return Err(WrongTypeId(channels[bad.value].kind, U8));
      }
      PackRgba(Planes(channels[..cs.components]), out);
      return Ok(());
    }

    /** `u16_to_native_endian`: every channel must hold 16-bit samples (otherwise a panic); the result has
        `len()` of channel 0 bytes per component, each sample written as its two native-order bytes. */
    method U16ToNativeEndian(cs: ColorSpace, e: Endian) returns (r: Result<seq<u8>, Panic>)
      requires |channels| >= cs.components
      ensures r.Err? <==> !AllOfKind(channels, U16)
      ensures r.Ok? ==> |r.value| == ByteLen(channels[0]) * cs.components
      ensures r.Ok? ==> r.value == NativeBytes(Planes(channels[..cs.components]), |channels[0].samples|, e)
    {
      var bad := FindOtherKind(channels, U16);
      if bad.Some? {
        return Err(Panic("Wrong type ID, expected u16 but got another type"));
      }
      var planes := Planes(channels[..cs.components]);
      assert forall i :: 0 <= i < |planes| ==> AllBelow(planes[i], 0x1_0000);
      var bytes := PackNativeEndian(planes, |channels[0].samples|, e);
      NativeBytesLength(planes, |channels[0].samples|, e);
      return Ok(bytes);
    }
  }

  /** Flattening places sample `k` of component `i` at offset `k n + i`, for `n` components, and yields as many
      pixels as the shortest selected channel holds. */
  lemma FlattenLayout(f: Frame, cs: ColorSpace, t: BitType, k: nat, i: nat)
    requires |f.channels| >= cs.components && AllOfKind(f.channels[..cs.components], t)
    requires k < MinLen(Planes(f.channels[..cs.components])) && i < cs.components
    ensures f.Flatten(cs, t).Ok?
    ensures |f.Flatten(cs, t).value| == MinLen(Planes(f.channels[..cs.components])) * cs.components
    ensures k * cs.components + i < |f.Flatten(cs, t).value|
    ensures f.Flatten(cs, t).value[k * cs.components + i] == f.channels[i].samples[k]
  {
    InterleaveAt(Planes(f.channels[..cs.components]), k, i);
  }

  /** A single-component frame flattens to its one channel's samples. */
  lemma FlattenLuma(f: Frame, t: BitType)
    requires |f.channels| >= 1 && f.channels[0].kind == t
    ensures f.Flatten(Luma, t) == Ok(f.channels[0].samples)
  {
    assert Planes(f.channels[..1]) == [f.channels[0].samples];
    InterleaveSingle(f.channels[0].samples);
  }
}
