/** Typed planar storage: element kinds, channels, colourspace layouts and errors. */
module Pixels {

  datatype Option<+T> = None | Some(value: T)

  datatype Result<+T, +E> = Ok(value: T) | Err(error: E)

  /** The element kinds a channel can hold. */
  datatype BitType = U8 | U16 | F32

  /** Width in bytes of one element of the kind. */
  function ByteSize(t: BitType): nat
  {
    match t
    case U8 => 1
    case U16 => 2
    case F32 => 4
  }

  /** Exclusive bound of a stored element; an F32 element is kept as its 32-bit pattern. */
  function SampleBound(t: BitType): nat
  {
    match t
    case U8 => 0x100
    case U16 => 0x1_0000
    case F32 => 0x1_0000_0000
  }

  /** The largest intensity of a bit depth (`BitDepth::max_value`). */
  function MaxValue(t: BitType): nat
  {
    match t
    case U8 => 0xFF
    case U16 => 0xFFFF
    case F32 => 1
  }

  type u8 = x: int | 0 <= x < 0x100
  type u64 = x: int | 0 <= x < 0x1_0000_0000_0000_0000
  type i32 = x: int | -0x8000_0000 <= x < 0x8000_0000

  /** A channel: a flat buffer of elements, tagged with their kind. */
  datatype RawChannel = RawChannel(kind: BitType, samples: seq<nat>)

  predicate InRange(c: RawChannel)
  {
    forall k :: 0 <= k < |c.samples| ==> c.samples[k] < SampleBound(c.kind)
  }

  /** Every element fits its kind, so the byte length is a whole number of elements. */
  type Channel = c: RawChannel | InRange(c) witness RawChannel(U8, [])

  /** `Channel::len`: the length of the buffer in bytes. */
  function ByteLen(c: Channel): nat
  {
    |c.samples| * ByteSize(c.kind)
  }

  /** `Channel::new_with_bit_type`: a zeroed buffer of `len` bytes of kind `t`. */
  function NewWithBitType(len: nat, t: BitType): (c: Channel)
    ensures c.kind == t && |c.samples| == len / ByteSize(t)
    ensures len % ByteSize(t) == 0 ==> ByteLen(c) == len
    ensures forall k :: 0 <= k < |c.samples| ==> c.samples[k] == 0
  {
    RawChannel(t, seq(len / ByteSize(t), _ => 0))
  }

  /** Errors the core returns to its callers. */
  datatype ImageError =
    | WrongTypeId(actual: BitType, expected: BitType)
    | ImageOperationNotImplemented(operation: string, depth: BitType)

  /** A `panic!`, or an `unwrap` of a failed typed view. */
  datatype Panic = Panic(message: string)

  /** `Channel::reinterpret_as`: a typed view of the elements, refused on a kind mismatch. */
  function ReinterpretAs(c: Channel, t: BitType): (r: Result<seq<nat>, ImageError>)
    ensures r.Ok? <==> c.kind == t
    ensures r.Ok? ==> r.value == c.samples && forall k :: 0 <= k < |r.value| ==> r.value[k] < SampleBound(t)
    ensures r.Err? ==> r.error == WrongTypeId(c.kind, t)
  {
    if c.kind == t then Ok(c.samples) else Err(WrongTypeId(c.kind, t))
  }

  /** What a colourspace tells the core: its component count and whether its last component is alpha. */
  datatype Layout = Layout(components: nat, hasAlpha: bool)

  type ColorSpace = l: Layout | 1 <= l.components <= 4 && (l.hasAlpha ==> 2 <= l.components)
    witness Layout(1, false)

  const Luma: ColorSpace := Layout(1, false)

  /** Byte order of the host, which `to_ne_bytes` follows. */
  datatype Endian = Little | Big
}
