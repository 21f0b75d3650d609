/**
 * The CAN header and frame value model: a 29-bit identifier with three flag
 * bits, their folding into one 32-bit key, frames with an 8-byte payload, and
 * the driver state record.
 *
 * Integers are unbounded here; the source's unsigned widths are the subset
 * types below, and its bit operations on disjoint bit ranges are written as
 * arithmetic on powers of two.
 */
module CanInterface {

  type U8 = x: nat | x < 0x100
  type U32 = x: nat | x < 0x1_0000_0000
  /** The `id : 29` bit-field. */
  type Id29 = x: nat | x < 0x2000_0000

  const ID_MASK: U32 := 0x1FFF_FFFF
  const ERROR_MASK: U32 := 0x2000_0000
  const RTR_MASK: U32 := 0x4000_0000
  const EXTENDED_MASK: U32 := 0x8000_0000

  /** Largest standard (11-bit) identifier plus one. */
  const STANDARD_LIMIT: nat := 0x800

  /** `x & mask` is non-zero, for a mask with a single bit set. */
  predicate HasBit(x: nat, mask: nat)
    requires mask > 0
  {
    (x / mask) % 2 == 1
  }

  /** A CAN header: identifier and the error, rtr and extended flags. */
  datatype Header = Header(id: Id29, isError: bool, isRtr: bool, isExtended: bool)

  /** The header's identifier fits its mode: 11 bits when standard, 29 when extended. */
  predicate HeaderIsValid(h: Header): (b: bool)
    ensures b <==> h.isExtended || h.id < STANDARD_LIMIT
  {
    h.id < (if h.isExtended then 0x2000_0000 else STANDARD_LIMIT)
  }

  /**
   * The folded key: the identifier in bits 0-28, error at bit 29, rtr at bit 30
   * and extended at bit 31.
   */
  function FullId(h: Header): (r: U32)
    ensures r % 0x2000_0000 == h.id
    ensures HasBit(r, ERROR_MASK) == h.isError
    ensures HasBit(r, RTR_MASK) == h.isRtr
    ensures HasBit(r, EXTENDED_MASK) == h.isExtended
  {
    h.id
      + (if h.isError then ERROR_MASK else 0)
      + (if h.isRtr then RTR_MASK else 0)
      + (if h.isExtended then EXTENDED_MASK else 0)
  }

  /** Reads the four fields back out of a 32-bit key; the inverse of FullId. */
  function HeaderOfFullId(x: U32): Header
  {
    Header(x % 0x2000_0000, HasBit(x, ERROR_MASK), HasBit(x, RTR_MASK), HasBit(x, EXTENDED_MASK))
  }

  /** HeaderOfFullId and FullId are inverse to each other. */
  lemma FullIdRoundTrip(h: Header, x: U32)
    ensures HeaderOfFullId(FullId(h)) == h
    ensures FullId(HeaderOfFullId(x)) == x
  {
  }

  /** Distinct headers have distinct full ids. */
  lemma FullIdInjective(a: Header, b: Header)
    ensures FullId(a) == FullId(b) <==> a == b
  {
  }

  /** Clearing bit 31 of the key gives the key of the same header made standard. */
  lemma FullIdWithoutExtended(h: Header)
    ensures FullId(h) % EXTENDED_MASK == FullId(h.(isExtended := false))
  {
  }

  /** The dispatch key: every error header shares ERROR_MASK, other headers use their full id. */
  function Key(h: Header): (r: U32)
    ensures r == ERROR_MASK <==> h.isError
    ensures !h.isError ==> HeaderOfFullId(r) == h
  {
    if h.isError then ERROR_MASK else FullId(h)
  }

  /**
   * Two headers share a key exactly when both are error headers, or neither is
   * and they are the same header.
   */
  lemma KeySeparatesErrors(a: Header, b: Header)
    ensures Key(a) == Key(b) <==> (a.isError && b.isError) || (!a.isError && !b.isError && a == b)
  {
  }

  /** The default header: id 0 and no flags. */
  function DefaultHeader(): (r: Header)
    ensures FullId(r) == 0 && HeaderIsValid(r)
  {
    Header(0, false, false, false)
  }

  /** Header(i, extended, rtr, error): the 29-bit field keeps `i` modulo 2^29. */
  function MakeHeader(i: U32, extended: bool, rtr: bool, error: bool): (r: Header)
    ensures r.id == i % 0x2000_0000
    ensures r.isExtended == extended && r.isRtr == rtr && r.isError == error
  {
    Header(i % 0x2000_0000, error, rtr, extended)
  }

  /** A constructed header is valid exactly when it is extended or its truncated id has 11 bits. */
  lemma MakeHeaderValidity(i: U32, extended: bool, rtr: bool, error: bool)
    ensures HeaderIsValid(MakeHeader(i, extended, rtr, error)) <==> extended || i % 0x2000_0000 < STANDARD_LIMIT
  {
  }

  /** The 11-bit boundary: 2047 is a valid standard id, 2048 is not, and 2048 is a valid extended id. */
  lemma ValidityBoundary()
    ensures HeaderIsValid(MakeHeader(2047, false, false, false))
    ensures !HeaderIsValid(MakeHeader(2048, false, false, false))
    ensures HeaderIsValid(MakeHeader(2048, true, false, false))
  {
  }

  /** MsgHeader(i, rtr): standard, not an error. */
  function MsgHeader(i: U32, rtr: bool): (r: Header)
    ensures r.id == i % 0x2000_0000
    ensures !r.isExtended && !r.isError && r.isRtr == rtr
    ensures HeaderIsValid(r) <==> i % 0x2000_0000 < STANDARD_LIMIT
    ensures Key(r) == FullId(r)
  {
    MakeHeader(i, false, rtr, false)
  }

  /** ExtendedHeader(i, rtr): extended, not an error; always valid because of the truncation. */
  function ExtendedHeader(i: U32, rtr: bool): (r: Header)
    ensures r.isExtended && !r.isError && r.isRtr == rtr
    ensures HeaderIsValid(r)
    ensures Key(r) == FullId(r) == i % 0x2000_0000 + EXTENDED_MASK + (if rtr then RTR_MASK else 0)
  {
    MakeHeader(i, true, rtr, false)
  }

  /** ErrorHeader(i): an error header, neither extended nor rtr, whose key is ERROR_MASK. */
  function ErrorHeader(i: U32): (r: Header)
    ensures r.id == i % 0x2000_0000
    ensures r.isError && !r.isExtended && !r.isRtr
    ensures Key(r) == ERROR_MASK
  {
    MakeHeader(i, false, false, true)
  }

  /** The 8 data bytes of a frame. */
  type Payload = s: seq<U8> | |s| == 8 witness [0, 0, 0, 0, 0, 0, 0, 0]

  /** Payload bytes the source leaves unwritten; modelled as zero. */
  const BLANK: Payload := [0, 0, 0, 0, 0, 0, 0, 0]

  /** A CAN frame: a header, 8 payload bytes and the number `dlc` of them in use. */
  datatype Frame = Frame(header: Header, data: Payload, dlc: U8)

  predicate FrameIsValid(f: Frame)
  {
    f.dlc <= 8 && HeaderIsValid(f.header)
  }

  /** A frame is valid exactly when its length fits the data array and its id fits its mode. */
  lemma FrameValidity(f: Frame)
    ensures FrameIsValid(f) <==> f.dlc <= |f.data| && (f.header.isExtended || f.header.id < STANDARD_LIMIT)
  {
  }

  /** Frame(): the default header and no data. */
  function DefaultFrame(): (r: Frame)
    ensures FrameIsValid(r) && r.dlc == 0 && FullId(r.header) == 0
  {
    Frame(DefaultHeader(), BLANK, 0)
  }

  /** Frame(h, l): a copy of every field of `h` with length `l`. */
  function FrameOf(h: Header, l: U8): (r: Frame)
    ensures r.header == h && r.dlc == l
    ensures FrameIsValid(r) <==> l <= 8 && HeaderIsValid(h)
  {
    Frame(h, BLANK, l)
  }

  datatype DriverState = Closed | Open | Ready

  /** Driver state; the platform error code is not part of this model. */
  datatype State = State(driverState: DriverState, internalError: U32)

  /** Ready is the one driver state that is neither closed nor open. */
  predicate IsReady(s: State): (b: bool)
    ensures b <==> !(s.driverState == Closed || s.driverState == Open)
  {
    s.driverState == Ready
  }

  /** State(): closed, no internal error, and so not ready. */
  function DefaultState(): (r: State)
    ensures r.driverState == Closed && r.internalError == 0
    ensures !IsReady(r)
  {
    State(Closed, 0)
  }
}
