/**
 * The candump-style text codec: hex digits and byte buffers in both
 * directions, header text `<id-hex>`, frame text `<id-hex>#<payload-hex>`,
 * and the filter text parser `<id-hex>[(:|~|-|_)<hex>]`.
 *
 * Loops of the source are methods proved against specification functions
 * (DecodeHex, HexOfBytes, FrameText, FrameOfText); the lemmas below are about
 * those functions.
 */
module CanString {
  import opened CanInterface

  datatype Option<T> = None | Some(value: T)

  // ---------------------------------------------------------------------------
  // Hex digits

  /** hex2dec: the value of one hex digit, failing on anything else. */
  function HexToDec(c: char): (r: Option<U8>)
    ensures r.Some? ==> r.value < 16
  {
    if '0' <= c <= '9' then Some(c as int - '0' as int)
    else if 'a' <= c <= 'f' then Some(c as int - 'a' as int + 10)
    else if 'A' <= c <= 'F' then Some(c as int - 'A' as int + 10)
    else None
  }

  predicate IsHexDigit(c: char)
  {
    HexToDec(c).Some?
  }

  function DigitValue(c: char): nat
    requires IsHexDigit(c)
  {
    HexToDec(c).value
  }

  predicate AllHex(s: string)
  {
    forall i :: 0 <= i < |s| ==> IsHexDigit(s[i])
  }

  /**
   * dec2hex: the digit for a value below 16 in the requested letter case, and
   * whether it succeeded; values from 16 up give `'?'` and failure.
   */
  function DecToHex(d: U8, lc: bool): (r: (bool, char))
    ensures r.0 <==> d < 16
    ensures r.0 ==> HexToDec(r.1) == Some(d)
    ensures r.0 && lc ==> !('A' <= r.1 <= 'Z')
    ensures r.0 && !lc ==> !('a' <= r.1 <= 'z')
    ensures !r.0 ==> r.1 == '?'
  {
    if d < 10 then (true, ('0' as int + d) as char)
    else if d < 16 && lc then (true, ('a' as int + (d - 10)) as char)
    else if d < 16 && !lc then (true, ('A' as int + (d - 10)) as char)
    else (false, '?')
  }

  /** The digit DecToHex writes for a value below 16. */
  function DigitChar(d: nat, lc: bool): (c: char)
    requires d < 16
    ensures IsHexDigit(c) && DigitValue(c) == d
  {
    DecToHex(d, lc).1
  }

  function LowerChar(c: char): char
  {
    if 'A' <= c <= 'Z' then (c as int + 32) as char else c
  }

  function UpperChar(c: char): char
  {
    if 'a' <= c <= 'z' then (c as int - 32) as char else c
  }

  /** hex2dec accepts exactly the 22 hex digit characters. */
  lemma HexDigitsAccepted(c: char)
    ensures HexToDec(c).Some? <==> c in "0123456789abcdefABCDEF"
  {
  }

  /** A decoded digit prints back as itself, up to letter case. */
  lemma DigitRoundTrip(c: char, d: U8)
    requires HexToDec(c) == Some(d)
    ensures DecToHex(d, true).1 == LowerChar(c)
    ensures DecToHex(d, false).1 == UpperChar(c)
  {
  }

  // ---------------------------------------------------------------------------
  // Hex numbers

  function Pow16(k: nat): (r: nat)
    ensures r >= 1
  {
    if k == 0 then 1 else 16 * Pow16(k - 1)
  }

  lemma Pow16Eight()
    ensures Pow16(8) == 0x1_0000_0000
  {
    assert Pow16(2) == 0x100;
    assert Pow16(4) == 0x1_0000;
    assert Pow16(6) == 0x100_0000;
  }

  /** The number a string of hex digits denotes, most significant digit first. */
  function HexValue(s: string): nat
    requires AllHex(s)
  {
    if s == [] then 0 else 16 * HexValue(s[..|s| - 1]) + DigitValue(s[|s| - 1])
  }

  lemma {:induction false} HexValueBound(s: string)
    requires AllHex(s)
    ensures HexValue(s) < Pow16(|s|)
  {
    if s != [] {
      HexValueBound(s[..|s| - 1]);
    }
  }

  /** Leading zeros do not change the value. */
  lemma {:induction false} HexValueLeadingZeros(z: nat, t: string)
    requires AllHex(t)
    ensures AllHex(Zeros(z) + t) && HexValue(Zeros(z) + t) == HexValue(t)
  {
    var s := Zeros(z) + t;
    assert AllHex(s) by {
      forall i | 0 <= i < |s| ensures IsHexDigit(s[i]) {
        if i >= z { assert s[i] == t[i - z]; }
      }
    }
    if t == [] {
      assert s == Zeros(z);
      ZerosValue(z);
    } else {
      var t' := t[..|t| - 1];
      assert s[..|s| - 1] == Zeros(z) + t';
      HexValueLeadingZeros(z, t');
    }
  }

  lemma {:induction false} ZerosValue(z: nat)
    ensures AllHex(Zeros(z)) && HexValue(Zeros(z)) == 0
  {
    if z > 0 {
      assert Zeros(z)[..z - 1] == Zeros(z - 1);
      ZerosValue(z - 1);
    }
  }

  function Zeros(z: nat): (s: string)
    ensures |s| == z && forall i :: 0 <= i < z ==> s[i] == '0'
  {
    seq(z, _ => '0')
  }

  /** Text of at most 8 hex digits: the strings on which `tohex` is modelled. */
  predicate IsHexText(s: string)
  {
    |s| <= 8 && AllHex(s)
  }

  /** tohex: the 32-bit value of at most 8 hex digits; the empty string gives 0. */
  function ToHex(s: string): (r: U32)
    requires IsHexText(s)
    ensures r < Pow16(|s|)
    ensures s == [] ==> r == 0
  {
    HexValueBound(s);
    Pow16Monotone(|s|, 8);
    Pow16Eight();
    HexValue(s)
  }

  lemma {:induction false} Pow16Monotone(j: nat, k: nat)
    requires j <= k
    ensures Pow16(j) <= Pow16(k)
  {
    if j < k {
      Pow16Monotone(j, k - 1);
    }
  }

  /**
   * The hex digits `std::hex` prints for `n`: no leading zeros, and "0" for 0.
   * Reading them back gives `n`.
   */
  function NatToHex(n: nat, lc: bool): (s: string)
    ensures |s| >= 1 && AllHex(s)
    ensures HexValue(s) == n
    ensures |s| > 1 ==> s[0] != '0'
  {
    if n < 16 then [DigitChar(n, lc)]
    else
      var hi := NatToHex(n / 16, lc);
      var s := hi + [DigitChar(n % 16, lc)];
      assert s[..|s| - 1] == hi;
      s
  }

  /** `n` needs at most `k` digits exactly when it is below 16^k. */
  lemma {:induction false} NatToHexLength(n: nat, k: nat, lc: bool)
    requires k >= 1
    ensures |NatToHex(n, lc)| <= k <==> n < Pow16(k)
    decreases k
  {
    Pow16Monotone(1, k);
    if n >= 16 && k > 1 {
      NatToHexLength(n / 16, k - 1, lc);
    }
  }

  /** `std::setw(w)` with fill `'0'`. */
  function PadLeft(s: string, w: nat): (r: string)
    ensures |r| == if |s| < w then w else |s|
  {
    if |s| < w then Zeros(w - |s|) + s else s
  }

  // ---------------------------------------------------------------------------
  // Bytes

  /**
   * byte2hex: two digits, or one when the high nibble is zero and no padding
   * is asked for. The digits read back as the byte.
   */
  function ByteToHex(d: U8, pad: bool, lc: bool): (s: string)
    ensures |s| == (if pad || d >= 16 then 2 else 1)
    ensures AllHex(s) && HexValue(s) == d
  {
    var hi := d / 16;
    var lo := [DecToHex(d % 16, lc).1];
    if hi != 0 || pad then
      var s := [DecToHex(hi, lc).1] + lo;
      assert s[..1] == [DecToHex(hi, lc).1] && s[..1][..0] == [];
      assert HexValue(s[..1]) == hi;
      s
    else
      lo
  }

  /** The payload text: every byte as two digits, in order. */
  function HexOfBytes(b: seq<U8>, lc: bool): (s: string)
    ensures |s| == 2 * |b|
  {
    if b == [] then [] else HexOfBytes(b[..|b| - 1], lc) + ByteToHex(b[|b| - 1], true, lc)
  }

  /** buffer2hex */
  method BufferToHex(bytes: seq<U8>, lc: bool) returns (s: string)
    ensures s == HexOfBytes(bytes, lc)
  {
    s := [];
    var i := 0;
    while i < |bytes|
      invariant 0 <= i <= |bytes|
      invariant s == HexOfBytes(bytes[..i], lc)
    {
      var b := ByteToHex(bytes[i], true, lc);
      assert bytes[..i + 1][..i] == bytes[..i];
      s := s + b;
      i := i + 1;
    }
    assert bytes[..i] == bytes;
  }

  lemma {:induction false} HexOfBytesAt(b: seq<U8>, lc: bool, k: nat)
    requires k < |b|
    ensures HexOfBytes(b, lc)[2 * k] == DigitChar(b[k] / 16, lc)
    ensures HexOfBytes(b, lc)[2 * k + 1] == DigitChar(b[k] % 16, lc)
  {
    var init := b[..|b| - 1];
    if k < |b| - 1 {
      HexOfBytesAt(init, lc, k);
    }
  }

  /** The input with a `'0'` in front when its length is odd and padding is asked for. */
  function Padded(s: string, pad: bool): string
  {
    if |s| % 2 != 0 && pad then "0" + s else s
  }

  /** The byte that the digits at positions 2k and 2k+1 denote. */
  function PairValue(p: string, k: nat): U8
    requires 2 * k + 1 < |p| && IsHexDigit(p[2 * k]) && IsHexDigit(p[2 * k + 1])
  {
    16 * DigitValue(p[2 * k]) + DigitValue(p[2 * k + 1])
  }

  /**
   * What hex2buffer decodes: nothing for an odd length without padding or for
   * any non-hex character, else one byte per digit pair.
   */
  function DecodeHex(s: string, pad: bool): (r: Option<seq<U8>>)
    ensures r.Some? <==> (|s| % 2 == 0 || pad) && AllHex(Padded(s, pad))
    ensures r.Some? ==> |r.value| == |Padded(s, pad)| / 2
  {
    var p := Padded(s, pad);
    if |p| % 2 != 0 || !AllHex(p) then None
    else Some(seq(|p| / 2, k requires 0 <= k < |p| / 2 => PairValue(p, k)))
  }

  /** hex2buffer. On failure after the odd-length check, `out` has been resized. */
  method HexToBuffer(s: string, pad: bool) returns (ok: bool, out: seq<U8>)
    ensures ok == DecodeHex(s, pad).Some?
    ensures ok ==> out == DecodeHex(s, pad).value
    ensures !ok && (|s| % 2 == 0 || pad) ==> |out| == |Padded(s, pad)| / 2
  {
    var p := s;
    if |p| % 2 != 0 {
      if pad {
        p := "0" + p;
      } else {
        return false, [];
      }
    }
    var buf := new U8[|p| / 2];
    var i := 0;
    while i < buf.Length
      invariant 0 <= i <= buf.Length == |p| / 2
      invariant p == Padded(s, pad) && |p| % 2 == 0
      invariant forall j :: 0 <= j < 2 * i ==> IsHexDigit(p[j])
      invariant forall k :: 0 <= k < i ==> buf[k] == PairValue(p, k)
    {
      var hi := HexToDec(p[2 * i]);
      var lo := HexToDec(p[2 * i + 1]);
      if hi.None? || lo.None? {
        return false, buf[..];
      }
      buf[i] := 16 * hi.value + lo.value;
      i := i + 1;
    }
    out := buf[..];
    ok := true;
  }

  /** A single non-hex character anywhere makes the decoding fail, padded or not. */
  lemma NonHexRejected(s: string, pad: bool, i: nat)
    requires i < |s| && !IsHexDigit(s[i])
    ensures DecodeHex(s, pad).None?
  {
    var p := Padded(s, pad);
    var j := if p == s then i else i + 1;
    assert p[j] == s[i];
  }

  /** Decoding the payload text gives back the bytes, in either letter case. */
  lemma BufferRoundTrip(b: seq<U8>, lc: bool)
    ensures DecodeHex(HexOfBytes(b, lc), false) == Some(b)
  {
    var p := HexOfBytes(b, lc);
    forall j | 0 <= j < |p| ensures IsHexDigit(p[j]) {
      HexOfBytesAt(b, lc, j / 2);
    }
    var r := DecodeHex(p, false);
    assert |r.value| == |b|;
    forall k | 0 <= k < |b| ensures r.value[k] == b[k] {
      HexOfBytesAt(b, lc, k);
      assert r.value[k] == 16 * (b[k] / 16) + b[k] % 16;
    }
    assert r.value == b;
  }

  // ---------------------------------------------------------------------------
  // Headers

  /**
   * tostring(Header): the full id with bit 31 cleared, in hex; zero-padded to
   * exactly 8 digits when extended, without leading zeros otherwise.
   */
  function HeaderToText(h: Header, lc: bool): (s: string)
    ensures IsHexText(s) && HexValue(s) == FullId(h) % EXTENDED_MASK
    ensures h.isExtended ==> |s| == 8
    ensures !h.isExtended ==> |s| >= 1 && (|s| == 1 || s[0] != '0')
  {
    var digits := NatToHex(FullId(h) % EXTENDED_MASK, lc);
    Pow16Eight();
    NatToHexLength(FullId(h) % EXTENDED_MASK, 8, lc);
    if h.isExtended then
      HexValueLeadingZeros(8 - |digits|, digits);
      PadLeft(digits, 8)
    else
      digits
  }

  /**
   * toheader: the id is the low 29 bits of the value, rtr is bit 30 and error
   * bit 29; the header is extended when bit 31 is set or when the text has
   * exactly 8 digits and the id does not fit 11 bits.
   */
  function ToHeader(s: string): (h: Header)
    requires IsHexText(s)
    ensures h.id == ToHex(s) % 0x2000_0000
    ensures h.isRtr == HasBit(ToHex(s), RTR_MASK) && h.isError == HasBit(ToHex(s), ERROR_MASK)
    ensures h.isExtended <==> HasBit(ToHex(s), EXTENDED_MASK) || (|s| == 8 && h.id >= STANDARD_LIMIT)
  {
    var v := ToHex(s);
    var id := v % 0x2000_0000;
    MakeHeader(id, HasBit(v, EXTENDED_MASK) || (|s| == 8 && id >= STANDARD_LIMIT), HasBit(v, RTR_MASK), HasBit(v, ERROR_MASK))
  }

  /**
   * Printing a valid header and parsing it back gives the header, except that
   * an extended header whose id fits 11 bits comes back standard.
   */
  lemma HeaderRoundTrip(h: Header, lc: bool)
    requires HeaderIsValid(h)
    ensures ToHeader(HeaderToText(h, lc)) == h.(isExtended := h.isExtended && h.id >= STANDARD_LIMIT)
  {
    var s := HeaderToText(h, lc);
    var std := h.(isExtended := false);
    FullIdWithoutExtended(h);
    FullIdRoundTrip(std, 0);
    assert ToHex(s) == FullId(std);
  }

  /** Bit 31 is not printed, so an extended header with id 0x123 reads back as a standard one. */
  lemma ShortExtendedIdReadsBackStandard(lc: bool)
    ensures IsHexText(HeaderToText(ExtendedHeader(0x123, false), lc))
    ensures ToHeader(HeaderToText(ExtendedHeader(0x123, false), lc)) == MsgHeader(0x123, false)
  {
    HeaderRoundTrip(ExtendedHeader(0x123, false), lc);
  }

  // ---------------------------------------------------------------------------
  // Frames

  /** The first position of a character from `cs`, as `find` and `find_first_of` report it. */
  function FirstOf(s: string, cs: set<char>): (r: Option<nat>)
    ensures r.Some? ==> r.value < |s| && s[r.value] in cs
    ensures r.Some? ==> forall j :: 0 <= j < r.value ==> s[j] !in cs
    ensures r.None? ==> forall j :: 0 <= j < |s| ==> s[j] !in cs
  {
    if s == [] then None
    else if s[0] in cs then Some(0)
    else match FirstOf(s[1..], cs)
      case None => None
      case Some(k) => Some(k + 1)
  }

  /** The frame text: header text, `'#'`, then the first `dlc` payload bytes in hex. */
  function FrameText(f: Frame, lc: bool): string
    requires f.dlc <= 8
  {
    HeaderToText(f.header, lc) + "#" + HexOfBytes(f.data[..f.dlc], lc)
  }

  /** tostring(Frame) */
  method FrameToText(f: Frame, lc: bool) returns (s: string)
    requires f.dlc <= 8
    ensures s == FrameText(f, lc)
  {
    var payload := new U8[f.dlc];
    for i := 0 to f.dlc
      invariant forall k :: 0 <= k < i ==> payload[k] == f.data[k]
    {
      payload[i] := f.data[i];
    }
    assert payload[..] == f.data[..f.dlc];
    var hex := BufferToHex(payload[..], lc);
    s := HeaderToText(f.header, lc) + "#" + hex;
  }

  /** The frame toframe returns on a missing `'#'` or an oversized payload. */
  function SentinelFrame(): (r: Frame)
    ensures !FrameIsValid(r)
    ensures r.header.id == 0xfff && !r.header.isExtended && r.dlc == 0
  {
    FrameOf(MsgHeader(0xfff, false), 0)
  }

  /** The text before the first `'#'`, if any, is the header text toheader is modelled on. */
  predicate FrameTextInDomain(s: string)
  {
    match FirstOf(s, {'#'})
    case None => true
    case Some(sep) => IsHexText(s[..sep])
  }

  /**
   * What toframe returns: the sentinel for a missing `'#'` or more than 8
   * payload bytes; the parsed header with no data for an invalid header or a
   * payload that is not an even number of hex digits; otherwise the header and
   * the decoded bytes.
   */
  function FrameOfText(s: string): Frame
    requires FrameTextInDomain(s)
  {
    match FirstOf(s, {'#'})
    case None => SentinelFrame()
    case Some(sep) => FrameOfParts(ToHeader(s[..sep]), s[sep + 1..])
  }

  /** Frame text whose first `'#'` is at `sep` parses as its two parts. */
  lemma FrameOfTextAt(s: string, sep: nat)
    requires FrameTextInDomain(s) && FirstOf(s, {'#'}) == Some(sep)
    ensures sep < |s| && IsHexText(s[..sep])
    ensures FrameOfText(s) == FrameOfParts(ToHeader(s[..sep]), s[sep + 1..])
  {
  }

  /** The part of toframe after the header is parsed. */
  function FrameOfParts(header: Header, payload: string): Frame
  {
    if !HeaderIsValid(header) then FrameOf(header, 0)
    else match DecodeHex(payload, false)
      case None => FrameOf(header, 0)
      case Some(bytes) =>
        if |bytes| > 8 then SentinelFrame()
        else Frame(header, bytes + BLANK[|bytes|..], |bytes|)
  }

  /** toframe */
  method ToFrame(s: string) returns (f: Frame)
    requires FrameTextInDomain(s)
    ensures f == FrameOfText(s)
  {
    var sep := FirstOf(s, {'#'});
    if sep.None? {
      return SentinelFrame();
    }
    FrameOfTextAt(s, sep.value);
    var header := ToHeader(s[..sep.value]);
    var payload := s[sep.value + 1..];
    f := FrameOf(header, 0);
    if HeaderIsValid(header) {
      var ok, buffer := HexToBuffer(payload, false);
      if ok {
        if |buffer| > 8 {
          assert FrameOfParts(header, payload) == SentinelFrame();
          return SentinelFrame();
        }
        f := CopyPayload(f, buffer);
        assert f == FrameOfParts(header, payload);
      } else {
        assert f == FrameOfParts(header, payload);
      }
    } else {
      assert f == FrameOfParts(header, payload);
    }
  }

  /** The copy loop of toframe: the decoded bytes into `data`, then their number into `dlc`. */
  method CopyPayload(frame: Frame, buffer: seq<U8>) returns (f: Frame)
    requires |buffer| <= 8 && frame.data == BLANK
    ensures f == Frame(frame.header, buffer + BLANK[|buffer|..], |buffer|)
  {
    f := frame;
    var i := 0;
    while i < |buffer|
      invariant 0 <= i <= |buffer|
      invariant f == frame.(data := buffer[..i] + BLANK[i..])
    {
      PayloadStep(buffer, i);
      f := f.(data := f.data[i := buffer[i]]);
      i := i + 1;
    }
    assert buffer[..i] == buffer;
    f := f.(dlc := |buffer|);
  }

  /** Writing byte `i` extends the copied prefix by one. */
  lemma PayloadStep(buffer: seq<U8>, i: nat)
    requires i < |buffer| <= 8
    ensures (buffer[..i] + BLANK[i..])[i := buffer[i]] == buffer[..i + 1] + BLANK[i + 1..]
  {
    var a := (buffer[..i] + BLANK[i..])[i := buffer[i]];
    var b := buffer[..i + 1] + BLANK[i + 1..];
    assert |a| == |b|;
    forall k | 0 <= k < |a| ensures a[k] == b[k] {
    }
  }

  /** A frame text whose `'#'` is missing gives the sentinel, which is itself invalid. */
  lemma MissingSeparatorGivesSentinel(s: string)
    requires '#' !in s
    ensures FrameTextInDomain(s) && FrameOfText(s) == SentinelFrame()
    ensures !FrameIsValid(FrameOfText(s))
  {
  }

  /** Frame text made of a header text, `'#'` and a payload parses part by part. */
  lemma FrameOfTextSplit(head: string, payload: string)
    requires IsHexText(head)
    ensures FrameTextInDomain(head + "#" + payload)
    ensures FrameOfText(head + "#" + payload) == FrameOfParts(ToHeader(head), payload)
  {
    var s := head + "#" + payload;
    assert s == head + ("#" + payload);
    FirstOfAfterHexText(head, "#" + payload);
    assert s[..|head|] == head && s[|head| + 1..] == payload;
  }

  /**
   * "bad" has no `'#'` and gives the sentinel; "123#ABCDEF1234567890" carries
   * 16 digits, that is 8 bytes, and gives a valid frame with id 0x123.
   */
  lemma TextExamples()
    ensures FrameTextInDomain("bad") && FrameOfText("bad") == SentinelFrame()
    ensures FrameTextInDomain("123#ABCDEF1234567890")
    ensures FrameOfText("123#ABCDEF1234567890").header == MsgHeader(0x123, false)
    ensures FrameOfText("123#ABCDEF1234567890").dlc == 8
    ensures FrameIsValid(FrameOfText("123#ABCDEF1234567890"))
  {
    MissingSeparatorGivesSentinel("bad");
    var payload := "ABCDEF1234567890";
    assert "123#ABCDEF1234567890" == "123" + "#" + payload;
    FrameOfTextSplit("123", payload);
    ExampleHeaderText();
    ExamplePayloadText();
  }

  lemma ExampleHeaderText()
    ensures IsHexText("123") && ToHeader("123") == MsgHeader(0x123, false)
  {
    assert "123"[..2] == "12" && "12"[..1] == "1" && "1"[..0] == [];
  }

  lemma ExamplePayloadText()
    ensures DecodeHex("ABCDEF1234567890", false).Some?
    ensures |DecodeHex("ABCDEF1234567890", false).value| == 8
  {
    var p := "ABCDEF1234567890";
    assert IsHexDigit(p[0]) && IsHexDigit(p[1]) && IsHexDigit(p[2]) && IsHexDigit(p[3]);
    assert IsHexDigit(p[4]) && IsHexDigit(p[5]) && IsHexDigit(p[6]) && IsHexDigit(p[7]);
    assert IsHexDigit(p[8]) && IsHexDigit(p[9]) && IsHexDigit(p[10]) && IsHexDigit(p[11]);
    assert IsHexDigit(p[12]) && IsHexDigit(p[13]) && IsHexDigit(p[14]) && IsHexDigit(p[15]);
  }

  /**
   * With a valid header, a payload that is not hex gives the same frame as an
   * empty payload: a valid frame with no data, not the sentinel.
   */
  lemma BadPayloadLooksEmpty(head: string, payload: string)
    requires IsHexText(head) && HeaderIsValid(ToHeader(head))
    requires DecodeHex(payload, false).None?
    ensures FrameTextInDomain(head + "#" + payload) && FrameTextInDomain(head + "#")
    ensures FrameOfText(head + "#" + payload) == FrameOfText(head + "#") == FrameOf(ToHeader(head), 0)
    ensures FrameIsValid(FrameOfText(head + "#" + payload))
  {
    FrameOfTextSplit(head, payload);
    FrameOfTextSplit(head, "");
    assert head + "#" + "" == head + "#";
  }

  /** Hex digits hold none of the delimiters, so the first delimiter after them is found where it is. */
  lemma FirstOfAfterHexText(head: string, rest: string)
    requires AllHex(head) && |rest| > 0 && rest[0] in "#:~-_"
    ensures FirstOf(head + rest, {rest[0]}) == Some(|head|)
    ensures rest[0] in FILTER_DELIMITERS ==> FirstOf(head + rest, FILTER_DELIMITERS) == Some(|head|)
  {
    var s := head + rest;
    assert s[|head|] == rest[0];
    forall j | 0 <= j < |head| ensures s[j] !in "#:~-_" {
      assert s[j] == head[j];
      assert IsHexDigit(head[j]);
    }
  }

  /**
   * With a valid header, any payload that decodes to more than 8 bytes, in
   * whatever letter case, gives the sentinel.
   */
  lemma OversizedPayloadGivesSentinel(head: string, payload: string)
    requires IsHexText(head) && HeaderIsValid(ToHeader(head))
    requires DecodeHex(payload, false).Some? && |DecodeHex(payload, false).value| > 8
    ensures FrameTextInDomain(head + "#" + payload)
    ensures FrameOfText(head + "#" + payload) == SentinelFrame()
  {
    FrameOfTextSplit(head, payload);
  }

  /**
   * An invalid header is checked before the payload: the result is the parsed
   * header with no data, whatever follows the `'#'`, even an oversized payload.
   */
  lemma InvalidHeaderGivesNoData(head: string, payload: string)
    requires IsHexText(head) && !HeaderIsValid(ToHeader(head))
    ensures FrameTextInDomain(head + "#" + payload)
    ensures FrameOfText(head + "#" + payload) == FrameOf(ToHeader(head), 0)
    ensures !FrameIsValid(FrameOfText(head + "#" + payload))
  {
    FrameOfTextSplit(head, payload);
  }

  /**
   * Printing a valid frame and parsing it back keeps the header, the length
   * and the bytes in use, except that an extended frame whose id fits 11 bits
   * comes back standard.
   */
  lemma FrameRoundTrip(f: Frame, lc: bool)
    requires FrameIsValid(f)
    ensures FrameTextInDomain(FrameText(f, lc))
    ensures FrameOfText(FrameText(f, lc)).header
      == f.header.(isExtended := f.header.isExtended && f.header.id >= STANDARD_LIMIT)
    ensures FrameOfText(FrameText(f, lc)).dlc == f.dlc
    ensures FrameOfText(FrameText(f, lc)).data[..f.dlc] == f.data[..f.dlc]
  {
    var head := HeaderToText(f.header, lc);
    var bytes := f.data[..f.dlc];
    FrameOfTextSplit(head, HexOfBytes(bytes, lc));
    HeaderRoundTrip(f.header, lc);
    BufferRoundTrip(bytes, lc);
    var h' := ToHeader(head);
    assert HeaderIsValid(h');
    assert FrameOfParts(h', HexOfBytes(bytes, lc)) == Frame(h', bytes + BLANK[|bytes|..], |bytes|);
    assert (bytes + BLANK[|bytes|..])[..f.dlc] == bytes;
  }

  // ---------------------------------------------------------------------------
  // Letter case

  function Lowered(s: string): (r: string)
    ensures |r| == |s| && forall i :: 0 <= i < |s| ==> r[i] == LowerChar(s[i])
  {
    seq(|s|, i requires 0 <= i < |s| => LowerChar(s[i]))
  }

  function Uppered(s: string): (r: string)
    ensures |r| == |s| && forall i :: 0 <= i < |s| ==> r[i] == UpperChar(s[i])
  {
    seq(|s|, i requires 0 <= i < |s| => UpperChar(s[i]))
  }

  /** Two texts that differ only in the case of their letters. */
  predicate CaseVariants(lower: string, upper: string)
  {
    lower == Lowered(upper) && upper == Uppered(lower)
  }

  lemma CaseVariantsConcat(a: string, b: string, c: string, d: string)
    requires CaseVariants(a, b) && CaseVariants(c, d)
    ensures CaseVariants(a + c, b + d)
  {
    assert a + c == Lowered(b + d);
    assert b + d == Uppered(a + c);
  }

  lemma DigitCharCase(d: nat)
    requires d < 16
    ensures CaseVariants([DigitChar(d, true)], [DigitChar(d, false)])
  {
    assert [DigitChar(d, true)] == Lowered([DigitChar(d, false)]);
    assert [DigitChar(d, false)] == Uppered([DigitChar(d, true)]);
  }

  lemma {:induction false} NatToHexCase(n: nat)
    ensures CaseVariants(NatToHex(n, true), NatToHex(n, false))
  {
    if n < 16 {
      DigitCharCase(n);
    } else {
      NatToHexCase(n / 16);
      DigitCharCase(n % 16);
      CaseVariantsConcat(NatToHex(n / 16, true), NatToHex(n / 16, false),
        [DigitChar(n % 16, true)], [DigitChar(n % 16, false)]);
    }
  }

  /** The lower- and upper-case header texts differ only in letter case. */
  lemma HeaderTextCase(h: Header)
    ensures CaseVariants(HeaderToText(h, true), HeaderToText(h, false))
  {
    var v := FullId(h) % EXTENDED_MASK;
    NatToHexCase(v);
    Pow16Eight();
    NatToHexLength(v, 8, true);
    if h.isExtended {
      var z := Zeros(8 - |NatToHex(v, true)|);
      assert CaseVariants(z, z);
      CaseVariantsConcat(z, z, NatToHex(v, true), NatToHex(v, false));
    }
  }

  lemma {:induction false} HexOfBytesCase(b: seq<U8>)
    ensures CaseVariants(HexOfBytes(b, true), HexOfBytes(b, false))
  {
    if b != [] {
      var d := b[|b| - 1];
      HexOfBytesCase(b[..|b| - 1]);
      DigitCharCase(d / 16);
      DigitCharCase(d % 16);
      CaseVariantsConcat([DigitChar(d / 16, true)], [DigitChar(d / 16, false)],
        [DigitChar(d % 16, true)], [DigitChar(d % 16, false)]);
      assert ByteToHex(d, true, true) == [DigitChar(d / 16, true)] + [DigitChar(d % 16, true)];
      assert ByteToHex(d, true, false) == [DigitChar(d / 16, false)] + [DigitChar(d % 16, false)];
      CaseVariantsConcat(HexOfBytes(b[..|b| - 1], true), HexOfBytes(b[..|b| - 1], false),
        ByteToHex(d, true, true), ByteToHex(d, true, false));
    }
  }

  /** The lower- and upper-case frame texts differ only in letter case. */
  lemma FrameTextCase(f: Frame)
    requires f.dlc <= 8
    ensures CaseVariants(FrameText(f, true), FrameText(f, false))
  {
    var lower, upper := HeaderToText(f.header, true), HeaderToText(f.header, false);
    var lowerData, upperData := HexOfBytes(f.data[..f.dlc], true), HexOfBytes(f.data[..f.dlc], false);
    HeaderTextCase(f.header);
    HexOfBytesCase(f.data[..f.dlc]);
    SeparatorCase();
    CaseVariantsConcat(lower, upper, "#", "#");
    CaseVariantsConcat(lower + "#", upper + "#", lowerData, upperData);
  }

  lemma SeparatorCase()
    ensures CaseVariants("#", "#")
  {
    assert "#" == Lowered("#") && "#" == Uppered("#");
  }

  // ---------------------------------------------------------------------------
  // Filters

  /**
   * The arguments tofilter passes to the filter it builds. FrameMaskFilter and
   * FrameRangeFilter themselves are not part of this model.
   */
  datatype FilterSpec =
    | MaskFilter(pattern: U32, mask: U32, invert: bool)
    | RangeFilter(low: U32, high: U32, invert: bool)

  const FILTER_DELIMITERS: set<char> := {':', '~', '-', '_'}

  /** The text before the first delimiter, and the text after it, are hex texts. */
  predicate FilterTextInDomain(s: string)
  {
    match FirstOf(s, FILTER_DELIMITERS)
    case None => IsHexText(s)
    case Some(d) => IsHexText(s[..d]) && IsHexText(s[d + 1..])
  }

  /**
   * tofilter(std::string): the first of `:~-_` picks mask or range and the
   * invert flag; the pattern is the full id of the header before it and the
   * second value the hex after it. Without a delimiter, a non-inverted mask
   * filter with the relaxed mask.
   */
  function ToFilter(s: string, relaxedMask: U32): (r: FilterSpec)
    requires FilterTextInDomain(s)
    ensures FirstOf(s, FILTER_DELIMITERS).None? ==> r == MaskFilter(FullId(ToHeader(s)), relaxedMask, false)
    ensures FirstOf(s, FILTER_DELIMITERS).Some? ==>
      var d := FirstOf(s, FILTER_DELIMITERS).value;
      && r.MaskFilter? == (s[d] in ":~")
      && r.invert == (s[d] in "~_")
      && (if r.MaskFilter? then r.pattern else r.low) == FullId(ToHeader(s[..d]))
      && (if r.MaskFilter? then r.mask else r.high) == ToHex(s[d + 1..])
  {
    var delim := FirstOf(s, FILTER_DELIMITERS);
    var kind := if delim.Some? then s[delim.value] else ':';
    var second := if delim.Some? then ToHex(s[delim.value + 1..]) else relaxedMask;
    var first := FullId(ToHeader(if delim.Some? then s[..delim.value] else s));
    if kind == '~' then MaskFilter(first, second, true)
    else if kind == ':' then MaskFilter(first, second, false)
    else if kind == '_' then RangeFilter(first, second, true)
    else RangeFilter(first, second, false)
  }

  /** The filter a delimiter character selects, for a pattern and a second value. */
  function FilterOfDelimiter(d: char, first: U32, second: U32): FilterSpec
  {
    match d
    case ':' => MaskFilter(first, second, false)
    case '~' => MaskFilter(first, second, true)
    case '-' => RangeFilter(first, second, false)
    case _ => RangeFilter(first, second, true)
  }

  /** Filter text made of a header text, a delimiter and a hex value parses part by part. */
  lemma ToFilterSplit(head: string, d: char, v: string, relaxedMask: U32)
    requires IsHexText(head) && d in FILTER_DELIMITERS && IsHexText(v)
    ensures FilterTextInDomain(head + [d] + v)
    ensures ToFilter(head + [d] + v, relaxedMask) == FilterOfDelimiter(d, FullId(ToHeader(head)), ToHex(v))
  {
    var s := head + [d] + v;
    assert s == head + ([d] + v);
    FirstOfAfterHexText(head, [d] + v);
    assert s[..|head|] == head && s[|head| + 1..] == v && s[|head|] == d;
  }

  /**
   * A filter written as a valid header's text, a delimiter and a hex value
   * parses to the variant the delimiter names, that value, and the full id of
   * the header read back from its text: bit 31 is lost when an extended id
   * fits 11 bits.
   */
  lemma FilterTextRoundTrip(h: Header, lc: bool, d: char, v: string, relaxedMask: U32)
    requires HeaderIsValid(h)
    requires d in FILTER_DELIMITERS && IsHexText(v)
    ensures FilterTextInDomain(HeaderToText(h, lc) + [d] + v)
    ensures ToFilter(HeaderToText(h, lc) + [d] + v, relaxedMask)
      == FilterOfDelimiter(d, FullId(h.(isExtended := h.isExtended && h.id >= STANDARD_LIMIT)), ToHex(v))
  {
    ToFilterSplit(HeaderToText(h, lc), d, v, relaxedMask);
    HeaderRoundTrip(h, lc);
  }

  /**
   * A valid header's text alone parses to a non-inverted mask filter with the
   * relaxed mask on the header read back from that text.
   */
  lemma RelaxedFilterOfHeaderText(h: Header, lc: bool, relaxedMask: U32)
    requires HeaderIsValid(h)
    ensures FilterTextInDomain(HeaderToText(h, lc))
    ensures ToFilter(HeaderToText(h, lc), relaxedMask)
      == MaskFilter(FullId(h.(isExtended := h.isExtended && h.id >= STANDARD_LIMIT)), relaxedMask, false)
  {
    var s := HeaderToText(h, lc);
    NoDelimiterInHexText(s);
    HeaderRoundTrip(h, lc);
  }

  /** Hex digits hold no filter delimiter. */
  lemma NoDelimiterInHexText(s: string)
    requires AllHex(s)
    ensures FirstOf(s, FILTER_DELIMITERS).None?
  {
    forall j | 0 <= j < |s| ensures s[j] !in FILTER_DELIMITERS {
      assert IsHexDigit(s[j]);
    }
  }

  /** The filter text of extended header 0x123 matches the pattern of standard header 0x123. */
  lemma ShortExtendedFilterLosesBit31(relaxedMask: U32)
    ensures ToFilter(HeaderToText(ExtendedHeader(0x123, false), true), relaxedMask)
      == MaskFilter(FullId(MsgHeader(0x123, false)), relaxedMask, false)
    ensures FullId(MsgHeader(0x123, false)) != FullId(ExtendedHeader(0x123, false))
  {
    RelaxedFilterOfHeaderText(ExtendedHeader(0x123, false), true, relaxedMask);
  }
}
