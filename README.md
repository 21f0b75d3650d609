# CAN frame vocabulary of socketcan_interface, in Dafny

This project models the value layer that the `socketcan_interface` package shares with every CAN driver and tool built on it:

- `interface.dfy`, module `CanInterface`: the `Header` and `Frame` value types. A header packs a 29-bit identifier and the error, rtr and extended flags. `fullid()` folds the three flags into bits 29, 30 and 31 of a 32-bit key. `key()` sends every error header to one key. The module also has the named header constructors, frame validity, and the driver `State` record.
- `string.dfy`, module `CanString`: the candump-style text codec. It has hex digits and byte buffers in both directions, header text `<id-hex>`, frame text `<id-hex>#<payload-hex>`, and the filter text parser. The parser reads `<id-hex>` followed by an optional `:mask`, `~mask`, `-bound` or `_bound`.

The header file consists of plain values and single-expression members, so it is modelled with datatypes and functions. The text codec is mixed:

- `hex2buffer`, `buffer2hex`, `tostring(Frame)` and `toframe` are loops that fill buffers. They are modelled as methods with loops. Each one is proved equal to a specification function: `DecodeHex`, `HexOfBytes`, `FrameText` or `FrameOfText`.
- The round-trip, error-path and letter-case properties are lemmas about those functions.
- The remaining parts are functions: `hex2dec`, `dec2hex`, `byte2hex`, the stream-based `tohex` and `tostring(Header)`, `toheader` and `tofilter`.

Integer widths:

- Unsigned widths are the subset types `U8`, `U32` and `Id29`.
- The `id : 29` bit-field is `Id29`, and the `Header(i, …)` constructor stores `i % 2^29`.
- `x & MASK` for a single-bit mask is `HasBit(x, MASK)`, written as `(x / MASK) % 2 == 1`.
- The source combines the three flags into the key with `|` over disjoint bit ranges. The model writes this as `+`.

Behaviours of the text codec worth knowing, each proved below:

- `toframe` returns the `0xfff` sentinel only when the text has no `'#'` or the payload decodes to more than 8 bytes (string.cpp:166-177). An invalid header is checked first and gives the parsed header with `dlc` 0, whatever the payload (`InvalidHeaderGivesNoData`). A payload that is not valid hex after a valid header gives the header with `dlc` 0, which is a valid frame (`BadPayloadLooksEmpty`, string.cpp:171-184).
- `tostring(Header)` never prints bit 31, and `toheader` marks a header extended when bit 31 is set or when the text has 8 digits and the id is at least 2^11 (string.cpp:128-132, 147-151). So an extended header whose id is below 2^11 reads back as standard, in frame text and in filter text alike (`HeaderRoundTrip`, `FrameRoundTrip`, `ShortExtendedIdReadsBackStandard`, `FilterTextRoundTrip`, `ShortExtendedFilterLosesBit31`).
- `"123#ABCDEF1234567890"` holds 16 digits, which is 8 bytes, so it gives a valid frame with id 0x123 and `dlc` 8 (`TextExamples`). After a valid header, any payload of 9 or more bytes gives the sentinel (`OversizedPayloadGivesSentinel`).

## Model

| member | source | states |
|---|---|---|
| `CanInterface.FullId` | socketcan_interface/include/socketcan_interface/interface.hpp:36-59 | the key has the id in bits 0-28 (`fullid & ID_MASK == id`), error at bit 29, rtr at bit 30 and extended at bit 31 |
| `CanInterface.FullIdRoundTrip` | socketcan_interface/include/socketcan_interface/interface.hpp:52-59 | reading the four fields back out of the key gives the header, and every 32-bit value is the key of exactly the header read out of it |
| `CanInterface.FullIdInjective` | socketcan_interface/include/socketcan_interface/interface.hpp:52-59 | two headers have the same full id iff they are equal in id, error, rtr and extended |
| `CanInterface.Key` | socketcan_interface/include/socketcan_interface/interface.hpp:61-64 | the key is `ERROR_MASK` iff the header is an error header; otherwise it is the full id, from which the header reads back |
| `CanInterface.KeySeparatesErrors` | socketcan_interface/include/socketcan_interface/interface.hpp:61-64 | two headers share a key iff both are error headers, whatever their ids and other flags, or neither is and they are equal; a non-error key never collides with `ERROR_MASK` |
| `CanInterface.DefaultHeader` | socketcan_interface/include/socketcan_interface/interface.hpp:72-73 | the default header has full id 0 and is valid |
| `CanInterface.HeaderIsValid` | socketcan_interface/include/socketcan_interface/interface.hpp:47-50 | a header is valid iff it is extended or its id is below 2^11: every extended id fits the 29-bit field |
| `CanInterface.MakeHeader` | socketcan_interface/include/socketcan_interface/interface.hpp:75-76 | `Header(i, extended, rtr, error)` stores `i` modulo 2^29 (the 29-bit field) and the three flags as given |
| `CanInterface.MakeHeaderValidity` | socketcan_interface/include/socketcan_interface/interface.hpp:47-50 | a constructed header is valid iff it is extended or its truncated id is below 2^11; so every extended header is valid |
| `CanInterface.ValidityBoundary` | socketcan_interface/include/socketcan_interface/interface.hpp:47-50 | standard id 2047 is valid, standard id 2048 is not, extended id 2048 is |
| `CanInterface.MsgHeader` | socketcan_interface/include/socketcan_interface/interface.hpp:79-83 | stores `i` modulo 2^29; not extended, not error, rtr as given; valid iff the truncated id is below 2^11; its key is its full id |
| `CanInterface.ExtendedHeader` | socketcan_interface/include/socketcan_interface/interface.hpp:84-88 | extended, not error, rtr as given; always valid; key = truncated id + bit 31 + (bit 30 if rtr) |
| `CanInterface.ErrorHeader` | socketcan_interface/include/socketcan_interface/interface.hpp:89-93 | stores `i` modulo 2^29; error, not extended, not rtr; key is `ERROR_MASK` whatever the id |
| `CanInterface.DefaultFrame` | socketcan_interface/include/socketcan_interface/interface.hpp:114-115 | the default frame has full id 0 and `dlc` 0, and is valid |
| `CanInterface.FrameValidity` | socketcan_interface/include/socketcan_interface/interface.hpp:103-106 | a frame is valid iff `dlc` fits the 8-byte data array and its header is valid |
| `CanInterface.FrameOf` | socketcan_interface/include/socketcan_interface/interface.hpp:103-118 | `Frame(h, l)` keeps every header field of `h` and sets `dlc = l`; such a frame is valid iff `l <= 8` and `h` is valid |
| `CanInterface.IsReady` | socketcan_interface/include/socketcan_interface/interface.hpp:144-147 | a state is ready iff its driver state is neither closed nor open |
| `CanInterface.DefaultState` | socketcan_interface/include/socketcan_interface/interface.hpp:142-147 | a default state is `closed` with internal error 0, and is not ready (`isReady` holds iff the driver state is `ready`) |
| `CanString.HexToDec` | socketcan_interface/src/string.cpp:24-37 | a successful decode yields a value in 0..15 |
| `CanString.HexDigitsAccepted` | socketcan_interface/src/string.cpp:24-37 | `hex2dec` succeeds exactly on `0-9`, `a-f` and `A-F` |
| `CanString.DecToHex` | socketcan_interface/src/string.cpp:66-80 | succeeds iff the value is below 16, and then the digit decodes back to the value and has the requested letter case; otherwise gives `'?'` |
| `CanString.DigitRoundTrip` | socketcan_interface/src/string.cpp:24-80 | a decoded digit prints back as itself, lower-cased or upper-cased as requested |
| `CanString.ByteToHex` | socketcan_interface/src/string.cpp:82-97 | two digits when padding is asked for or the high nibble is non-zero, else one; the digits read back as the byte |
| `CanString.HexOfBytes` | socketcan_interface/src/string.cpp:99-114 | the payload text has two characters per byte |
| `CanString.BufferToHex` | socketcan_interface/src/string.cpp:99-114 | the loop appends each byte's two digits in order, producing `HexOfBytes` |
| `CanString.DecodeHex` | socketcan_interface/src/string.cpp:39-64 | decoding succeeds iff the length is even or padding is asked for, and every character of the (padded) text is a hex digit; then the output length is half the padded length |
| `CanString.HexToBuffer` | socketcan_interface/src/string.cpp:39-64 | the loop returns true exactly when `DecodeHex` succeeds, and then byte i is `16*digit(2i) + digit(2i+1)` of the text with `'0'` prepended when odd and padded; a failure after the length check leaves `out` resized |
| `CanString.NonHexRejected` | socketcan_interface/src/string.cpp:53-58 | any non-hex character makes the decode fail, padded or not |
| `CanString.BufferRoundTrip` | socketcan_interface/src/string.cpp:39-114 | `hex2buffer(buffer2hex(b, lc), false)` succeeds and returns `b`, for either letter case |
| `CanString.ToHex` | socketcan_interface/src/string.cpp:136-143 | the value of up to 8 hex digits is below 16^length, and the empty string gives 0 |
| `CanString.NatToHex` | socketcan_interface/src/string.cpp:120-132 | the digits printed in hex read back as the number, with no leading zero |
| `CanString.HeaderToText` | socketcan_interface/src/string.cpp:116-134 | the text is at most 8 hex digits denoting the full id with bit 31 cleared; exactly 8 digits (zero-padded) when extended, no leading zero otherwise |
| `CanString.HeaderTextCase` | socketcan_interface/src/string.cpp:116-134 | the `lc=true` and `lc=false` header texts differ only in letter case |
| `CanString.ToHeader` | socketcan_interface/src/string.cpp:145-152 | id is the low 29 bits of the value, rtr is bit 30, error is bit 29; extended iff bit 31 is set, or the text has exactly 8 digits and the id is at least 2^11 |
| `CanString.HeaderRoundTrip` | socketcan_interface/src/string.cpp:116-152 | parsing a valid header's text gives the header back, except that an extended header with id below 2^11 comes back standard |
| `CanString.ShortExtendedIdReadsBackStandard` | socketcan_interface/src/string.cpp:128-150 | the text of extended header 0x123 parses as standard header 0x123 |
| `CanString.FirstOf` | socketcan_interface/src/string.cpp:191 | the position found is the first character from the set (as `find` and `find_first_of`), and none is reported only when none occurs |
| `CanString.FrameToText` | socketcan_interface/src/string.cpp:154-162 | the loop copies the first `dlc` data bytes, and the text is header text, `'#'`, then their hex (`FrameText`) |
| `CanString.FrameTextCase` | socketcan_interface/src/string.cpp:154-162 | the `lc=true` and `lc=false` frame texts differ only in letter case |
| `CanString.SentinelFrame` | socketcan_interface/src/string.cpp:166-177 | the sentinel is standard id `0xfff` with `dlc` 0, and is itself invalid |
| `CanString.ToFrame` | socketcan_interface/src/string.cpp:164-185 | the method returns `FrameOfText(s)`: the sentinel without `'#'` or with more than 8 bytes, the parsed header with `dlc` 0 for an invalid header or bad hex, else the header with `dlc` bytes in `data` |
| `CanString.CopyPayload` | socketcan_interface/src/string.cpp:179-182 | the copy loop puts the decoded bytes at the front of `data` and their number in `dlc` |
| `CanString.MissingSeparatorGivesSentinel` | socketcan_interface/src/string.cpp:166-169 | text without `'#'` gives the sentinel, which is invalid |
| `CanString.OversizedPayloadGivesSentinel` | socketcan_interface/src/string.cpp:174-177 | a valid header followed by any payload that decodes to more than 8 bytes, in any letter case, gives the sentinel |
| `CanString.InvalidHeaderGivesNoData` | socketcan_interface/src/string.cpp:171-177 | an invalid header gives the parsed header with `dlc` 0, an invalid frame, whatever the payload, even an oversized one |
| `CanString.BadPayloadLooksEmpty` | socketcan_interface/src/string.cpp:171-184 | with a valid header, a payload that does not decode gives the same frame as an empty payload: the header with `dlc` 0, which is valid |
| `CanString.TextExamples` | socketcan_interface/src/string.cpp:164-185 | `"bad"` gives the sentinel; `"123#ABCDEF1234567890"` gives a valid standard frame 0x123 with `dlc` 8 |
| `CanString.FrameRoundTrip` | socketcan_interface/src/string.cpp:154-185 | for a valid frame, `toframe(tostring(f, lc))` keeps the flags, id, `dlc` and first `dlc` bytes, except that an extended id below 2^11 comes back standard |
| `CanString.ToFilter` | socketcan_interface/src/string.cpp:187-215 | no delimiter gives a non-inverted mask filter with the relaxed mask; otherwise `:`/`~` give mask and `-`/`_` range, `~`/`_` invert, the first value is the full id of the header text before the delimiter and the second the hex after it |
| `CanString.ToFilterSplit` | socketcan_interface/src/string.cpp:191-213 | header text, a delimiter and hex text parse to the variant the delimiter names, with the header's full id and the hex value |
| `CanString.FilterTextRoundTrip` | socketcan_interface/src/string.cpp:188-215 | a filter written as a valid header's text, a delimiter and hex gives the delimiter's variant with that value and the header's full id, except that an extended header with id below 2^11 gives the standard header's full id |
| `CanString.RelaxedFilterOfHeaderText` | socketcan_interface/src/string.cpp:193-206 | a valid header's text alone gives a non-inverted mask filter with the relaxed mask on its full id, with the same exception for short extended ids |
| `CanString.ShortExtendedFilterLosesBit31` | socketcan_interface/src/string.cpp:128-132 | the filter text of extended header 0x123 gives the pattern of standard header 0x123, which differs from the extended header's full id |

## Left out

- `Listener`, `StateInterface`, `CommInterface` and `DriverInterface` (interface.hpp:151-291) are not modelled. They are abstract virtual interfaces built on `std::function` callbacks and `shared_ptr` lifetimes. Their implementation, a concurrent registry and dispatcher, is not part of this model.
- Filter matching is not part of this model. `FrameMaskFilter` and `FrameRangeFilter` are declared in a header that is not part of this model, so `tofilter` yields a `FilterSpec` that records the constructor arguments.
- ToFilter: `FrameMaskFilter::MASK_RELAXED` is the parameter `relaxedMask`, because its value is defined in that header. `tofilter(uint32_t)` (string.cpp:217-220) uses the filters' default arguments and is left out for the same reason.
- ToFilter: the `switch` has no default, so a null filter would come back for any other delimiter. That path cannot be reached, because `find_first_of` only stops at the four delimiters.
- ToHex: modelled only on strings of 0-8 hex digits, because the stream extraction's corner cases are not modelled. Those are leading whitespace, signs, `0x` prefixes, trailing junk and values over 32 bits.
- ToHeader: requires its text to be 0-8 hex digits, for the same reason.
- ToFrame: requires the text before the first `'#'` to be 0-8 hex digits, for the same reason. Text without `'#'` is accepted whatever it holds.
- ToFilter: requires the text before the delimiter and the text after it to be 0-8 hex digits, for the same reason.
- HexToBuffer: odd-length input without padding returns an empty buffer. The source leaves the caller's `out` untouched in that case, and the only caller discards it.
- BufferToHex: the source's `if (b.empty()) return b;` (string.cpp:106-108) is left out. It cannot fire, because `ByteToHex` always returns at least one character.
- DefaultFrame: the source leaves the 8 data bytes uninitialised. The model uses zeros, and no contract depends on those bytes.
- FrameOf: leaves the data bytes uninitialised in the same way and is modelled the same way.
- ToFrame: leaves the bytes past `dlc` uninitialised in the same way and is modelled the same way.
- FrameToText: requires `dlc <= 8`, because the source reads `f.data[i]` for every `i < dlc` and an 8-element array read past its end is undefined behaviour.
- The `operator<<` wrappers (string.cpp:227-235), the `tofilter(const char*)` forwarder (string.cpp:222-225) and the `c_array` accessors (interface.hpp:120-128) are trivial forwarding or raw-pointer access.
- DefaultState: the `boost::system::error_code` member of `State` (interface.hpp:139) is a foreign library type. Only `driver_state` and `internal_error` are modelled.
