# itchy: the System Event decoder, modelled in Dafny

This project models the decoding core of `itchy`, a Rust parser for NASDAQ
TotalView-ITCH 5.0 market-data feeds. At this stage of the library that core
is one message type, the System Event (type `'S'`, section 4.1 of the ITCH 5.0
specification). It has three parts:

- `be_u48`, a reader for the 6-byte big-endian timestamp;
- `parse_system_event`, a parser built from nom 3 combinators. It reads a
  2-byte length prefix, the `'S'` type byte, a zero stock locate, the tracking
  number, the timestamp and a one-byte event code. The event code maps to one
  of six `EventCode`s;
- the test helper `hex_to_bytes` with its digit classifier `h2b`, and the one
  test vector written with it.

Files:

- `bytes.dfy` (module `Bytes`): the machine integer types. It also defines
  `BigEndian`, the reading of a byte string as a big-endian unsigned number,
  and its inverse `ToBigEndian`. Every integer field is specified against
  these.
- `parse.dfy` (module `Parse`): the observable outcome of a nom 3 parser.
  - `Done(rest, value)`, `Error(kind)` or `Incomplete(needed)`.
  - The three library primitives the decoder uses: `be_u16`, `char!` and
    `tag!`.
  - `After`, a helper of the decoder: it turns a failure inside the
    `do_parse!` sequence into the sequence's own failure. The counts this
    yields for each short input are stated in
    `Itch.ParseSystemEventOutcomes`.
- `itch.dfy` (module `Itch`): the `SystemEvent` record and the `EventCode`
  table. Also the `alt!` choice over the event codes, `be_u48` and
  `parse_system_event`. Beside them, an encoder used as the decoder's inverse.
- `hex.dfy` (module `HexTest`): `h2b`, `hex_to_bytes`, a hex writer used as
  its inverse, and the test vector.

Decoder outcomes follow nom 3.

- A parser that runs out of input reports `Incomplete` with the total number
  of bytes it needs, counted from the start of the frame. `do_parse!` adds
  the bytes it has already consumed.
- `alt!` passes an `Incomplete` on, falls through on an error and fails with
  its own error kind when no branch matches.
- `tag!` compares the common prefix first. A wrong byte is an error even on a
  short input.

The model follows the code, not the message specification, in two places:

- The length prefix is read but never compared with the frame size.
- The stock locate field must be `0x0000` and is not kept in the record.
  Any other locate is rejected.

## Model

| member | source | states |
|---|---|---|
| Bytes.BigEndianOfToBigEndian | src/lib.rs:79-85 | writing a number below 256^w as w big-endian bytes and reading them back gives the number |
| Bytes.ToBigEndianOfBigEndian | src/lib.rs:79-85 | a big-endian reading is below 256^w, and writing it back gives the same bytes |
| Bytes.BigEndianInjective | src/lib.rs:79-85 | two byte strings of one width with the same big-endian value are equal |
| Bytes.BigEndianSix | src/lib.rs:79-85 | the reading of six bytes is the sum of each byte times 2^40, 2^32, 2^24, 2^16, 2^8 and 1 |
| Parse.BeU16 | src/lib.rs:60-61 | fewer than 2 bytes exactly when it needs 2; otherwise it consumes 2 bytes and returns their big-endian value |
| Parse.Char | src/lib.rs:60 | empty input exactly when it needs 1 byte; it succeeds exactly when the first byte is the character, consuming one byte; otherwise a character error |
| Parse.Tag | src/lib.rs:60 | succeeds exactly when the input starts with the tag; needs the whole tag exactly when the input is a short proper prefix of it; otherwise a tag error |
| Itch.Alt | src/lib.rs:63-70 | needs one byte exactly on empty input; succeeds exactly when some alternative is the next byte, consuming it and returning the code of the first alternative that matches; otherwise fails with the alternatives error |
| Itch.EventCodeTable | src/lib.rs:63-70 | each alternative pairs a code with its own character, and the alternatives offer exactly the six event-code characters |
| Itch.ParseEventCode | src/lib.rs:63-70 | needs one byte exactly on empty input; succeeds exactly when the byte is an event-code character, consuming it and returning the code whose character it is; otherwise fails with the alternatives error |
| Itch.ParseEventCodeIff | src/lib.rs:50-57 | a byte decodes to code e exactly when it is e's character (O, S, Q, M, E, C); every other byte is rejected; a non-empty input never needs more |
| Itch.EventCodeCharInjective | src/lib.rs:63-70 | distinct codes have distinct characters |
| Itch.BeU48 | src/lib.rs:74-88 | fewer than 6 bytes exactly when it needs 6; otherwise it consumes 6 bytes and returns their big-endian value, below 2^48 |
| Itch.WideSumIsOr | src/lib.rs:79-85 | in u64 arithmetic the six widened and shifted bytes occupy disjoint bits: their sum equals their bitwise or, stays below 2^48, so it never wraps around, and equals the weighted sum of the bytes |
| Itch.BeU48IsWideSum | src/lib.rs:79-86 | the timestamp the model returns is the value of the decoder's own u64 computation on the same six bytes |
| Itch.BeU48RoundTrip | src/lib.rs:74-88 | reading six bytes written from a timestamp below 2^48 returns it and leaves the remainder untouched |
| Itch.BeU48Injective | src/lib.rs:74-88 | equal timestamps come from equal 6-byte prefixes |
| Itch.ParseSystemEvent | src/lib.rs:59-72 | succeeds exactly when there are at least 14 bytes, byte 2 is 'S', bytes 3-4 are zero and byte 13 is an event-code character; it then consumes 14 bytes, and the tracking number, timestamp and code are the big-endian readings of bytes 5-6 and 7-12 and the code of byte 13 |
| Itch.ParseSystemEventOutcomes | src/lib.rs:59-72 | each failure by cause: it needs more input exactly when the frame is short and no fixed byte present is wrong, and it then asks for the end of the field it stopped in (2, 3, 5, 7, 13 or 14); a wrong type byte, a non-zero locate byte and an unknown event code each give their own error kind |
| Itch.SameFrameBodySameOutcome | src/lib.rs:59-72 | two inputs whose bytes 2-13 agree decode to the same outcome and the same event |
| Itch.ParseSystemEventAppend | src/lib.rs:59-72 | once the decoder has finished or failed, appending bytes changes nothing except the unconsumed remainder |
| Itch.LengthPrefixIgnored | src/lib.rs:60 | replacing the two length bytes never changes the outcome |
| Itch.SystemEventRoundTrip | src/lib.rs:59-72 | decoding an encoded event, under any length prefix, gives the event back and consumes exactly 14 bytes |
| Itch.SystemEventDoneIsEncoding | src/lib.rs:59-72 | every accepted input is the encoding of the decoded event under its own length prefix, followed by the remainder |
| HexTest.H2b | src/lib.rs:95-101 | every digit value is below 16 |
| HexTest.H2bClassifies | src/lib.rs:95-101 | a character is a digit exactly when it is the lower-case hex digit of its value (the inverse of HexChar); exactly the space is skipped; every other character panics, 'A'-'F' among them |
| HexTest.HexChar | src/lib.rs:95-101 | the lower-case digit written for a nibble is classified back as that nibble |
| HexTest.Nibbles | src/lib.rs:103-105 | on success every value is a nibble, and there are no more values than characters |
| HexTest.NibblesPanics | src/lib.rs:100-105 | the digits are read successfully exactly when no character is invalid; a panic reports the first invalid character |
| HexTest.Pack | src/lib.rs:106-108 | succeeds exactly on an even number of nibbles, with byte k equal to nibble 2k times 16 plus nibble 2k+1; an odd count panics |
| HexTest.NibblesOfToHex | src/lib.rs:103-105 | the digits of a hex-written byte string are its high and low nibbles in order |
| HexTest.PackNibblesOf | src/lib.rs:106-108 | pairing the high and low nibbles of every byte gives the bytes back |
| HexTest.HexToBytesRoundTrip | src/lib.rs:94-109 | the helper reads back any byte string written as lower-case hex |
| HexTest.SpaceIgnored | src/lib.rs:99 | removing a space anywhere in the text never changes the result |
| HexTest.NibblesOfDigits | src/lib.rs:103-105 | on a text of digits only, the values are the digits' values in order |
| HexTest.NibblesOfText | src/lib.rs:103-105 | on any text with no invalid character, the values are those of its digits in order, spaces dropped |
| HexTest.HexToBytes | src/lib.rs:94-109 | panics on an invalid character exactly when the text holds one, whatever the digit count, reporting the first one as the digit reading does; otherwise succeeds exactly when the digits are even in number, with byte k built from digits 2k and 2k+1 |
| HexTest.SystemEventTestText | src/lib.rs:113-114 | the test text "000c 53 0000 0000 286aab3b3a99 4f" spells the 14-byte frame 00 0c 53 00 00 00 00 28 6a ab 3b 3a 99 4f |
| HexTest.SystemEventTestFrame | src/lib.rs:115 | that frame decodes, consuming all of it, to tracking number 0, timestamp 0x286aab3b3a99 and StartOfMessages |

## Left out

- `parse_reader` (src/lib.rs:27-29) has no implementation (`unimplemented!()`), so there is nothing to model.
- `parse_gzip` and `parse_file` (src/lib.rs:31-40) open files and decompress gzip. That is I/O, and each only passes its reader to `parse_reader`.
- The error-chain `errors` module and the `Message` placeholder (src/lib.rs:17-25) are not part of this model. Neither holds decoding logic.
- `enums.rs` is not part of this model. No decoder in the code uses its enumerations.
- The test's `println!` of the result is output only and is not modelled. Its `unwrap` becomes the statement that decoding gives `Done`.
- Parse.IResult: errors carry only their kind, not the input position. nom 3 without verbose errors reports no more than that. `Needed::Unknown` never arises in this decoder and is not modelled.
- Parse.BeU16, Parse.Char and Parse.Tag model the observable behaviour of the nom 3 library primitives. Their source is not part of this model.
- HexTest.H2b: the helper's text is modelled as a string of characters, not of bytes. Every character in it is ASCII, so the two agree.
- HexTest.Pack: Rust's `u8` shift by 4 is modelled as multiplication by 16 modulo 256. On nibbles nothing is lost, and the addition cannot exceed 255.
- HexTest.HexToBytes: the panic is modelled as a `Panic` result carrying its cause. The panic message text is not modelled.
