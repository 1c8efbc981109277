/**
 * The NASDAQ TotalView-ITCH 5.0 System Event message (message type 'S',
 * section 4.1 of the ITCH 5.0 specification) and the 48-bit big-endian
 * timestamp field it carries, as decoded from a length-prefixed frame.
 *
 * Frame layout, 14 bytes:
 *   0..2   length prefix (read, neither checked nor kept)
 *   2      message type, the character 'S'
 *   3..5   stock locate, required to be the bytes 0x00 0x00
 *   5..7   tracking number, big-endian u16
 *   7..13  timestamp, big-endian 48-bit nanoseconds since midnight
 *   13     event code character
 */
module Itch {
  import opened Bytes
  import opened Parse

  /** Width of the ITCH timestamp field in bytes. */
  const TimestampSize: nat := 6

  /** Bytes a System Event frame occupies: 2 + 1 + 2 + 2 + 6 + 1. */
  const SystemEventFrameSize: nat := 14

  datatype EventCode =
    | StartOfMessages
    | StartOfSystemHours
    | StartOfMarketHours
    | EndOfMarketHours
    | EndOfSystemHours
    | EndOfMessages

  datatype SystemEvent = SystemEvent(trackingNumber: u16, timestamp: u64, eventCode: EventCode)

  /** The wire character of each event code. */
  function EventCodeChar(e: EventCode): char
  {
    match e
    case StartOfMessages => 'O'
    case StartOfSystemHours => 'S'
    case StartOfMarketHours => 'Q'
    case EndOfMarketHours => 'M'
    case EndOfSystemHours => 'E'
    case EndOfMessages => 'C'
  }

  /** The alternatives tried for the event-code byte, in the decoder's order. */
  const EventCodeAlternatives: seq<(char, EventCode)> := [
    ('O', StartOfMessages),
    ('S', StartOfSystemHours),
    ('Q', StartOfMarketHours),
    ('M', EndOfMarketHours),
    ('E', EndOfSystemHours),
    ('C', EndOfMessages)
  ]

  /** Whether some alternative of `alts` is the character `b`. */
  predicate Offers(alts: seq<(char, EventCode)>, b: u8)
  {
    exists k :: 0 <= k < |alts| && alts[k].0 as int == b
  }

  /** Tries each one-character alternative in turn on the next byte: the
      first that matches wins; a short input is reported at once; when none
      matches the input is rejected. */
  function Alt(i: seq<u8>, alts: seq<(char, EventCode)>): (r: IResult<EventCode>)
    requires forall k :: 0 <= k < |alts| ==> alts[k].0 as int < 0x100
    ensures r.Incomplete? <==> |alts| > 0 && |i| == 0
    ensures r.Incomplete? ==> r.needed == 1
    ensures r.Done? <==> |i| > 0 && Offers(alts, i[0])
    ensures r.Done? ==> r.rest == i[1..]
    ensures r.Done? ==>
      exists k :: 0 <= k < |alts| && alts[k] == (i[0] as char, r.value) &&
        forall j :: 0 <= j < k ==> alts[j].0 as int != i[0]
    ensures r.Error? ==> r.kind == NoAlternative
  {
    if |alts| == 0 then Error(NoAlternative)
    else
      match Char(i, alts[0].0)
      case Done(rest, _) =>
        assert alts[0] == (i[0] as char, alts[0].1);
        Done(rest, alts[0].1)
      case Incomplete(n) => Incomplete(n)
      case Error(_) =>
        var r := Alt(i, alts[1..]);
        assert Offers(alts, i[0]) <==> Offers(alts[1..], i[0]) by {
          if Offers(alts, i[0]) {
            var k :| 0 <= k < |alts| && alts[k].0 as int == i[0];
            assert alts[1..][k - 1] == alts[k];
          }
        }
        assert r.Done? ==>
          exists k :: 0 <= k < |alts| && alts[k] == (i[0] as char, r.value) &&
            forall j :: 0 <= j < k ==> alts[j].0 as int != i[0]
        by {
          if r.Done? {
            var k :| 0 <= k < |alts[1..]| && alts[1..][k] == (i[0] as char, r.value) &&
              forall j :: 0 <= j < k ==> alts[1..][j].0 as int != i[0];
            assert alts[k + 1] == alts[1..][k];
            forall j | 0 <= j < k + 1 ensures alts[j].0 as int != i[0] {
              if j > 0 {
                assert alts[j] == alts[1..][j - 1];
              }
            }
          }
        }
        r
  }

  /** Whether `b` is the wire character of some event code. */
  predicate IsEventCodeByte(b: u8)
  {
    b in {'O' as int, 'S' as int, 'Q' as int, 'M' as int, 'E' as int, 'C' as int}
  }

  /** The alternatives pair each code with its own character, and they offer
      exactly the event-code characters. */
  lemma EventCodeTable(b: u8)
    ensures forall k :: 0 <= k < |EventCodeAlternatives| ==>
      EventCodeAlternatives[k].0 == EventCodeChar(EventCodeAlternatives[k].1)
    ensures Offers(EventCodeAlternatives, b) <==> IsEventCodeByte(b)
  {
    var alts := EventCodeAlternatives;
    if IsEventCodeByte(b) {
      var k := if b == 'O' as int then 0 else if b == 'S' as int then 1
        else if b == 'Q' as int then 2 else if b == 'M' as int then 3
        else if b == 'E' as int then 4 else 5;
      assert alts[k].0 as int == b;
    }
  }

  /** The event-code field: one byte chosen among the six codes. An empty
      input needs one byte; a byte that is some code's character is
      consumed and gives that code; any other byte is rejected. */
  function ParseEventCode(i: seq<u8>): (r: IResult<EventCode>)
    ensures r.Incomplete? <==> |i| == 0
    ensures r.Incomplete? ==> r.needed == 1
    ensures r.Done? <==> |i| > 0 && IsEventCodeByte(i[0])
    ensures r.Done? ==> r.rest == i[1..] && i[0] == EventCodeChar(r.value) as int
    ensures r.Error? ==> r.kind == NoAlternative
  {
    var r := Alt(i, EventCodeAlternatives);
    assert |i| > 0 ==> (r.Done? <==> IsEventCodeByte(i[0])) by {
      if |i| > 0 {
        EventCodeTable(i[0]);
      }
    }
    assert r.Done? ==> i[0] == EventCodeChar(r.value) as int by {
      if r.Done? {
        EventCodeTable(i[0]);
      }
    }
    r
  }

  /** The event-code table is a bijection between the six codes and their
      characters: a byte decodes to `e` exactly when it is `e`'s character,
      and every other byte is rejected, with no default code. */
  lemma ParseEventCodeIff(i: seq<u8>, e: EventCode)
    requires |i| > 0
    ensures ParseEventCode(i) == Done(i[1..], e) <==> i[0] == EventCodeChar(e) as int
    ensures ParseEventCode(i).Error? <==> !IsEventCodeByte(i[0])
    ensures ParseEventCode(i).Error? ==> ParseEventCode(i).kind == NoAlternative
    ensures ParseEventCode(i).Done? || ParseEventCode(i).Error?
  {
    if i[0] == EventCodeChar(e) as int {
      EventCodeCharInjective(ParseEventCode(i).value, e);
    }
  }

  /** The timestamp field: six bytes, big-endian. Each byte is widened to
      u64 and shifted left by 40, 32, 24, 16, 8 and 0 bits; no shift drops a
      bit, since a byte is below 2^8 and no shift exceeds 40 bits. */
  function BeU48(i: seq<u8>): (r: IResult<u64>)
    ensures |i| < TimestampSize <==> r == Incomplete(TimestampSize)
    ensures |i| >= TimestampSize ==>
      r.Done? && r.rest == i[TimestampSize..] && r.value == BigEndian(i[..TimestampSize])
    ensures r.Done? ==> r.value < Pow256(TimestampSize)
  {
    if |i| < 6 then Incomplete(6)
    else
      var res :=
        (i[0] as int) * 0x100_0000_0000 +
        (i[1] as int) * 0x1_0000_0000 +
        (i[2] as int) * 0x100_0000 +
        (i[3] as int) * 0x1_0000 +
        (i[4] as int) * 0x100 +
        i[5];
      BigEndianSix(i[..6]);
      BigEndianBound(i[..6]);
      Done(i[6..], res)
  }

  /** The decoder's own 64-bit arithmetic on the six timestamp bytes: each
      byte widened to u64, shifted left by 40, 32, 24, 16, 8 and 0 bits,
      and the six terms added with u64 addition. */
  function WideSum(b0: bv8, b1: bv8, b2: bv8, b3: bv8, b4: bv8, b5: bv8): bv64
  {
    ((b0 as bv64) << 40) + ((b1 as bv64) << 32) + ((b2 as bv64) << 24) +
    ((b3 as bv64) << 16) + ((b4 as bv64) << 8) + (b5 as bv64)
  }

  /** The six shifted terms occupy disjoint bit ranges, so adding them is
      the same as or-ing them; their sum stays below 2^48, far from
      wrapping around, and is the weighted sum of the bytes. */
  lemma WideSumIsOr(b0: bv8, b1: bv8, b2: bv8, b3: bv8, b4: bv8, b5: bv8)
    ensures WideSum(b0, b1, b2, b3, b4, b5) ==
      ((b0 as bv64) << 40) | ((b1 as bv64) << 32) | ((b2 as bv64) << 24) |
      ((b3 as bv64) << 16) | ((b4 as bv64) << 8) | (b5 as bv64)
    ensures WideSum(b0, b1, b2, b3, b4, b5) < 1 << 48
    ensures WideSum(b0, b1, b2, b3, b4, b5) as int ==
      (b0 as int) * 0x100_0000_0000 + (b1 as int) * 0x1_0000_0000 +
      (b2 as int) * 0x100_0000 + (b3 as int) * 0x1_0000 +
      (b4 as int) * 0x100 + b5 as int
  {
  }

  /** The timestamp the model reads is the one the decoder's u64
      arithmetic computes from the same six bytes. */
  lemma BeU48IsWideSum(i: seq<u8>, b0: bv8, b1: bv8, b2: bv8, b3: bv8, b4: bv8, b5: bv8)
    requires |i| >= TimestampSize
    requires i[0] == b0 as int && i[1] == b1 as int && i[2] == b2 as int
    requires i[3] == b3 as int && i[4] == b4 as int && i[5] == b5 as int
    ensures BeU48(i).value == WideSum(b0, b1, b2, b3, b4, b5) as int
  {
    WideSumIsOr(b0, b1, b2, b3, b4, b5);
  }

  /** Writing a timestamp below 2^48 as six big-endian bytes and reading it
      back gives the timestamp and leaves what follows untouched. */
  lemma BeU48RoundTrip(n: nat, rest: seq<u8>)
    requires n < Pow256(TimestampSize)
    ensures BeU48(ToBigEndian(n, TimestampSize) + rest) == Done(rest, n)
  {
    var i := ToBigEndian(n, TimestampSize) + rest;
    assert i[..6] == ToBigEndian(n, TimestampSize);
    assert i[6..] == rest;
    BigEndianOfToBigEndian(n, TimestampSize);
  }

  /** Distinct six-byte prefixes give distinct timestamps. */
  lemma BeU48Injective(a: seq<u8>, b: seq<u8>)
    requires |a| >= TimestampSize && |b| >= TimestampSize
    requires BeU48(a).value == BeU48(b).value
    ensures a[..TimestampSize] == b[..TimestampSize]
  {
    BigEndianInjective(a[..TimestampSize], b[..TimestampSize]);
  }

  /** The System Event decoder: the length prefix, the 'S' type byte, the
      zero stock locate, the tracking number, the timestamp and the event
      code, in that order. A short input needs the bytes up to the end of
      the field it stopped in, counted from the start of the frame. */
  function ParseSystemEvent(i: seq<u8>): (r: IResult<SystemEvent>)
    ensures r.Done? <==>
      |i| >= SystemEventFrameSize && i[2] == 'S' as int && i[3..5] == [0, 0] &&
      IsEventCodeByte(i[13])
    ensures r.Done? ==>
      && r.rest == i[SystemEventFrameSize..]
      && r.value.trackingNumber == BigEndian(i[5..7])
      && r.value.timestamp == BigEndian(i[7..13])
      && i[13] == EventCodeChar(r.value.eventCode) as int
  {
    var length := BeU16(i);
    if !length.Done? then After(length, 0) else
    var tag := Char(length.rest, 'S');
    if !tag.Done? then After(tag, 2) else
    var locate := Tag(tag.rest, [0, 0]);
    if !locate.Done? then After(locate, 3) else
    var tracking := BeU16(locate.rest);
    if !tracking.Done? then After(tracking, 5) else
    var timestamp := BeU48(tracking.rest);
    if !timestamp.Done? then After(timestamp, 7) else
    assert tag.rest == i[3..] && locate.rest == i[5..] && tracking.rest == i[7..];
    assert locate.rest[..2] == i[5..7] && tracking.rest[..6] == i[7..13];
    var code := ParseEventCode(timestamp.rest);
    assert |i| >= 14 ==> (code.Done? <==> IsEventCodeByte(i[13])) by {
      if |i| >= 14 {
        ParseEventCodeIff(timestamp.rest, StartOfMessages);
      }
    }
    if !code.Done? then After(code, 13) else
    ParseEventCodeIff(timestamp.rest, code.value);
    Done(code.rest, SystemEvent(tracking.value, timestamp.value, code.value))
  }

  /** The frame offset at which the field containing offset `n` ends, for
      `n` inside the frame: the length prefix ends at 2, the type byte at 3,
      the stock locate at 5, the tracking number at 7, the timestamp at 13
      and the event code at 14. */
  function NextFieldEnd(n: nat): (e: nat)
    requires n < SystemEventFrameSize
    ensures n < e <= SystemEventFrameSize
  {
    if n < 2 then 2
    else if n < 3 then 3
    else if n < 5 then 5
    else if n < 7 then 7
    else if n < 13 then 13
    else 14
  }

  /** The bytes present so far agree with the fixed type byte and the zero
      stock locate. */
  predicate FixedBytesAgree(i: seq<u8>)
  {
    && (|i| > 2 ==> i[2] == 'S' as int)
    && (|i| > 3 ==> i[3] == 0)
    && (|i| > 4 ==> i[4] == 0)
  }

  /** Every outcome of the decoder, by cause: more input is needed exactly
      when the frame is short and no fixed byte present is wrong, and then
      the bytes up to the end of the current field are asked for; a wrong
      type byte, a non-zero stock locate byte and an unknown event code are
      each rejected, with their own error kind. */
  lemma ParseSystemEventOutcomes(i: seq<u8>)
    ensures ParseSystemEvent(i).Incomplete? <==> |i| < SystemEventFrameSize && FixedBytesAgree(i)
    ensures ParseSystemEvent(i).Incomplete? ==> ParseSystemEvent(i).needed == NextFieldEnd(|i|)
    ensures ParseSystemEvent(i) == Error(CharMismatch) <==> |i| > 2 && i[2] != 'S' as int
    ensures ParseSystemEvent(i) == Error(TagMismatch) <==>
      |i| > 2 && i[2] == 'S' as int && ((|i| > 3 && i[3] != 0) || (|i| > 4 && i[4] != 0))
    ensures ParseSystemEvent(i) == Error(NoAlternative) <==>
      |i| >= SystemEventFrameSize && FixedBytesAgree(i) && !IsEventCodeByte(i[13])
  {
    if |i| < SystemEventFrameSize {
      ShortFrameOutcomes(i);
    } else {
      FullFrameOutcomes(i);
    }
  }

  /** The outcomes of a frame shorter than 14 bytes: it is never accepted
      and never rejected for its event code. */
  lemma ShortFrameOutcomes(i: seq<u8>)
    requires |i| < SystemEventFrameSize
    ensures ParseSystemEvent(i).Incomplete? <==> FixedBytesAgree(i)
    ensures ParseSystemEvent(i).Incomplete? ==> ParseSystemEvent(i).needed == NextFieldEnd(|i|)
    ensures ParseSystemEvent(i) == Error(CharMismatch) <==> |i| > 2 && i[2] != 'S' as int
    ensures ParseSystemEvent(i) == Error(TagMismatch) <==>
      |i| > 2 && i[2] == 'S' as int && ((|i| > 3 && i[3] != 0) || (|i| > 4 && i[4] != 0))
    ensures ParseSystemEvent(i) != Error(NoAlternative)
  {
    if |i| >= 3 {
      assert i[2..][1..] == i[3..];
    }
    if |i| >= 5 {
      assert i[3..][..2] == i[3..5];
    }
  }

  /** The outcomes of a frame of 14 bytes or more: it never needs more,
      and fails for the first wrong fixed byte or else for its event code. */
  lemma FullFrameOutcomes(i: seq<u8>)
    requires |i| >= SystemEventFrameSize
    ensures !ParseSystemEvent(i).Incomplete?
    ensures ParseSystemEvent(i) == Error(CharMismatch) <==> i[2] != 'S' as int
    ensures ParseSystemEvent(i) == Error(TagMismatch) <==>
      i[2] == 'S' as int && (i[3] != 0 || i[4] != 0)
    ensures ParseSystemEvent(i) == Error(NoAlternative) <==>
      FixedBytesAgree(i) && !IsEventCodeByte(i[13])
  {
    FullFrameFixedBytes(i);
    if FixedBytesAgree(i) {
      FullFrameEventCode(i);
    }
  }

  /** A frame of 14 bytes or more with a wrong type byte or a non-zero
      stock locate is rejected for that byte. */
  lemma FullFrameFixedBytes(i: seq<u8>)
    requires |i| >= SystemEventFrameSize
    ensures !ParseSystemEvent(i).Incomplete?
    ensures ParseSystemEvent(i) == Error(CharMismatch) <==> i[2] != 'S' as int
    ensures ParseSystemEvent(i) == Error(TagMismatch) <==>
      i[2] == 'S' as int && (i[3] != 0 || i[4] != 0)
  {
    assert i[2..][1..] == i[3..];
    assert i[3..][..2] == i[3..5];
  }

  /** A frame of 14 bytes or more with the right fixed bytes is rejected
      exactly when its event code is unknown. */
  lemma FullFrameEventCode(i: seq<u8>)
    requires |i| >= SystemEventFrameSize && FixedBytesAgree(i)
    ensures ParseSystemEvent(i) == Error(NoAlternative) <==> !IsEventCodeByte(i[13])
  {
    assert i[3..5] == [0, 0];
    assert i[7..][6..] == i[13..];
    ParseEventCodeIff(i[13..], StartOfMessages);
  }

  /** Two inputs of at least a frame's length whose bytes after the length
      prefix agree up to the end of the frame decode alike. */
  lemma SameFrameBodySameOutcome(i: seq<u8>, j: seq<u8>)
    requires |i| >= SystemEventFrameSize && |j| >= SystemEventFrameSize
    requires i[2..SystemEventFrameSize] == j[2..SystemEventFrameSize]
    ensures ParseSystemEvent(i).Done? <==> ParseSystemEvent(j).Done?
    ensures ParseSystemEvent(i).Done? ==> ParseSystemEvent(i).value == ParseSystemEvent(j).value
    ensures !ParseSystemEvent(i).Done? ==> ParseSystemEvent(i) == ParseSystemEvent(j)
  {
    FrameBodyFields(i, j);
    if ParseSystemEvent(i).Done? {
      EventCodeCharInjective(ParseSystemEvent(i).value.eventCode, ParseSystemEvent(j).value.eventCode);
    } else {
      ParseSystemEventOutcomes(i);
      ParseSystemEventOutcomes(j);
    }
  }

  /** Agreeing frame bodies agree field by field. */
  lemma FrameBodyFields(i: seq<u8>, j: seq<u8>)
    requires |i| >= SystemEventFrameSize && |j| >= SystemEventFrameSize
    requires i[2..SystemEventFrameSize] == j[2..SystemEventFrameSize]
    ensures i[2] == j[2] && i[3] == j[3] && i[4] == j[4] && i[13] == j[13]
    ensures i[3..5] == j[3..5] && i[5..7] == j[5..7] && i[7..13] == j[7..13]
  {
    forall k | 2 <= k < SystemEventFrameSize ensures i[k] == j[k] {
      assert i[k] == i[2..SystemEventFrameSize][k - 2];
      assert j[k] == j[2..SystemEventFrameSize][k - 2];
    }
  }

  /** The decoder looks only at the first 14 bytes: once it has finished or
      rejected its input, further bytes appended to it change nothing but
      the unconsumed remainder. */
  lemma ParseSystemEventAppend(i: seq<u8>, more: seq<u8>)
    requires !ParseSystemEvent(i).Incomplete?
    ensures ParseSystemEvent(i).Done? ==>
      ParseSystemEvent(i + more) == Done(ParseSystemEvent(i).rest + more, ParseSystemEvent(i).value)
    ensures ParseSystemEvent(i).Error? ==> ParseSystemEvent(i + more) == ParseSystemEvent(i)
  {
    var j := i + more;
    if |i| >= SystemEventFrameSize {
      assert j[2..SystemEventFrameSize] == i[2..SystemEventFrameSize];
      assert j[SystemEventFrameSize..] == i[SystemEventFrameSize..] + more;
      SameFrameBodySameOutcome(i, j);
    } else {
      ParseSystemEventOutcomes(i);
      ParseSystemEventOutcomes(j);
      assert |i| > 2 ==> j[2] == i[2];
      assert |i| > 3 ==> j[3] == i[3];
      assert |i| > 4 ==> j[4] == i[4];
    }
  }

  /** Distinct event codes have distinct wire characters. */
  lemma EventCodeCharInjective(a: EventCode, b: EventCode)
    requires EventCodeChar(a) == EventCodeChar(b)
    ensures a == b
  {
  }

  /** The length prefix is read but not checked: replacing it leaves the
      outcome unchanged. */
  lemma LengthPrefixIgnored(i: seq<u8>, hi: u8, lo: u8)
    requires |i| >= 2
    ensures ParseSystemEvent([hi, lo] + i[2..]) == ParseSystemEvent(i)
  {
    var j := [hi, lo] + i[2..];
    assert j[2..] == i[2..];
    if |i| >= SystemEventFrameSize {
      SameFrameBodySameOutcome(i, j);
      assert j[SystemEventFrameSize..] == i[SystemEventFrameSize..];
    } else {
      ParseSystemEventOutcomes(i);
      ParseSystemEventOutcomes(j);
      assert forall k :: 2 <= k < |i| ==> j[k] == i[k];
    }
  }

  /** The 14 bytes of a System Event frame with the given length prefix;
      the stock locate is written as zero. */
  function EncodeSystemEvent(length: u16, e: SystemEvent): (s: seq<u8>)
    requires e.timestamp < Pow256(TimestampSize)
    ensures |s| == SystemEventFrameSize
  {
    ToBigEndian(length, 2) + ['S' as int] + [0, 0] + ToBigEndian(e.trackingNumber, 2)
      + ToBigEndian(e.timestamp, TimestampSize) + [EventCodeChar(e.eventCode) as int]
  }

  /** Decoding an encoded frame gives the event back and consumes exactly
      the frame. */
  lemma SystemEventRoundTrip(length: u16, e: SystemEvent, rest: seq<u8>)
    requires e.timestamp < Pow256(TimestampSize)
    ensures ParseSystemEvent(EncodeSystemEvent(length, e) + rest) == Done(rest, e)
  {
    var i := EncodeSystemEvent(length, e) + rest;
    assert i[2] == 'S' as int && i[3..5] == [0, 0] && i[13] == EventCodeChar(e.eventCode) as int;
    assert i[5..7] == ToBigEndian(e.trackingNumber, 2);
    assert i[7..13] == ToBigEndian(e.timestamp, TimestampSize);
    assert i[14..] == rest;
    BigEndianOfToBigEndian(e.trackingNumber, 2);
    BigEndianOfToBigEndian(e.timestamp, TimestampSize);
    assert IsEventCodeByte(i[13]);
    EventCodeCharInjective(ParseSystemEvent(i).value.eventCode, e.eventCode);
  }

  /** Every frame the decoder accepts is the encoding of the event it
      returns, under the length prefix it carried: the decoder drops no
      information but the length prefix. */
  lemma SystemEventDoneIsEncoding(i: seq<u8>)
    requires ParseSystemEvent(i).Done?
    ensures ParseSystemEvent(i).value.timestamp < Pow256(TimestampSize)
    ensures i == EncodeSystemEvent(BigEndian(i[..2]), ParseSystemEvent(i).value) + ParseSystemEvent(i).rest
  {
    var r := ParseSystemEvent(i);
    BigEndianBound(i[..2]);
    BigEndianBound(i[7..13]);
    ToBigEndianOfBigEndian(i[..2]);
    ToBigEndianOfBigEndian(i[5..7]);
    ToBigEndianOfBigEndian(i[7..13]);
    assert i == i[..2] + [i[2]] + i[3..5] + i[5..7] + i[7..13] + [i[13]] + i[14..];
  }
}
