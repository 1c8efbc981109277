/**
 * The test helper that turns a hex string such as "000c 53 4f" into the
 * bytes it spells, and the System Event test vector written with it.
 *
 * Each byte of the text is classified on its own: '0'-'9' and 'a'-'f' are
 * digits, a space is skipped, and anything else stops the helper with a
 * panic. The digits are then paired, high nibble first; an odd number of
 * digits leaves a last pair with no second digit, which also panics.
 */
module HexTest {
  import opened Bytes
  import opened Parse
  import opened Itch

  /** How the helper classifies one character of its text. */
  datatype HexDigit = Nibble(v: u8) | Space | NotHex

  /** Why the helper panics. */
  datatype HexError =
    | InvalidHex(c: char)  // neither a lower-case hex digit nor a space
    | OddDigitCount      // the last pair has no second digit

  datatype Result<T> = Ok(value: T) | Panic(error: HexError)

  /** The value of one hex digit, a skipped space, or a byte that panics. */
  function H2b(h: char): (d: HexDigit)
    ensures d.Nibble? ==> d.v < 16
  {
    if '0' <= h <= '9' then Nibble(h as int - '0' as int)
    else if 'a' <= h <= 'f' then Nibble(h as int - 'a' as int + 10)
    else if h == ' ' then Space
    else NotHex
  }

  /** The lower-case hex digit of a nibble. */
  function HexChar(v: u8): (c: char)
    requires v < 16
    ensures H2b(c) == Nibble(v)
  {
    if v < 10 then ('0' as int + v) as char else ('a' as int + v - 10) as char
  }

  /** `H2b` and `HexChar` are inverse: a character is a digit exactly when
      it is the lower-case digit of its value, only the space is skipped,
      and every other character, upper-case hex digits among them, panics. */
  lemma H2bClassifies(h: char)
    ensures H2b(h).Nibble? ==> h == HexChar(H2b(h).v)
    ensures H2b(h) == Space <==> h == ' '
    ensures H2b(h) == NotHex <==> h != ' ' && forall v: u8 :: v < 16 ==> HexChar(v) != h
    ensures 'A' <= h <= 'F' ==> H2b(h) == NotHex
  {
    if H2b(h) == NotHex {
      forall v: u8 | v < 16 ensures HexChar(v) != h {
        assert H2b(HexChar(v)) == Nibble(v);
      }
    }
  }

  predicate AllNibbles(n: seq<u8>)
  {
    forall k :: 0 <= k < |n| ==> n[k] < 16
  }

  /** The digit values of `s` in order, spaces skipped; the first byte that
      is neither panics. */
  function Nibbles(s: string): (r: Result<seq<u8>>)
    ensures r.Ok? ==> AllNibbles(r.value) && |r.value| <= |s|
  {
    if |s| == 0 then Ok([])
    else
      match H2b(s[0])
      case NotHex => Panic(InvalidHex(s[0]))
      case Space => Nibbles(s[1..])
      case Nibble(v) =>
        match Nibbles(s[1..])
        case Ok(rest) => Ok([v] + rest)
        case Panic(e) => Panic(e)
  }

  /** The helper panics exactly when its text holds a byte that is neither
      a hex digit nor a space, and reports the first such byte. */
  lemma {:induction false} NibblesPanics(s: string)
    ensures Nibbles(s).Ok? <==> forall k :: 0 <= k < |s| ==> H2b(s[k]) != NotHex
    ensures Nibbles(s).Panic? ==>
      exists k :: 0 <= k < |s| && H2b(s[k]) == NotHex && Nibbles(s).error == InvalidHex(s[k]) &&
        forall j :: 0 <= j < k ==> H2b(s[j]) != NotHex
  {
    if |s| > 0 {
      NibblesPanics(s[1..]);
      if H2b(s[0]) != NotHex {
        if forall k :: 0 <= k < |s[1..]| ==> H2b(s[1..][k]) != NotHex {
          forall k | 1 <= k < |s| ensures H2b(s[k]) != NotHex {
            assert s[k] == s[1..][k - 1];
          }
        } else {
          var k :| 0 <= k < |s[1..]| && H2b(s[1..][k]) == NotHex &&
            Nibbles(s[1..]).error == InvalidHex(s[1..][k]) &&
            forall j :: 0 <= j < k ==> H2b(s[1..][j]) != NotHex;
          assert s[k + 1] == s[1..][k];
          forall j | 0 <= j < k + 1 ensures H2b(s[j]) != NotHex {
            if j > 0 {
              assert s[j] == s[1..][j - 1];
            }
          }
        }
      }
    }
  }

  /** Nibbles paired into bytes, high nibble first: byte k is built from
      nibbles 2k and 2k+1. A trailing unpaired nibble is not part of it. */
  function Paired(n: seq<u8>): (b: seq<u8>)
    requires AllNibbles(n)
    ensures |b| == |n| / 2
  {
    seq(|n| / 2, k requires 0 <= k < |n| / 2 => n[2 * k] * 16 + n[2 * k + 1])
  }

  /** The nibbles taken two at a time, each pair made a byte. The high
      nibble is shifted left by four within a byte, which loses no bit since
      it is below 16, and the low nibble is added into the free low four
      bits. A last pair with no second nibble panics. */
  function Pack(n: seq<u8>): (r: Result<seq<u8>>)
    requires AllNibbles(n)
    ensures r.Ok? <==> |n| % 2 == 0
    ensures r.Panic? ==> r.error == OddDigitCount
    ensures r.Ok? ==> r.value == Paired(n)
  {
    if |n| == 0 then Ok([])
    else if |n| == 1 then Panic(OddDigitCount)
    else
      assert AllNibbles(n[2..]) by {
        forall k | 0 <= k < |n[2..]| ensures n[2..][k] < 16 {
          assert n[2..][k] == n[k + 2];
        }
      }
      match Pack(n[2..])
      case Panic(e) => Panic(e)
      case Ok(rest) =>
        var b: u8 := (n[0] * 16) % 0x100 + n[1];
        assert [b] + Paired(n[2..]) == Paired(n) by {
          forall k | 1 <= k < |n| / 2 ensures Paired(n)[k] == Paired(n[2..])[k - 1] {
            assert n[2..][2 * (k - 1)] == n[2 * k] && n[2..][2 * (k - 1) + 1] == n[2 * k + 1];
          }
        }
        Ok([b] + rest)
  }

  /** No character of `s` makes the helper panic. */
  predicate ValidHexText(s: string)
  {
    forall k :: 0 <= k < |s| ==> H2b(s[k]) != NotHex
  }

  /** Every character of `s` is a hex digit. */
  predicate AllDigits(s: string)
  {
    forall k :: 0 <= k < |s| ==> H2b(s[k]).Nibble?
  }

  /** `s` with its spaces removed. */
  function Unspaced(s: string): (u: string)
    ensures |u| <= |s|
    ensures ValidHexText(s) ==> AllDigits(u)
  {
    if |s| == 0 then []
    else
      assert ValidHexText(s) ==> ValidHexText(s[1..]) by {
        if ValidHexText(s) {
          forall k | 0 <= k < |s[1..]| ensures H2b(s[1..][k]) != NotHex {
            assert s[1..][k] == s[k + 1];
          }
        }
      }
      if s[0] == ' ' then Unspaced(s[1..]) else [s[0]] + Unspaced(s[1..])
  }

  /** The helper: the digits of `s`, paired into bytes. It panics on an
      invalid character exactly when `s` holds one, whatever the number of
      digits, and reports the one the digit reading stops at, the first;
      otherwise it succeeds exactly when the digits other than spaces are
      even in number, and byte k is built from digits 2k and 2k+1. */
  function HexToBytes(s: string): (r: Result<seq<u8>>)
    ensures r.Panic? && r.error.InvalidHex? <==> !ValidHexText(s)
    ensures r.Panic? && r.error.InvalidHex? ==> Nibbles(s).Panic? && r == Panic(Nibbles(s).error)
    ensures ValidHexText(s) ==> (r.Ok? <==> |Unspaced(s)| % 2 == 0)
    ensures ValidHexText(s) && r.Ok? ==> r.value == Paired(DigitValues(Unspaced(s)))
  {
    var r := match Nibbles(s)
      case Panic(e) => Panic(e)
      case Ok(n) => Pack(n);
    assert r.Panic? && r.error.InvalidHex? <==> !ValidHexText(s) by {
      NibblesPanics(s);
    }
    assert ValidHexText(s) ==> Nibbles(s) == Ok(DigitValues(Unspaced(s))) by {
      if ValidHexText(s) {
        NibblesOfText(s);
      }
    }
    r
  }

  /** `b` written as lower-case hex, two digits per byte, no spaces. */
  function ToHex(b: seq<u8>): (s: string)
    ensures |s| == 2 * |b|
  {
    if |b| == 0 then [] else [HexChar(b[0] / 16), HexChar(b[0] % 16)] + ToHex(b[1..])
  }

  /** The digit values of `ToHex(b)`, two per byte. */
  function NibblesOf(b: seq<u8>): (n: seq<u8>)
    ensures |n| == 2 * |b| && AllNibbles(n)
  {
    if |b| == 0 then [] else [b[0] / 16, b[0] % 16] + NibblesOf(b[1..])
  }

  lemma {:induction false} NibblesOfToHex(b: seq<u8>)
    ensures Nibbles(ToHex(b)) == Ok(NibblesOf(b))
  {
    if |b| > 0 {
      var s := ToHex(b);
      var hi, lo := b[0] / 16, b[0] % 16;
      NibblesOfToHex(b[1..]);
      assert H2b(s[0]) == Nibble(hi) && H2b(s[1..][0]) == Nibble(lo);
      assert s[1..][1..] == ToHex(b[1..]);
      assert Nibbles(s[1..]) == Ok([lo] + NibblesOf(b[1..]));
      assert Nibbles(s) == Ok([hi] + ([lo] + NibblesOf(b[1..])));
      assert NibblesOf(b) == [hi] + ([lo] + NibblesOf(b[1..]));
    }
  }

  /** Byte k of `b` gives digits 2k (high) and 2k+1 (low). */
  lemma {:induction false} NibblesOfAt(b: seq<u8>, k: nat)
    requires k < |b|
    ensures NibblesOf(b)[2 * k] == b[k] / 16 && NibblesOf(b)[2 * k + 1] == b[k] % 16
  {
    if k > 0 {
      NibblesOfAt(b[1..], k - 1);
    }
  }

  lemma PackNibblesOf(b: seq<u8>)
    ensures Pack(NibblesOf(b)) == Ok(b)
  {
    var n := NibblesOf(b);
    forall k | 0 <= k < |b| ensures Paired(n)[k] == b[k] {
      NibblesOfAt(b, k);
      assert n[2 * k] * 16 + n[2 * k + 1] == b[k];
    }
    assert Paired(n) == b;
  }

  /** The helper reads back any byte string written as lower-case hex. */
  lemma HexToBytesRoundTrip(b: seq<u8>)
    ensures HexToBytes(ToHex(b)) == Ok(b)
  {
    NibblesOfToHex(b);
    PackNibblesOf(b);
  }

  /** Spaces are skipped wherever they stand: removing one changes nothing. */
  lemma {:induction false} SpaceIgnored(a: string, b: string)
    ensures HexToBytes(a + " " + b) == HexToBytes(a + b)
  {
    NibblesSpaceIgnored(a, b);
  }

  lemma {:induction false} NibblesSpaceIgnored(a: string, b: string)
    ensures Nibbles(a + " " + b) == Nibbles(a + b)
  {
    if |a| == 0 {
      assert (a + " " + b)[1..] == a + b;
    } else {
      NibblesSpaceIgnored(a[1..], b);
      assert (a + " " + b)[1..] == a[1..] + " " + b;
      assert (a + b)[1..] == a[1..] + b;
    }
  }

  /** The 14 bytes of the System Event test frame. */
  const SystemEventFrame: seq<u8> :=
    [0x00, 0x0c, 0x53, 0x00, 0x00, 0x00, 0x00, 0x28, 0x6a, 0xab, 0x3b, 0x3a, 0x99, 0x4f]

  /** The values of a text made of hex digits only. */
  function DigitValues(s: string): (n: seq<u8>)
    requires AllDigits(s)
    ensures |n| == |s| && AllNibbles(n)
    ensures forall k :: 0 <= k < |s| ==> n[k] == H2b(s[k]).v
  {
    seq(|s|, k requires 0 <= k < |s| => H2b(s[k]).v)
  }

  /** On a text of digits only, the helper reads each digit in order. */
  lemma {:induction false} NibblesOfDigits(s: string)
    requires AllDigits(s)
    ensures Nibbles(s) == Ok(DigitValues(s))
  {
    if |s| > 0 {
      assert forall k :: 0 <= k < |s[1..]| ==> s[1..][k] == s[k + 1];
      NibblesOfDigits(s[1..]);
      assert DigitValues(s) == [H2b(s[0]).v] + DigitValues(s[1..]);
    }
  }

  /** On any text the helper does not panic on, the values are those of
      its digits, in order, with the spaces dropped. */
  lemma {:induction false} NibblesOfText(s: string)
    requires ValidHexText(s)
    ensures Nibbles(s) == Ok(DigitValues(Unspaced(s)))
  {
    if |s| > 0 {
      assert ValidHexText(s[1..]) by {
        forall k | 0 <= k < |s[1..]| ensures H2b(s[1..][k]) != NotHex {
          assert s[1..][k] == s[k + 1];
        }
      }
      NibblesOfText(s[1..]);
      if s[0] != ' ' {
        assert H2b(s[0]) != NotHex;
        var u := Unspaced(s[1..]);
        assert Unspaced(s) == [s[0]] + u;
        assert DigitValues([s[0]] + u) == [H2b(s[0]).v] + DigitValues(u);
      }
    }
  }

  /** The test text without its last space reads the same digits. */
  lemma TestTextFifthSpace()
    ensures Nibbles("000c 53 0000 0000 286aab3b3a99 4f") ==
      Nibbles("000c 53 0000 0000 286aab3b3a994f")
  {
    assert "000c 53 0000 0000 286aab3b3a99 4f" == "000c 53 0000 0000 286aab3b3a99" + " " + "4f";
    assert "000c 53 0000 0000 286aab3b3a994f" == "000c 53 0000 0000 286aab3b3a99" + "4f";
    NibblesSpaceIgnored("000c 53 0000 0000 286aab3b3a99", "4f");
  }

  /** ... and without its fourth space. */
  lemma TestTextFourthSpace()
    ensures Nibbles("000c 53 0000 0000 286aab3b3a994f") ==
      Nibbles("000c 53 0000 0000286aab3b3a994f")
  {
    assert "000c 53 0000 0000 286aab3b3a994f" == "000c 53 0000 0000" + " " + "286aab3b3a994f";
    assert "000c 53 0000 0000286aab3b3a994f" == "000c 53 0000 0000" + "286aab3b3a994f";
    NibblesSpaceIgnored("000c 53 0000 0000", "286aab3b3a994f");
  }

  /** ... and without its third space. */
  lemma TestTextThirdSpace()
    ensures Nibbles("000c 53 0000 0000286aab3b3a994f") == Nibbles("000c 53 00000000286aab3b3a994f")
  {
    assert "000c 53 0000 0000286aab3b3a994f" == "000c 53 0000" + " " + "0000286aab3b3a994f";
    assert "000c 53 00000000286aab3b3a994f" == "000c 53 0000" + "0000286aab3b3a994f";
    NibblesSpaceIgnored("000c 53 0000", "0000286aab3b3a994f");
  }

  /** ... and without its second space. */
  lemma TestTextSecondSpace()
    ensures Nibbles("000c 53 00000000286aab3b3a994f") == Nibbles("000c 5300000000286aab3b3a994f")
  {
    assert "000c 53 00000000286aab3b3a994f" == "000c 53" + " " + "00000000286aab3b3a994f";
    assert "000c 5300000000286aab3b3a994f" == "000c 53" + "00000000286aab3b3a994f";
    NibblesSpaceIgnored("000c 53", "00000000286aab3b3a994f");
  }

  /** ... and without its first space. */
  lemma TestTextFirstSpace()
    ensures Nibbles("000c 5300000000286aab3b3a994f") == Nibbles("000c5300000000286aab3b3a994f")
  {
    assert "000c 5300000000286aab3b3a994f" == "000c" + " " + "5300000000286aab3b3a994f";
    assert "000c5300000000286aab3b3a994f" == "000c" + "5300000000286aab3b3a994f";
    NibblesSpaceIgnored("000c", "5300000000286aab3b3a994f");
  }

  /** The 28 digit values of the test text, in order. */
  const TestNibbles: seq<u8> :=
    [0, 0, 0, 0xc, 5, 3, 0, 0, 0, 0, 0, 0, 0, 0,
     2, 8, 6, 0xa, 0xa, 0xb, 3, 0xb, 3, 0xa, 9, 9, 4, 0xf]

  /** Every character of the test text, spaces removed, is a hex digit. */
  lemma TestTextAllDigits()
    ensures AllDigits("000c5300000000286aab3b3a994f")
  {
  }

  /** The test text, spaces removed, reads as those digit values. */
  lemma TestTextDigits()
    ensures Nibbles("000c5300000000286aab3b3a994f") == Ok(TestNibbles)
  {
    var digits := "000c5300000000286aab3b3a994f";
    TestTextAllDigits();
    assert DigitValues(digits) == TestNibbles;
    NibblesOfDigits(digits);
  }

  /** Those digit values are nibbles ... */
  lemma TestNibblesAreNibbles()
    ensures AllNibbles(TestNibbles)
  {
  }

  /** ... and pair into the test frame. */
  lemma TestNibblesPack()
    ensures AllNibbles(TestNibbles) && Pack(TestNibbles) == Ok(SystemEventFrame)
  {
    TestNibblesAreNibbles();
    assert Paired(TestNibbles) == SystemEventFrame;
  }

  /** The test vector, first half: the spaced hex text spells the 14-byte
      System Event frame. */
  lemma SystemEventTestText()
    ensures HexToBytes("000c 53 0000 0000 286aab3b3a99 4f") == Ok(SystemEventFrame)
  {
    TestTextFifthSpace();
    TestTextFourthSpace();
    TestTextThirdSpace();
    TestTextSecondSpace();
    TestTextFirstSpace();
    TestTextDigits();
    TestNibblesPack();
  }

  /** The test vector, second half: the frame, whose length prefix is 12,
      decodes, consuming all of it, to tracking number 0, timestamp
      0x286aab3b3a99 and the start-of-messages event. */
  lemma SystemEventTestFrame()
    ensures ParseSystemEvent(SystemEventFrame) ==
      Done([], SystemEvent(0, 0x286aab3b3a99, StartOfMessages))
  {
    var e := SystemEvent(0, 0x286aab3b3a99, StartOfMessages);
    assert EncodeSystemEvent(12, e) == SystemEventFrame;
    SystemEventRoundTrip(12, e, []);
    assert SystemEventFrame + [] == SystemEventFrame;
  }
}
