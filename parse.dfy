/**
 * The observable outcome of a streaming byte parser and the three primitive
 * readers the system-event frame is built from: a big-endian u16, one
 * literal character and a literal byte tag.
 *
 * A parser applied to the unread bytes either finishes (`Done`, with the
 * bytes it did not consume and the value read), rejects them (`Error`), or
 * reports that more input is required (`Incomplete`, with the total number
 * of bytes, counted from the start of that parser's input, it needs).
 */
module Parse {
  import opened Bytes

  /** Why a parser rejected its input. */
  datatype ErrorKind = CharMismatch | TagMismatch | NoAlternative

  datatype IResult<+O> =
    | Done(rest: seq<u8>, value: O)
    | Error(kind: ErrorKind)
    | Incomplete(needed: nat)

  /** The same failure seen from a parser that had already consumed
      `consumed` bytes before the failing step: an `Incomplete` then needs
      that many bytes more; an `Error` is passed on unchanged. */
  function After<A, B>(r: IResult<A>, consumed: nat): (f: IResult<B>)
    requires !r.Done?
    ensures f.Error? <==> r.Error?
    ensures f.Incomplete? <==> r.Incomplete?
    ensures f.Error? ==> f.kind == r.kind
    ensures f.Incomplete? ==> f.needed == consumed + r.needed
  {
    match r
    case Error(k) => Error(k)
    case Incomplete(n) => Incomplete(consumed + n)
  }

  /** A big-endian unsigned 16-bit integer. */
  function BeU16(i: seq<u8>): (r: IResult<u16>)
    ensures |i| < 2 <==> r == Incomplete(2)
    ensures |i| >= 2 ==> r.Done? && r.rest == i[2..] && r.value == BigEndian(i[..2])
  {
    if |i| < 2 then Incomplete(2)
    else
      BigEndianTwo(i[..2]);
      Done(i[2..], (i[0] as int) * 256 + i[1])
  }

  /** One byte equal to the ASCII character `c`. */
  function Char(i: seq<u8>, c: char): (r: IResult<char>)
    requires c as int < 0x100
    ensures r.Incomplete? <==> |i| == 0
    ensures r.Incomplete? ==> r.needed == 1
    ensures r.Done? <==> |i| > 0 && i[0] == c as int
    ensures r.Done? ==> r.rest == i[1..] && r.value == c
    ensures r.Error? ==> r.kind == CharMismatch
  {
    if |i| == 0 then Incomplete(1)
    else if i[0] == c as int then Done(i[1..], c)
    else Error(CharMismatch)
  }

  /** The literal bytes `t`. The common prefix of input and tag is compared
      first: a difference there is an error even when the input is short;
      a short input that agrees so far needs the whole tag. */
  function Tag(i: seq<u8>, t: seq<u8>): (r: IResult<seq<u8>>)
    ensures r.Done? <==> |t| <= |i| && i[..|t|] == t
    ensures r.Done? ==> r.rest == i[|t|..] && r.value == t
    ensures r.Incomplete? <==> |i| < |t| && i == t[..|i|]
    ensures r.Incomplete? ==> r.needed == |t|
    ensures r.Error? ==> r.kind == TagMismatch
  {
    var m := if |i| < |t| then |i| else |t|;
    if i[..m] != t[..m] then Error(TagMismatch)
    else if m < |t| then Incomplete(|t|)
    else Done(i[|t|..], t)
  }
}
