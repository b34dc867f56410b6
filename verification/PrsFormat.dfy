/** The PRS compression format: control bits interleaved with data bytes, the tokens they
    spell, and the expansion of a stream by a decoder that keeps its whole output. */
module PrsFormat {
  import opened Bytes

  const MAX_OFFSET := 0x2000  // how far back a copy may reach
  const MAX_COPY := 265       // the longest copy

  /** Where the decoder stands in its input: the next unread byte, and the control bits that
      are left of the current control byte, in the order in which they are consumed. */
  datatype Cursor = Cursor(pos: nat, bits: seq<bool>)

  const START := Cursor(0, [])

  /** The lowest `n` bits of `b`, lowest first. */
  function LowBits(n: nat, b: byte): (bits: seq<bool>)
    ensures |bits| == n
  {
    if n == 0 then [] else [b % 2 == 1] + LowBits(n - 1, b / 2)
  }

  datatype BitResult = Bit(flag: bool, next: Cursor) | NoBit

  function TakeBit(data: seq<byte>, c: Cursor): (r: BitResult)
    requires c.pos <= |data|
    ensures r.Bit? ==> c.pos <= r.next.pos <= |data|
  {
    if c.bits != [] then
      Bit(c.bits[0], Cursor(c.pos, c.bits[1..]))
    else if c.pos < |data| then
      var bits := LowBits(8, data[c.pos]);
      Bit(bits[0], Cursor(c.pos + 1, bits[1..]))
    else
      NoBit
  }

  datatype ByteResult = Byte(value: byte, next: Cursor) | NoByte

  function TakeByte(data: seq<byte>, c: Cursor): (r: ByteResult)
    requires c.pos <= |data|
    ensures r.Byte? ==> c.pos < r.next.pos <= |data|
  {
    if c.pos < |data| then Byte(data[c.pos], Cursor(c.pos + 1, c.bits)) else NoByte
  }

  /** One operation of the decoder.  The three copies differ in how they are spelt; all of
      them repeat `size` bytes from `-offset` bytes back. */
  datatype Token =
    | Literal(value: byte)
    | Short(offset: int, size: nat)
    | Long(offset: int, size: nat)
    | Extended(offset: int, size: nat)
  {
    /** What the layout can spell.  The word of an extended copy from 0x2000 back would be
        zero, and that is the end of the stream. */
    predicate Encodable() {
      match this
      case Literal(_) => true
      case Short(offset, size) => -0x100 <= offset < 0 && 2 <= size <= 5
      case Long(offset, size) => -MAX_OFFSET <= offset < 0 && 3 <= size <= 9
      case Extended(offset, size) => -MAX_OFFSET < offset < 0 && 10 <= size <= MAX_COPY
    }
  }

  datatype Scan = Next(token: Token, next: Cursor) | End(next: Cursor) | OutOfData

  /** The next token of the stream. */
  function NextToken(data: seq<byte>, c: Cursor): (r: Scan)
    requires c.pos <= |data|
    ensures !r.OutOfData? ==> c.pos < r.next.pos <= |data|
    ensures r.Next? ==> r.token.Encodable()
  {
    match TakeBit(data, c)
    case NoBit => OutOfData
    case Bit(literal, c1) =>
      if literal then
        match TakeByte(data, c1)
        case NoByte => OutOfData
        case Byte(value, c2) => Next(Literal(value), c2)
      else
        NextCopy(data, c1)
  }

  function NextCopy(data: seq<byte>, c: Cursor): (r: Scan)
    requires c.pos <= |data|
    ensures !r.OutOfData? ==> c.pos < r.next.pos <= |data|
    ensures r.Next? ==> r.token.Encodable() && !r.token.Literal?
  {
    match TakeBit(data, c)
    case NoBit => OutOfData
    case Bit(long, c1) => if long then NextLong(data, c1) else NextShort(data, c1)
  }

  function NextShort(data: seq<byte>, c: Cursor): (r: Scan)
    requires c.pos <= |data|
    ensures !r.OutOfData? ==> c.pos < r.next.pos <= |data|
    ensures r.Next? ==> r.token.Encodable() && !r.token.Literal?
  {
    match TakeBit(data, c)
    case NoBit => OutOfData
    case Bit(high, c1) =>
      match TakeBit(data, c1)
      case NoBit => OutOfData
      case Bit(low, c2) =>
        match TakeByte(data, c2)
        case NoByte => OutOfData
        case Byte(b, c3) =>
          Next(Short(b - 0x100, (if high then 2 else 0) + (if low then 1 else 0) + 2), c3)
  }

  function NextLong(data: seq<byte>, c: Cursor): (r: Scan)
    requires c.pos <= |data|
    ensures !r.OutOfData? ==> c.pos < r.next.pos <= |data|
    ensures r.Next? ==> r.token.Encodable() && !r.token.Literal?
  {
    match TakeByte(data, c)
    case NoByte => OutOfData
    case Byte(lsb, c1) =>
      match TakeByte(data, c1)
      case NoByte => OutOfData
      case Byte(msb, c2) =>
        var word := msb * 0x100 + lsb;
        if word == 0 then End(c2)
        else if lsb % 8 != 0 then Next(Long(word / 8 - 0x2000, lsb % 8 + 2), c2)
        else
          match TakeByte(data, c2)
          case NoByte => OutOfData
          case Byte(b, c3) => Next(Extended(word / 8 - 0x2000, b + 10), c3)
  }

  /** `n` bytes repeated from `-offset` bytes back; the source may run into its own copy. */
  function CopyOut(out: seq<byte>, offset: int, n: nat): (r: seq<byte>)
    requires -|out| <= offset < 0
    ensures |r| == |out| + n
    ensures r[..|out|] == out
    ensures forall k :: |out| <= k < |r| ==> r[k] == r[k + offset]
    decreases n
  {
    if n == 0 then out
    else
      var shorter := CopyOut(out, offset, n - 1);
      shorter + [shorter[|shorter| + offset]]
  }

  predicate Reaches(t: Token, length: nat) {
    t.Literal? || -(length as int) <= t.offset < 0
  }

  function Apply(out: seq<byte>, t: Token): (r: seq<byte>)
    requires Reaches(t, |out|)
    ensures |out| <= |r| && r[..|out|] == out
  {
    if t.Literal? then out + [t.value] else CopyOut(out, t.offset, t.size)
  }

  /** Why the expansion of a stream stops: at its terminator, because the data ran out, or at
      a reference to before the start of the output. */
  datatype Ending = Terminated | Truncated | Invalid

  datatype Expansion = Expansion(out: seq<byte>, ending: Ending)

  /** The simple decoder: everything it has ever written stays available. */
  function Expand(data: seq<byte>, c: Cursor, out: seq<byte>): (e: Expansion)
    requires c.pos <= |data|
    decreases |data| - c.pos
  {
    match NextToken(data, c)
    case OutOfData => Expansion(out, Truncated)
    case End(_) => Expansion(out, Terminated)
    case Next(t, next) =>
      if Reaches(t, |out|) then
        Expand(data, next, Apply(out, t))
      else
        Expansion(out, Invalid)
  }

  /** What has been written is never taken back. */
  lemma {:induction false} ExpandExtends(data: seq<byte>, c: Cursor, out: seq<byte>)
    requires c.pos <= |data|
    ensures var e := Expand(data, c, out).out; |out| <= |e| && e[..|out|] == out
    decreases |data| - c.pos
  {
    var scan := NextToken(data, c);
    if scan.Next? && Reaches(scan.token, |out|) {
      var longer := Apply(out, scan.token);
      ExpandExtends(data, scan.next, longer);
      var e := Expand(data, scan.next, longer).out;
      assert e[..|out|] == e[..|longer|][..|out|];
    }
  }

  /** An overlapping copy repeats the last `period` bytes over and over. */
  lemma {:induction false} CopyIsPeriodic(out: seq<byte>, period: int, n: nat, k: nat)
    requires 0 < period <= |out| && k < n
    ensures CopyOut(out, -period, n)[|out| + k] == out[|out| - period + k % period]
    decreases k
  {
    var r := CopyOut(out, -period, n);
    assert r[|out| + k] == r[|out| + k - period];
    if k < period {
      assert k % period == k by {
        RemainderIsUnique(k, 0, period, k);
      }
      assert r[..|out|][|out| + k - period] == out[|out| + k - period];
    } else {
      CopyIsPeriodic(out, period, n, k - period);
      ModuloShift(k, period);
    }
  }
}
