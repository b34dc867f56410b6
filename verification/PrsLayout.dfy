/** The layout of a token stream, and its unambiguity: a control byte stands exactly where the
    reader needs a ninth control bit, and reading a layout gives back the tokens. */
module PrsLayout {
  import opened Bytes
  import opened PrsFormat

  datatype Item = ControlBit(flag: bool) | DataByte(value: byte)

  /** A token the layout has a spelling for.  The one such token that is not encodable is the
      extended copy from 0x2000 back. */
  predicate Spellable(t: Token) {
    t.Encodable() || (t.Extended? && t.offset == -MAX_OFFSET && 10 <= t.size <= MAX_COPY)
  }

  function Spell(t: Token): seq<Item>
    requires Spellable(t)
  {
    match t
    case Literal(value) => [ControlBit(true), DataByte(value)]
    case Short(offset, size) =>
      [ControlBit(false), ControlBit(false), ControlBit(size >= 4), ControlBit(size % 2 == 1),
       DataByte(offset + 0x100)]
    case Long(offset, size) =>
      var word := (offset + 0x2000) * 8 + size - 2;
      [ControlBit(false), ControlBit(true), DataByte(word % 0x100), DataByte(word / 0x100)]
    case Extended(offset, size) =>
      var word := (offset + 0x2000) * 8;
      [ControlBit(false), ControlBit(true), DataByte(word % 0x100), DataByte(word / 0x100),
       DataByte(size - 10)]
  }

  const TERMINATOR := [ControlBit(false), ControlBit(true), DataByte(0), DataByte(0)]

  function Items(ts: seq<Token>): seq<Item>
    requires forall t <- ts :: Spellable(t)
  {
    if ts == [] then TERMINATOR else Spell(ts[0]) + Items(ts[1..])
  }

  /** The flags of the next `n` control bits; beyond the last, those of `pad`, then false. */
  function NextFlags(items: seq<Item>, n: nat, pad: seq<bool>): (flags: seq<bool>)
    ensures |flags| == n
    decreases |items|
  {
    if n == 0 then []
    else if items == [] then seq(n, k => 0 <= k < |pad| && pad[k])
    else if items[0].DataByte? then NextFlags(items[1..], n, pad)
    else [items[0].flag] + NextFlags(items[1..], n - 1, pad)
  }

  function Pack(bits: seq<bool>): (v: nat)
  {
    if bits == [] then 0 else (if bits[0] then 1 else 0) + 2 * Pack(bits[1..])
  }

  lemma {:induction false} PackBound(bits: seq<bool>)
    ensures Pack(bits) < Power2(|bits|)
  {
    if bits != [] {
      PackBound(bits[1..]);
    }
  }

  function ControlByte(bits: seq<bool>): byte
    requires |bits| == 8
  {
    PackBound(bits);
    assert Power2(8) == 0x100 by {
      assert Power2(4) == 16;
    }
    Pack(bits)
  }

  /** The bytes of `items` when `left` bits of the current control byte are still unused; the
      bits that the last control byte has to spare are those of `pad`. */
  function Emit(items: seq<Item>, left: nat, pad: seq<bool>): seq<byte>
    decreases |items|
  {
    if items == [] then []
    else if items[0].DataByte? then [items[0].value] + Emit(items[1..], left, pad)
    else if left > 0 then Emit(items[1..], left - 1, pad)
    else [ControlByte(NextFlags(items, 8, pad))] + Emit(items[1..], 7, pad)
  }

  function Flags(items: seq<Item>): nat {
    if items == [] then 0 else (if items[0].ControlBit? then 1 else 0) + Flags(items[1..])
  }

  /** Control bytes come no earlier than they are needed: one for every eight control bits
      beyond those that are left, beside the data bytes. */
  lemma {:induction false} EmitLength(items: seq<Item>, left: nat, pad: seq<bool>)
    ensures |Emit(items, left, pad)| == |items| - Flags(items)
      + (if Flags(items) <= left then 0 else (Flags(items) - left + 7) / 8)
    decreases |items|
  {
    if items != [] {
      if items[0].DataByte? {
        EmitLength(items[1..], left, pad);
      } else if left > 0 {
        EmitLength(items[1..], left - 1, pad);
      } else {
        EmitLength(items[1..], 7, pad);
      }
    }
  }

  function Layout(ts: seq<Token>, pad: seq<bool>): seq<byte>
    requires forall t <- ts :: Spellable(t)
  {
    Emit(Items(ts), 0, pad)
  }

  /** The tokens of a stream, up to whatever ends it. */
  datatype Reading = Reading(tokens: seq<Token>, terminated: bool)

  function ReadTokens(data: seq<byte>, c: Cursor): Reading
    requires c.pos <= |data|
    decreases |data| - c.pos
  {
    match NextToken(data, c)
    case OutOfData => Reading([], false)
    case End(_) => Reading([], true)
    case Next(t, next) =>
      var rest := ReadTokens(data, next);
      Reading([t] + rest.tokens, rest.terminated)
  }

  /** The reader at `c` stands before the spelling of `items`, which `suffix` follows. */
  ghost predicate Before(data: seq<byte>, c: Cursor, items: seq<Item>, suffix: seq<byte>, pad: seq<bool>) {
    && c.pos <= |data|
    && data[c.pos..] == Emit(items, |c.bits|, pad) + suffix
    && c.bits == NextFlags(items, |c.bits|, pad)
  }

  lemma {:induction false} PackRoundTrip(bits: seq<bool>, b: byte)
    requires b == Pack(bits)
    ensures LowBits(|bits|, b) == bits
  {
    if bits != [] {
      assert Pack(bits[1..]) == b / 2;
      PackRoundTrip(bits[1..], b / 2);
    }
  }

  lemma ControlByteRead(flags: seq<bool>)
    requires |flags| == 8
    ensures LowBits(8, ControlByte(flags)) == flags
  {
    PackRoundTrip(flags, ControlByte(flags));
  }

  lemma BitRead(data: seq<byte>, c: Cursor, items: seq<Item>, suffix: seq<byte>, pad: seq<bool>)
    requires Before(data, c, items, suffix, pad) && items != [] && items[0].ControlBit?
    ensures var r := TakeBit(data, c);
      r.Bit? && r.flag == items[0].flag && Before(data, r.next, items[1..], suffix, pad)
  {
    hide ControlByte, LowBits;
    if c.bits == [] {
      var flags := NextFlags(items, 8, pad);
      assert data[c.pos] == data[c.pos..][0] == ControlByte(flags);
      ControlByteRead(flags);
      assert data[c.pos + 1..] == data[c.pos..][1..] == Emit(items[1..], 7, pad) + suffix;
    }
  }

  lemma ByteRead(data: seq<byte>, c: Cursor, items: seq<Item>, suffix: seq<byte>, pad: seq<bool>)
    requires Before(data, c, items, suffix, pad) && items != [] && items[0].DataByte?
    ensures var r := TakeByte(data, c);
      r.Byte? && r.value == items[0].value && Before(data, r.next, items[1..], suffix, pad)
  {
    assert data[c.pos] == data[c.pos..][0] == items[0].value;
    assert data[c.pos + 1..] == data[c.pos..][1..] == Emit(items[1..], |c.bits|, pad) + suffix;
  }

  /** Reading one spelt token, or the zero word of a copy that cannot be encoded. */
  lemma TokenRead(data: seq<byte>, c: Cursor, t: Token, rest: seq<Item>, suffix: seq<byte>, pad: seq<bool>)
    requires Spellable(t) && Before(data, c, Spell(t) + rest, suffix, pad)
    ensures var r := NextToken(data, c);
      if t.Encodable() then r.Next? && r.token == t && Before(data, r.next, rest, suffix, pad)
      else r.End?
  {
    var items := Spell(t) + rest;
    BitRead(data, c, items, suffix, pad);
    var c1 := TakeBit(data, c).next;
    if t.Literal? {
      ByteRead(data, c1, items[1..], suffix, pad);
      assert items[1..][1..] == rest;
    } else {
      BitRead(data, c1, items[1..], suffix, pad);
      var c2 := TakeBit(data, c1).next;
      assert items[1..][1..] == Spell(t)[2..] + rest;
      if t.Short? {
        ShortRead(data, c2, t, rest, suffix, pad);
      } else {
        LongRead(data, c2, t, rest, suffix, pad);
      }
    }
  }

  lemma ShortRead(data: seq<byte>, c: Cursor, t: Token, rest: seq<Item>, suffix: seq<byte>, pad: seq<bool>)
    requires t.Short? && t.Encodable() && Before(data, c, Spell(t)[2..] + rest, suffix, pad)
    ensures var r := NextShort(data, c); r.Next? && r.token == t && Before(data, r.next, rest, suffix, pad)
  {
    var items := Spell(t)[2..] + rest;
    BitRead(data, c, items, suffix, pad);
    var c1 := TakeBit(data, c).next;
    BitRead(data, c1, items[1..], suffix, pad);
    var c2 := TakeBit(data, c1).next;
    ByteRead(data, c2, items[1..][1..], suffix, pad);
    assert items[1..][1..][1..] == rest;
  }

  /** The bytes of a long or extended copy, and what they are scanned as. */
  lemma LongParts(t: Token, next: Cursor) returns (lsb: byte, msb: byte, b: byte)
    requires (t.Long? || t.Extended?) && Spellable(t)
    ensures |Spell(t)| >= 2
    ensures Spell(t)[2..] == [DataByte(lsb), DataByte(msb)] + (if t.Extended? then [DataByte(b)] else [])
    ensures LongScan(lsb, msb, b, next) == if t.Encodable() then Next(t, next) else End(next)
  {
    var high, low := t.offset + 0x2000, if t.Long? then t.size - 2 else 0;
    WordOfParts(high, low);
    var word := high * 8 + low;
    lsb, msb, b := word % 0x100, word / 0x100, if t.Extended? then t.size - 10 else 0;
  }

  lemma WordOfParts(high: nat, low: nat)
    requires high < 0x2000 && low < 8
    ensures var word := high * 8 + low;
      word / 0x100 < 0x100 && word / 0x100 * 0x100 + word % 0x100 == word && word / 8 == high && word % 0x100 % 8 == low
  {
  }

  lemma LongRead(data: seq<byte>, c: Cursor, t: Token, rest: seq<Item>, suffix: seq<byte>, pad: seq<bool>)
    requires (t.Long? || t.Extended?) && Spellable(t) && Before(data, c, Spell(t)[2..] + rest, suffix, pad)
    ensures var r := NextLong(data, c);
      if t.Encodable() then r.Next? && r.token == t && Before(data, r.next, rest, suffix, pad)
      else r.End?
  {
    hide Spell, Before;
    var lsb, msb, b := LongParts(t, c);
    var items := Spell(t)[2..] + rest;
    ByteRead(data, c, items, suffix, pad);
    var c1 := TakeByte(data, c).next;
    ByteRead(data, c1, items[1..], suffix, pad);
    var c2 := TakeByte(data, c1).next;
    if t.Long? {
      assert items[1..][1..] == rest;
    } else if t.Encodable() {
      ByteRead(data, c2, items[1..][1..], suffix, pad);
      assert items[1..][1..][1..] == rest;
    }
  }

  lemma TerminatorRead(data: seq<byte>, c: Cursor, suffix: seq<byte>, pad: seq<bool>)
    requires Before(data, c, TERMINATOR, suffix, pad)
    ensures NextToken(data, c).End?
  {
    BitRead(data, c, TERMINATOR, suffix, pad);
    var c1 := TakeBit(data, c).next;
    BitRead(data, c1, TERMINATOR[1..], suffix, pad);
    var c2 := TakeBit(data, c1).next;
    ByteRead(data, c2, TERMINATOR[1..][1..], suffix, pad);
    var c3 := TakeByte(data, c2).next;
    ByteRead(data, c3, TERMINATOR[1..][1..][1..], suffix, pad);
  }

  /** The tokens before the first one that cannot be encoded. */
  function EncodablePrefix(ts: seq<Token>): seq<Token> {
    if ts == [] || !ts[0].Encodable() then [] else [ts[0]] + EncodablePrefix(ts[1..])
  }

  lemma {:induction false} ItemsRead(data: seq<byte>, c: Cursor, ts: seq<Token>, suffix: seq<byte>, pad: seq<bool>)
    requires forall t <- ts :: Spellable(t)
    requires Before(data, c, Items(ts), suffix, pad)
    ensures ReadTokens(data, c) == Reading(EncodablePrefix(ts), true)
    decreases |ts|
  {
    if ts == [] {
      TerminatorRead(data, c, suffix, pad);
    } else {
      TokenRead(data, c, ts[0], Items(ts[1..]), suffix, pad);
      if ts[0].Encodable() {
        ItemsRead(data, NextToken(data, c).next, ts[1..], suffix, pad);
      }
    }
  }

  /** Whatever follows it and pads it, a layout reads back as its tokens up to the first copy
      whose word is zero, the all-zero long copy being the only terminator. */
  lemma LayoutReadsBack(ts: seq<Token>, suffix: seq<byte>, pad: seq<bool>)
    requires forall t <- ts :: Spellable(t)
    ensures ReadTokens(Layout(ts, pad) + suffix, START) == Reading(EncodablePrefix(ts), true)
  {
    var data := Layout(ts, pad) + suffix;
    assert data[0..] == data;
    ItemsRead(data, START, ts, suffix, pad);
  }

  lemma {:induction false} EncodablePrefixIsAll(ts: seq<Token>)
    ensures EncodablePrefix(ts) == ts <==> forall t <- ts :: t.Encodable()
  {
    if ts != [] {
      EncodablePrefixIsAll(ts[1..]);
      assert ts == [ts[0]] + ts[1..];
    }
  }

  /** The round trip holds exactly of the lists whose tokens are all encodable. */
  lemma LayoutRoundTrip(ts: seq<Token>, suffix: seq<byte>, pad: seq<bool>)
    requires forall t <- ts :: Spellable(t)
    ensures ReadTokens(Layout(ts, pad) + suffix, START) == Reading(ts, true)
      <==> forall t <- ts :: t.Encodable()
  {
    LayoutReadsBack(ts, suffix, pad);
    EncodablePrefixIsAll(ts);
  }

  /** No layout is a prefix of another one, nor are two lists laid out alike. */
  lemma LayoutIsUnambiguous(ts: seq<Token>, us: seq<Token>, s: seq<byte>, r: seq<byte>, pad: seq<bool>,
                            pad': seq<bool>)
    requires forall t <- ts :: t.Encodable()
    requires forall t <- us :: t.Encodable()
    requires Layout(ts, pad) + s == Layout(us, pad') + r
    ensures ts == us
  {
    LayoutRoundTrip(ts, s, pad);
    LayoutRoundTrip(us, r, pad');
  }

  // ----- Every terminated stream is a layout

  lemma {:induction false} LowBitsRoundTrip(n: nat, b: byte)
    requires b < Power2(n)
    ensures Pack(LowBits(n, b)) == b
  {
    if n > 0 {
      LowBitsRoundTrip(n - 1, b / 2);
    }
  }

  lemma ControlByteAgain(b: byte)
    ensures ControlByte(LowBits(8, b)) == b
  {
    assert Power2(8) == 0x100 by {
      assert Power2(4) == 16;
    }
    LowBitsRoundTrip(8, b);
  }

  lemma BitWasSpelt(data: seq<byte>, c: Cursor, rest: seq<Item>, suffix: seq<byte>, pad: seq<bool>)
    requires c.pos <= |data| && TakeBit(data, c).Bit?
    requires Before(data, TakeBit(data, c).next, rest, suffix, pad)
    ensures Before(data, c, [ControlBit(TakeBit(data, c).flag)] + rest, suffix, pad)
  {
    var items := [ControlBit(TakeBit(data, c).flag)] + rest;
    assert items[1..] == rest;
    if c.bits == [] {
      ControlByteAgain(data[c.pos]);
      assert NextFlags(items, 8, pad) == LowBits(8, data[c.pos]);
      assert data[c.pos..] == [data[c.pos]] + data[c.pos + 1..];
    }
  }

  lemma ByteWasSpelt(data: seq<byte>, c: Cursor, rest: seq<Item>, suffix: seq<byte>, pad: seq<bool>)
    requires c.pos <= |data| && TakeByte(data, c).Byte?
    requires Before(data, TakeByte(data, c).next, rest, suffix, pad)
    ensures Before(data, c, [DataByte(TakeByte(data, c).value)] + rest, suffix, pad)
  {
    var items := [DataByte(TakeByte(data, c).value)] + rest;
    assert items[1..] == rest;
    assert data[c.pos..] == [data[c.pos]] + data[c.pos + 1..];
  }

  /** What was scanned as a token, or as the end, had the spelling of it. */
  function Spelling(r: Scan): seq<Item>
    requires r.Next? ==> Spellable(r.token)
  {
    match r
    case Next(t, _) => Spell(t)
    case End(_) => TERMINATOR
    case OutOfData => []
  }

  /** What the two bytes of a word, and the size byte if there is one, were scanned as. */
  function LongScan(lsb: byte, msb: byte, b: byte, next: Cursor): Scan {
    var word := msb as int * 0x100 + lsb;
    if word == 0 then End(next)
    else if lsb % 8 != 0 then Next(Long(word / 8 - 0x2000, lsb % 8 + 2), next)
    else Next(Extended(word / 8 - 0x2000, b as int + 10), next)
  }

  lemma WordOfBytes(lsb: byte, msb: byte)
    ensures var word := msb as int * 0x100 + lsb;
      && word % 0x100 == lsb && word / 0x100 == msb && word / 8 * 8 + word % 8 == word && word % 8 == lsb % 8
      && (word / 8 == 0 ==> word == lsb % 8)
  {
  }

  lemma LongSpelling(lsb: byte, msb: byte, b: byte, next: Cursor)
    ensures var r := LongScan(lsb, msb, b, next);
      && (r.Next? ==> Spellable(r.token) && !r.token.Literal? && !r.token.Short?)
      && |Spelling(r)| >= 2
      && Spelling(r)[2..]
        == [DataByte(lsb), DataByte(msb)] + (if r.Next? && r.token.Extended? then [DataByte(b)] else [])
  {
    WordOfBytes(lsb, msb);
  }

  lemma LongWasSpelt(data: seq<byte>, c: Cursor, rest: seq<Item>, suffix: seq<byte>, pad: seq<bool>)
    requires c.pos <= |data| && !NextLong(data, c).OutOfData?
    requires Before(data, NextLong(data, c).next, rest, suffix, pad)
    ensures Before(data, c, Spelling(NextLong(data, c))[2..] + rest, suffix, pad)
  {
    hide Before, Spell, Spelling;
    var r := NextLong(data, c);
    var l := TakeByte(data, c);
    var m := TakeByte(data, l.next);
    var behind := rest;
    var b: byte := 0;
    if r.Next? && r.token.Extended? {
      b := TakeByte(data, m.next).value;
      ByteWasSpelt(data, m.next, rest, suffix, pad);
      behind := [DataByte(b)] + rest;
    }
    LongSpelling(l.value, m.value, b, r.next);
    assert r == LongScan(l.value, m.value, b, r.next);
    ByteWasSpelt(data, l.next, behind, suffix, pad);
    ByteWasSpelt(data, c, [DataByte(m.value)] + behind, suffix, pad);
    assert Spelling(r)[2..] + rest == [DataByte(l.value)] + ([DataByte(m.value)] + behind);
  }

  lemma ShortWasSpelt(data: seq<byte>, c: Cursor, rest: seq<Item>, suffix: seq<byte>, pad: seq<bool>)
    requires c.pos <= |data| && !NextShort(data, c).OutOfData?
    requires Before(data, NextShort(data, c).next, rest, suffix, pad)
    ensures Before(data, c, Spelling(NextShort(data, c))[2..] + rest, suffix, pad)
  {
    hide Before;
    var r := NextShort(data, c);
    var high := TakeBit(data, c);
    var low := TakeBit(data, high.next);
    var b := TakeByte(data, low.next);
    ByteWasSpelt(data, low.next, rest, suffix, pad);
    BitWasSpelt(data, high.next, [DataByte(b.value)] + rest, suffix, pad);
    BitWasSpelt(data, c, [ControlBit(low.flag)] + ([DataByte(b.value)] + rest), suffix, pad);
    assert Spelling(r)[2..] + rest
      == [ControlBit(high.flag)] + ([ControlBit(low.flag)] + ([DataByte(b.value)] + rest));
  }

  lemma TokenWasSpelt(data: seq<byte>, c: Cursor, rest: seq<Item>, suffix: seq<byte>, pad: seq<bool>)
    requires c.pos <= |data| && !NextToken(data, c).OutOfData?
    requires Before(data, NextToken(data, c).next, rest, suffix, pad)
    ensures Before(data, c, Spelling(NextToken(data, c)) + rest, suffix, pad)
  {
    hide Before, NextLong, NextShort;
    var r := NextToken(data, c);
    var first := TakeBit(data, c);
    if first.flag {
      ByteWasSpelt(data, first.next, rest, suffix, pad);
      var b := TakeByte(data, first.next);
      BitWasSpelt(data, c, [DataByte(b.value)] + rest, suffix, pad);
      assert Spelling(r) + rest == [ControlBit(true)] + ([DataByte(b.value)] + rest);
    } else {
      var second := TakeBit(data, first.next);
      var tail := Spelling(r)[2..] + rest;
      if second.flag {
        LongWasSpelt(data, second.next, rest, suffix, pad);
      } else {
        ShortWasSpelt(data, second.next, rest, suffix, pad);
      }
      BitWasSpelt(data, first.next, tail, suffix, pad);
      BitWasSpelt(data, c, [ControlBit(second.flag)] + tail, suffix, pad);
      CopyKind(data, second.next, second.flag);
      assert Spelling(r) + rest == [ControlBit(false)] + ([ControlBit(second.flag)] + tail);
    }
  }

  lemma CopyKind(data: seq<byte>, c: Cursor, long: bool)
    requires c.pos <= |data|
    ensures var r := if long then NextLong(data, c) else NextShort(data, c);
      !r.OutOfData? ==> |Spelling(r)| >= 2 && Spelling(r)[..2] == [ControlBit(false), ControlBit(long)]
  {
  }

  lemma {:induction false} TerminatedWasSpelt(data: seq<byte>, c: Cursor) returns (suffix: seq<byte>, pad: seq<bool>)
    requires c.pos <= |data| && |c.bits| < 8 && ReadTokens(data, c).terminated
    ensures forall t <- ReadTokens(data, c).tokens :: Spellable(t)
    ensures |pad| < 8 && Before(data, c, Items(ReadTokens(data, c).tokens), suffix, pad)
    decreases |data| - c.pos
  {
    hide Before, Spell;
    var r := NextToken(data, c);
    FewBitsLeft(data, c);
    if r.End? {
      suffix, pad := data[r.next.pos..], r.next.bits;
      NothingLeft(data, r.next);
      TokenWasSpelt(data, c, [], suffix, pad);
      assert Spelling(r) + [] == TERMINATOR;
    } else {
      suffix, pad := TerminatedWasSpelt(data, r.next);
      var rest := ReadTokens(data, r.next).tokens;
      TokenWasSpelt(data, c, Items(rest), suffix, pad);
      var ts := ReadTokens(data, c).tokens;
      assert ts == [r.token] + rest && ts[1..] == rest;
    }
  }

  lemma NothingLeft(data: seq<byte>, c: Cursor)
    requires c.pos <= |data|
    ensures Before(data, c, [], data[c.pos..], c.bits)
  {
    assert [] + data[c.pos..] == data[c.pos..];
  }

  lemma FewBitsLeft(data: seq<byte>, c: Cursor)
    requires c.pos <= |data| && |c.bits| < 8
    ensures var r := NextToken(data, c); !r.OutOfData? ==> |r.next.bits| < 8
  {
  }

  /** Conversely, every stream that reads as terminated is the layout of its tokens, but for the
      bits that its last control byte has to spare and for what follows the terminator. */
  lemma TerminatedIsLayout(data: seq<byte>) returns (suffix: seq<byte>, pad: seq<bool>)
    requires ReadTokens(data, START).terminated
    ensures forall t <- ReadTokens(data, START).tokens :: Spellable(t)
    ensures |pad| < 8 && data == Layout(ReadTokens(data, START).tokens, pad) + suffix
  {
    suffix, pad := TerminatedWasSpelt(data, START);
    assert data[0..] == data;
  }
}
