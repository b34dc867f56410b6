/** Text files byte by byte: where what is written stands and how it is spelt, and by which
    bytes a file is read or refused. */
module TextBytes {
  import opened Bytes
  import opened TextFormat
  import opened TextArea
  import opened TextFiles
  import opened TextReading
  import opened TextPairing
  import opened TextTheorems

  /** The number whose four bytes stand at `o`, the lowest first. */
  function Number(s: seq<byte>, o: nat): nat
    requires o + 4 <= |s|
  {
    s[o] as int + 0x100 * s[o + 1] as int + 0x1_0000 * s[o + 2] as int + 0x100_0000 * s[o + 3] as int
  }

  lemma NumberOfWord(s: seq<byte>, o: nat, w: u32)
    requires o + 4 <= |s| && s[o..o + 4] == LE32(w)
    ensures Number(s, o) == w
  {
    Word32RoundTrip(w);
    var t := s[o..o + 4];
    assert t[0] == s[o] && t[1] == s[o + 1] && t[2] == s[o + 2] && t[3] == s[o + 3];
  }

  // ----- Characters

  /** The bytes of a character in UTF-8: how many by its size, a lead byte that says so, tails in
      0x80..0xBF, and together the bits of the character. */
  lemma Utf8Spells(r: rune)
    ensures var s := Utf8(r);
      && |s| == (if r < 0x80 then 1 else if r < 0x800 then 2 else if r < 0x1_0000 then 3 else 4)
      && (forall k :: 1 <= k < |s| ==> 0x80 <= s[k] < 0xC0)
      && r as int == match |s|
         case 1 => s[0] as int
         case 2 => (s[0] as int - 0xC0) * 0x40 + (s[1] as int - 0x80)
         case 3 => (s[0] as int - 0xE0) * 0x1000 + (s[1] as int - 0x80) * 0x40 + (s[2] as int - 0x80)
         case _ =>
           (s[0] as int - 0xF0) * 0x4_0000 + (s[1] as int - 0x80) * 0x1000 + (s[2] as int - 0x80) * 0x40
           + (s[3] as int - 0x80)
  {
    Sixths(r, 0x40);
    Sixths(r, 0x1000);
  }

  lemma Sixths(r: nat, m: nat)
    requires m == 0x40 || m == 0x1000
    ensures r / m == r / (m * 0x40) * 0x40 + r / m % 0x40 && r == r / 0x40 * 0x40 + r % 0x40
  {
    assert r / m / 0x40 == r / (m * 0x40) by {
      if m == 0x40 { assert r / 0x40 / 0x40 == r / 0x1000; } else { assert r / 0x1000 / 0x40 == r / 0x4_0000; }
    }
  }

  /** The two bytes of every character of a string, the lower first. */
  lemma {:induction false} Utf16Spells(t: text, k: nat)
    requires k < |t|
    ensures var s := Utf16All(t);
      2 * k + 1 < |s| && s[2 * k] as int + 0x100 * s[2 * k + 1] as int == t[k] as int % 0x1_0000
  {
    if k > 0 {
      Utf16Spells(t[1..], k - 1);
    }
  }

  /** A spelling: the characters, a zero of their width, and zeros up to the next multiple of
      four. */
  lemma SpellingBytes(t: text, status: Status)
    ensures var s := Spelling(t, status);
      var n := if status == String then 2 * |t| else |Utf8All(t)|;
      && s[..n] == (if status == String then Utf16All(t) else Utf8All(t))
      && |s| % 4 == 0 && |s| - 4 < n + (if status == String then 2 else 1) <= |s|
      && forall k :: n <= k < |s| ==> s[k] == 0
  {
  }

  /** Where the `k`-th character of width `c` begins. */
  function At(c: nat, k: nat): nat {
    if c == 2 then 2 * k else k
  }

  /** The `k`-th character of width `c`; of the last one half may be missing. */
  function UnitAt(c: nat, s: seq<byte>, k: nat): nat
    requires At(c, k) < |s|
  {
    s[At(c, k)] as int + if c == 2 && 2 * k + 1 < |s| then 0x100 * s[2 * k + 1] as int else 0
  }

  /** `t[k]` is the `k`-th character, which is not zero; surrogates become U+FFFD. */
  ghost predicate CharacterAt(c: nat, s: seq<byte>, t: text, k: nat)
    requires k < |t|
  {
    && At(c, k) < |s| && UnitAt(c, s, k) != 0
    && t[k] == if 0xD800 <= UnitAt(c, s, k) < 0xE000 then 0xFFFD else UnitAt(c, s, k)
  }

  /** Reading a string takes characters up to a zero or the end of the section. */
  lemma {:induction false} ReadStringBytes(c: nat, s: seq<byte>)
    requires 1 <= c <= 2
    ensures var t := ReadString(c, s);
      && (At(c, |t|) < |s| ==> UnitAt(c, s, |t|) == 0)
      && forall k: nat :: k < |t| ==> CharacterAt(c, s, t, k)
    decreases |s|
  {
    if s != [] && Unit(c, s) != 0 {
      var rest := s[Min(c, |s|)..];
      ReadStringBytes(c, rest);
      var t, u := ReadString(c, s), ReadString(c, rest);
      assert t == [Scalar(Unit(c, s))] + u;
      assert CharacterAt(c, s, t, 0);
      hide ReadString, Scalar, CharacterAt;
      forall k: nat | 1 <= k < |t|
        ensures CharacterAt(c, s, t, k)
      {
        ShiftCharacter(c, s, t, u, k);
      }
      if At(c, |u|) < |rest| {
        ShiftUnit(c, s, |t|);
      }
    }
  }

  lemma ShiftUnit(c: nat, s: seq<byte>, k: nat)
    requires 1 <= c <= 2 && k > 0 && s != [] && At(c, k - 1) < |s[Min(c, |s|)..]|
    ensures At(c, k) < |s| && UnitAt(c, s, k) == UnitAt(c, s[Min(c, |s|)..], k - 1)
  {
  }

  lemma ShiftCharacter(c: nat, s: seq<byte>, t: text, u: text, k: nat)
    requires 1 <= c <= 2 && s != [] && 1 <= k < |t| && u == t[1..]
    requires CharacterAt(c, s[Min(c, |s|)..], u, k - 1)
    ensures CharacterAt(c, s, t, k)
  {
    ShiftUnit(c, s, k);
  }

  // ----- A written file

  /** `part` stands at `o`. */
  predicate Stands(data: seq<byte>, o: nat, part: seq<byte>) {
    o + |part| <= |data| && data[o..o + |part|] == part
  }

  lemma StandsWithin(data: seq<byte>, o: nat, a: seq<byte>, b: seq<byte>, c: seq<byte>)
    requires Stands(data, o, a + b + c)
    ensures Stands(data, o, a) && Stands(data, o + |a|, b) && Stands(data, o + |a| + |b|, c)
  {
    var before, behind := data[..o], data[o + |a + b + c|..];
    assert data == before + (a + b + c) + behind;
    assert data == before + a + (b + c + behind);
    assert data == (before + a) + b + (c + behind);
    assert data == (before + a + b) + c + behind;
    StandsBetween(before, a, b + c + behind);
    StandsBetween(before + a, b, c + behind);
    StandsBetween(before + a + b, c, behind);
  }

  lemma StandsBetween(before: seq<byte>, part: seq<byte>, behind: seq<byte>)
    ensures Stands(before + part + behind, |before|, part)
  {
  }

  /** The number `n` stands at `o`, its lowest byte first. */
  predicate Says(data: seq<byte>, o: nat, n: int) {
    o + 4 <= |data| && Number(data, o) == n
  }

  lemma WordSays(data: seq<byte>, o: nat, w: u32)
    requires Stands(data, o, LE32(w))
    ensures Says(data, o, w)
  {
    NumberOfWord(data, o, w);
  }

  predicate ZerosFrom(data: seq<byte>, lo: nat, hi: nat) {
    lo <= hi <= |data| && forall k :: lo <= k < hi ==> data[k] == 0
  }

  /** A chunk at `o`: its tag, the size of its body, the body, and zeros up to the next multiple
      of sixteen. */
  predicate ChunkStands(data: seq<byte>, o: nat, tag: seq<byte>, body: seq<byte>, size: nat) {
    && Stands(data, o, tag) && Says(data, o + 4, |body|) && Stands(data, o + 8, body)
    && size % 16 == 0 && 8 + |body| <= size < 8 + |body| + 16
    && ZerosFrom(data, o + 8 + |body|, o + size)
  }

  lemma PaddedStands(data: seq<byte>, o: nat, tag: seq<byte>, body: seq<byte>)
    requires |tag| == 4 && |body| < 0x1_0000_0000 && Stands(data, o, Padded(Chunk(tag, body)))
    ensures ChunkStands(data, o, tag, body, RoundUp(8 + |body|, 16))
  {
    RoundUp16(8 + |body|);
    var size := RoundUp(8 + |body|, 16);
    var zeros := Zeros(size - 8 - |body|);
    hide LE32, RoundUp;
    assert Padded(Chunk(tag, body)) == tag + LE32(|body|) + (body + zeros);
    StandsWithin(data, o, tag, LE32(|body|), body + zeros);
    assert body + zeros == [] + body + zeros;
    StandsWithin(data, o + 8, [], body, zeros);
    WordSays(data, o + 4, |body|);
    ZerosStand(data, o + 8 + |body|, size - 8 - |body|);
  }

  lemma ZerosStand(data: seq<byte>, o: nat, n: nat)
    requires Stands(data, o, Zeros(n))
    ensures ZerosFrom(data, o, o + n)
  {
    assert forall k :: o <= k < o + n ==> data[k] == data[o..o + n][k - o];
  }

  /** The header: its tag and size, one, and where the two chunks are and how long. */
  predicate HeaderStands(data: seq<byte>, r: nat, n: nat) {
    && Stands(data, 0, [0x4E, 0x49, 0x46, 0x4C]) && Says(data, 0x04, 0x18)
    && Says(data, 0x08, 1) && Says(data, 0x0C, 0x20) && Says(data, 0x10, r)
    && Says(data, 0x14, r + 0x20) && Says(data, 0x18, n) && Says(data, 0x1C, 0)
  }

  predicate EndStands(data: seq<byte>, o: nat) {
    && Stands(data, o, [0x4E, 0x45, 0x4E, 0x44]) && Says(data, o + 4, 8) && Says(data, o + 8, 0)
    && Says(data, o + 12, 0) && |data| == o + 16
  }

  lemma HeaderWritten(data: seq<byte>, r: nat, n: nat)
    requires r + n + 0x40 < 0x1_0000_0000 && Stands(data, 0, Chunk(NIFL, Header(r, n)))
    ensures HeaderStands(data, r, n)
  {
    hide LE32;
    var z: seq<byte> := [];
    assert Chunk(NIFL, Header(r, n))
      == NIFL + LE32(0x18) + (LE32(1) + LE32(0x20) + (LE32(r) + LE32(r + 0x20) + (LE32(n) + LE32(0) + z)));
    StandsWithin(data, 0, NIFL, LE32(0x18), LE32(1) + LE32(0x20) + (LE32(r) + LE32(r + 0x20) + (LE32(n) + LE32(0) + z)));
    StandsWithin(data, 8, LE32(1), LE32(0x20), LE32(r) + LE32(r + 0x20) + (LE32(n) + LE32(0) + z));
    StandsWithin(data, 16, LE32(r), LE32(r + 0x20), LE32(n) + LE32(0) + z);
    StandsWithin(data, 24, LE32(n), LE32(0), z);
    hide Stands;
    WordSays(data, 4, 0x18);
    WordSays(data, 8, 1);
    WordSays(data, 12, 0x20);
    WordSays(data, 16, r);
    WordSays(data, 20, r + 0x20);
    WordSays(data, 24, n);
    WordSays(data, 28, 0);
  }

  lemma EndWritten(data: seq<byte>, o: nat)
    requires Stands(data, o, Chunk(NEND, LE32(0) + LE32(0))) && |data| == o + 16
    ensures EndStands(data, o)
  {
    hide LE32;
    var z: seq<byte> := [];
    assert Chunk(NEND, LE32(0) + LE32(0)) == NEND + LE32(8) + (LE32(0) + LE32(0) + z);
    StandsWithin(data, o, NEND, LE32(8), LE32(0) + LE32(0) + z);
    StandsWithin(data, o + 8, LE32(0), LE32(0), z);
    WordSays(data, o + 4, 8);
    WordSays(data, o + 8, 0);
    WordSays(data, o + 12, 0);
  }

  lemma ContainerStands(rel: seq<byte>, nof: seq<byte>)
    requires RoundUp(|rel| + 8, 16) + RoundUp(|nof| + 8, 16) + 0x40 < 0x1_0000_0000
    requires |rel| < 0x1_0000_0000 && |nof| < 0x1_0000_0000
    ensures var data, r, n := Container(rel, nof), RoundUp(8 + |rel|, 16), RoundUp(8 + |nof|, 16);
      && HeaderStands(data, r, n)
      && ChunkStands(data, 0x20, [0x52, 0x45, 0x4C, 0x30], rel, r)
      && ChunkStands(data, 0x20 + r, [0x4E, 0x4F, 0x46, 0x30], nof, n)
      && EndStands(data, 0x20 + r + n)
  {
    hide *;
    var data, r, n := Container(rel, nof), RoundUp(8 + |rel|, 16), RoundUp(8 + |nof|, 16);
    ContainerParts(rel, nof);
    HeaderWritten(data, r, n);
    PaddedStands(data, 0x20, REL0, rel);
    PaddedStands(data, 0x20 + r, NOF0, nof);
    EndWritten(data, 0x20 + r + n);
  }

  lemma ContainerParts(rel: seq<byte>, nof: seq<byte>)
    requires RoundUp(|rel| + 8, 16) + RoundUp(|nof| + 8, 16) + 0x40 < 0x1_0000_0000
    requires |rel| < 0x1_0000_0000 && |nof| < 0x1_0000_0000
    ensures var data, r, n := Container(rel, nof), RoundUp(8 + |rel|, 16), RoundUp(8 + |nof|, 16);
      && r + n + 0x40 < 0x1_0000_0000 && |data| == 0x20 + r + n + 16
      && Stands(data, 0, Chunk(NIFL, Header(r, n)))
      && Stands(data, 0x20, Padded(Chunk(REL0, rel))) && Stands(data, 0x20 + r, Padded(Chunk(NOF0, nof)))
      && Stands(data, 0x20 + r + n, Chunk(NEND, LE32(0) + LE32(0)))
      && REL0 == [0x52, 0x45, 0x4C, 0x30] && NOF0 == [0x4E, 0x4F, 0x46, 0x30]
  {
    hide *;
    var data, r, n := Container(rel, nof), RoundUp(8 + |rel|, 16), RoundUp(8 + |nof|, 16);
    ContainerIs(rel, nof);
    var head, end := Chunk(NIFL, Header(r, n)), Chunk(NEND, LE32(0) + LE32(0));
    var first, second := Padded(Chunk(REL0, rel)), Padded(Chunk(NOF0, nof));
    assert data == [] + (head + first + (second + end + [])) + [];
    StandsBetween([], head + first + (second + end + []), []);
    StandsWithin(data, 0, head, first, second + end + []);
    StandsWithin(data, 0x20 + r, second, end, []);
  }

  lemma ContainerIs(rel: seq<byte>, nof: seq<byte>)
    requires RoundUp(|rel| + 8, 16) + RoundUp(|nof| + 8, 16) + 0x40 < 0x1_0000_0000
    requires |rel| < 0x1_0000_0000 && |nof| < 0x1_0000_0000
    ensures var r, n := RoundUp(8 + |rel|, 16), RoundUp(8 + |nof|, 16);
      && r + n + 0x40 < 0x1_0000_0000
      && |Chunk(NIFL, Header(r, n))| == 0x20 && |Chunk(NEND, LE32(0) + LE32(0))| == 16
      && |Padded(Chunk(REL0, rel))| == r && |Padded(Chunk(NOF0, nof))| == n
      && Container(rel, nof)
         == Chunk(NIFL, Header(r, n)) + Padded(Chunk(REL0, rel)) + Padded(Chunk(NOF0, nof))
            + Chunk(NEND, LE32(0) + LE32(0))
      && REL0 == [0x52, 0x45, 0x4C, 0x30] && NOF0 == [0x4E, 0x4F, 0x46, 0x30]
      && |NIFL| == |NEND| == 4
  {
    RoundUp16(|rel| + 8);
    RoundUp16(|nof| + 8);
    hide Chunk, Padded, Header, LE32, RoundUp;
  }

  /** A file, byte by byte: the header; the words of the entries behind the offset of the strings;
      the strings; where each entry starts behind a count; the end; and zeros in between, the
      fewest that make each chunk a multiple of sixteen. */
  predicate Laid(data: seq<byte>, words: seq<byte>, strings: seq<byte>, count: nat, offsets: seq<byte>, r: nat, n: nat) {
    && HeaderStands(data, r, n)
    && FirstChunk(data, words, strings, r) && SecondChunk(data, 0x20 + r, count, offsets, n)
    && EndStands(data, 0x20 + r + n)
  }

  predicate FirstChunk(data: seq<byte>, words: seq<byte>, strings: seq<byte>, r: nat) {
    && r % 16 == 0 && r - 16 < 0x10 + |words| + |strings| <= r
    && Stands(data, 0x20, [0x52, 0x45, 0x4C, 0x30]) && Says(data, 0x24, 8 + |words| + |strings|)
    && Says(data, 0x28, 8 + |words|) && Says(data, 0x2C, 0)
    && Stands(data, 0x30, words) && Stands(data, 0x30 + |words|, strings)
    && ZerosFrom(data, 0x30 + |words| + |strings|, 0x20 + r)
  }

  predicate SecondChunk(data: seq<byte>, o: nat, count: nat, offsets: seq<byte>, n: nat) {
    && n % 16 == 0 && n - 16 < 0x0C + |offsets| <= n
    && Stands(data, o, [0x4E, 0x4F, 0x46, 0x30]) && Says(data, o + 4, 4 + |offsets|)
    && Says(data, o + 8, count) && Stands(data, o + 0x0C, offsets)
    && ZerosFrom(data, o + 0x0C + |offsets|, o + n)
  }

  lemma FirstStands(data: seq<byte>, words: seq<byte>, strings: seq<byte>, r: nat)
    requires |words| + 8 < 0x1_0000_0000
    requires ChunkStands(data, 0x20, [0x52, 0x45, 0x4C, 0x30], LE32(|words| + 8) + LE32(0) + words + strings, r)
    ensures FirstChunk(data, words, strings, r)
  {
    var rel := LE32(|words| + 8) + LE32(0) + words + strings;
    hide LE32, Stands, Says, ZerosFrom;
    assert rel == LE32(|words| + 8) + LE32(0) + (words + strings + []);
    StandsWithin(data, 0x28, LE32(|words| + 8), LE32(0), words + strings + []);
    StandsWithin(data, 0x30, words, strings, []);
    WordSays(data, 0x28, |words| + 8);
    WordSays(data, 0x2C, 0);
  }

  lemma SecondStands(data: seq<byte>, o: nat, count: u32, offsets: seq<byte>, n: nat)
    requires ChunkStands(data, o, [0x4E, 0x4F, 0x46, 0x30], LE32(count) + offsets, n)
    ensures SecondChunk(data, o, count, offsets, n)
  {
    hide LE32, Stands, Says, ZerosFrom;
    assert LE32(count) + offsets == LE32(count) + offsets + [];
    StandsWithin(data, o + 8, LE32(count), offsets, []);
    WordSays(data, o + 8, count);
  }

  /** How a written file is laid out, for its entries. */
  lemma FileStands(es: seq<Entry>)
    requires Writable(es)
    ensures var r, n := RoundUp(0x10 + 4 * Count(es, |es|) + |Area(es, |es|)|, 16), RoundUp(0x0C + 4 * |es|, 16);
      Laid(FileBytes(es), Words(AllWords(Relocated(es), |es|)), Area(es, |es|), Wrap32(|es| - 1),
           Words(Offsets(es, |es|)), r, n)
  {
    hide *;
    SizesOf(es);
    var data := FileBytes(es);
    var words, offsets := Words(AllWords(Relocated(es), |es|)), Words(Offsets(es, |es|));
    ContainerStands(Rel0Body(es), Nof0Body(es));
    var r, n := RoundUp(8 + |Rel0Body(es)|, 16), RoundUp(8 + |Nof0Body(es)|, 16);
    FirstStands(data, words, Area(es, |es|), r);
    SecondStands(data, 0x20 + r, Wrap32(|es| - 1), offsets, n);
    PartsAreLaid(data, words, Area(es, |es|), Wrap32(|es| - 1), offsets, r, n);
  }

  lemma PartsAreLaid(data: seq<byte>, words: seq<byte>, strings: seq<byte>, count: nat, offsets: seq<byte>, r: nat,
                     n: nat)
    ensures HeaderStands(data, r, n) && FirstChunk(data, words, strings, r)
      && SecondChunk(data, 0x20 + r, count, offsets, n) && EndStands(data, 0x20 + r + n)
      <==> Laid(data, words, strings, count, offsets, r, n)
    ensures FirstChunk(data, words, strings, r) ==>
      Stands(data, 0x30, words) && Stands(data, 0x30 + |words|, strings)
    ensures SecondChunk(data, 0x20 + r, count, offsets, n) ==> Stands(data, 0x2C + r, offsets)
  {
    hide HeaderStands, EndStands, Stands, Says, ZerosFrom;
  }

  lemma SizesOf(es: seq<Entry>)
    requires Writable(es)
    ensures var rel, nof := Rel0Body(es), Nof0Body(es);
      var words := 4 * Count(es, |es|);
      && |rel| == 8 + words + |Area(es, |es|)| < 0x1_0000_0000 && |nof| == 4 + 4 * |es| < 0x1_0000_0000
      && RoundUp(|rel| + 8, 16) + RoundUp(|nof| + 8, 16) + 0x40 < 0x1_0000_0000
      && words + 8 < 0x1_0000_0000 && |es| == |Relocated(es)|
      && |Words(AllWords(Relocated(es), |es|))| == words && |Words(Offsets(es, |es|))| == 4 * |es|
      && FileBytes(es) == Container(rel, nof)
      && rel == LE32(words + 8) + LE32(0) + Words(AllWords(Relocated(es), |es|)) + Area(es, |es|)
      && nof == LE32(Wrap32(|es| - 1)) + Words(Offsets(es, |es|))
      && |LE32(words + 8)| == |LE32(0)| == |LE32(Wrap32(|es| - 1))| == 4
  {
    TextFile.Bodies(es);
    TextFile.SizesFit(es);
    PartsFit(es);
    hide RoundUp, LE32, Words, AllWords, Relocated, Area, Container, FileBytes, Rel0Body, Nof0Body, Writable;
  }

  /** The words of an entry and the offset that is listed for it, and where its pointer leads. */
  lemma EntryStands(es: seq<Entry>, i: nat)
    requires Writable(es) && i < |es|
    ensures var data, words := FileBytes(es), 4 * Count(es, |es|);
      var r := RoundUp(0x10 + words + |Area(es, |es|)|, 16);
      && (forall j :: 0 <= j < |Relocated(es)[i].value| ==>
        Says(data, 0x30 + 4 * (Count(es, i) + j), Relocated(es)[i].value[j]))
      && Says(data, 0x2C + r + 4 * i, 0x10 + 4 * Count(es, i))
      && (es[i].status != Plain ==>
        && Relocated(es)[i].value[0] == Pointer(es, i)
        && Stands(data, 0x20 + Pointer(es, i), Spelling(es[i].text, es[i].status)))
  {
    hide *;
    FileStands(es);
    SizesOf(es);
    var data, words := FileBytes(es), 4 * Count(es, |es|);
    var r := RoundUp(0x10 + words + |Area(es, |es|)|, 16);
    var rs := Relocated(es);
    PartsAreLaid(data, Words(AllWords(rs, |es|)), Area(es, |es|), Wrap32(|es| - 1), Words(Offsets(es, |es|)), r,
                 RoundUp(0x0C + 4 * |es|, 16));
    RelocatedCounts(es, i);
    forall j | 0 <= j < |rs[i].value|
      ensures Says(data, 0x30 + 4 * (Count(es, i) + j), rs[i].value[j])
    {
      AllWordsAt(rs, |es|, i, j);
      WordInside(data, 0x30, AllWords(rs, |es|), Count(es, i) + j);
    }
    OffsetAt(es, |es|, i);
    OffsetCount(es);
    WordInside(data, 0x2C + r, Offsets(es, |es|), i);
    if es[i].status != Plain {
      PointerStands(data, es, i);
    }
  }

  lemma RelocatedCounts(es: seq<Entry>, i: nat)
    requires Writable(es) && i < |es|
    ensures |Relocated(es)| == |es| && Relocated(es)[i] == RelocatedEntry(es, i)
    ensures Count(Relocated(es), i) == Count(es, i)
  {
    hide Pointer, Writable, Area;
    SameShape(es);
    AreaOfSame(es, Relocated(es), i);
  }

  lemma OffsetCount(es: seq<Entry>)
    requires Writable(es)
    ensures |Offsets(es, |es|)| == |es| && POINTER_BASE == 0x10
  {
  }

  lemma PointerStands(data: seq<byte>, es: seq<Entry>, i: nat)
    requires Writable(es) && i < |es| && es[i].status != Plain
    requires Stands(data, 0x30 + 4 * Count(es, |es|), Area(es, |es|))
    ensures Relocated(es)[i].value != [] && Relocated(es)[i].value[0] == Pointer(es, i)
    ensures Stands(data, 0x20 + Pointer(es, i), Spelling(es[i].text, es[i].status))
  {
    hide *;
    RelocatedShape(es, i);
    RelocatedCounts(es, i);
    PointerCounts(es, i);
    SlotHoldsText(es, i, |es|);
    InsideStands(data, 0x30 + 4 * Count(es, |es|), Area(es, |es|), Slot(es, i), Spelling(es[i].text, es[i].status));
  }

  lemma PointerCounts(es: seq<Entry>, i: nat)
    requires Writable(es) && i < |es| && es[i].status != Plain
    ensures Pointer(es, i) == Slot(es, i) + 4 * Count(es, |es|) + 0x10
  {
    hide Writable, Slot, Count;
  }

  lemma InsideStands(data: seq<byte>, o: nat, part: seq<byte>, k: nat, inner: seq<byte>)
    requires Stands(data, o, part) && k + |inner| <= |part| && part[k..k + |inner|] == inner
    ensures Stands(data, o + k, inner)
  {
    assert part == part[..k] + inner + part[k + |inner|..];
    StandsWithin(data, o, part[..k], inner, part[k + |inner|..]);
  }

  lemma WordInside(data: seq<byte>, o: nat, ws: seq<u32>, k: nat)
    requires Stands(data, o, Words(ws)) && k < |ws|
    ensures Says(data, o + 4 * k, ws[k])
  {
    hide *;
    var m, w := 4 * k, LE32(ws[k]);
    WordsAt(ws, k);
    assert Words(ws)[m..m + |w|] == w;
    InsideStands(data, o, Words(ws), m, w);
    WordSays(data, o + m, ws[k]);
  }

  lemma {:induction false} WordsAt(ws: seq<u32>, k: nat)
    requires k < |ws|
    ensures 4 * k + 4 <= |Words(ws)| && Words(ws)[4 * k..4 * k + 4] == LE32(ws[k])
  {
    hide LE32;
    if k > 0 {
      WordsAt(ws[1..], k - 1);
      assert Words(ws)[4 * k..4 * k + 4] == Words(ws[1..])[4 * (k - 1)..4 * (k - 1) + 4];
    }
  }

  // ----- Which files are read

  /** The `k`-th number of `s`, and zero beyond its end. */
  function Peek(s: seq<byte>, k: nat): nat {
    if 4 * k + 4 <= |s| then Number(s, 4 * k) else 0
  }

  /** A chunk that begins at `o`, whether all of it is there or not. */
  predicate Begins(data: seq<byte>, o: nat, tag: seq<byte>) {
    o + 8 <= |data| && data[o..o + 4] == tag
  }

  /** What there is of its body. */
  function BodyOf(data: seq<byte>, o: nat): seq<byte>
    requires o + 8 <= |data|
  {
    if o + 8 + Number(data, o + 4) <= |data| then data[o + 8..o + 8 + Number(data, o + 4)] else data[o + 8..]
  }

  /** How far apart the offsets of entries `k` and `k + 1` are, as unsigned 32-bit numbers. */
  function Apart(offsets: seq<byte>, k: nat): nat {
    (Peek(offsets, k + 2) - Peek(offsets, k + 1)) % 0x1_0000_0000
  }

  /** Where the chunk behind that at `o` begins. */
  function EndOf(data: seq<byte>, o: nat): nat
    requires o + 8 <= |data|
  {
    o + (Number(data, o + 4) + 23) % 0x1_0000_0000 / 16 * 16
  }

  lemma WordIsPeek(s: seq<byte>, k: nat)
    ensures WordAt(s, k) == Peek(s, k)
  {
    if 4 * k + 4 <= |s| {
      var t := s[4 * k..4 * k + 4];
      assert t[0] == s[4 * k] && t[1] == s[4 * k + 1] && t[2] == s[4 * k + 2] && t[3] == s[4 * k + 3];
    }
  }

  lemma TagIsChunk(data: seq<byte>, o: nat)
    ensures o + 8 <= |data| ==>
      TagAt(data, o).name == data[o..o + 4] && TagAt(data, o).size == Number(data, o + 4)
      && TagAt(data, o).body == BodyOf(data, o)
    ensures o + 8 > |data| ==> TagAt(data, o).name == []
  {
    if o + 8 <= |data| {
      var t := data[o + 4..o + 8];
      assert t[0] == data[o + 4] && t[1] == data[o + 5] && t[2] == data[o + 6] && t[3] == data[o + 7];
    }
  }

  lemma HeaderWord(data: seq<byte>, k: nat)
    requires |data| >= 28 && Number(data, 4) >= 20 && k < 5
    ensures |BodyOf(data, 0)| >= 20 && Peek(BodyOf(data, 0), k) == Number(data, 8 + 4 * k)
  {
    var b := BodyOf(data, 0);
    assert forall j :: 0 <= j < 20 ==> b[j] == data[j + 8];
  }

  /** How reading a file ends, by its bytes, up to where its two chunks are. */
  lemma HeaderDecides(data: seq<byte>)
    ensures var v := VerdictOf(ParseFile(data));
      if |data| < 8 then v == Rejected(Unreadable)
      else if data[..4] != [0x4E, 0x49, 0x46, 0x4C] then v == Rejected(NoNifl)
      else if |data| < 28 || Number(data, 4) < 20 then v == Rejected(Unreadable)
      else if Number(data, 8) != 1 then v == Rejected(BadMagic)
      else if !Begins(data, Number(data, 12), [0x52, 0x45, 0x4C, 0x30]) then v == Rejected(NoRel0)
      else if !Begins(data, Number(data, 20), [0x4E, 0x4F, 0x46, 0x30]) then v == Rejected(NoNof0)
      else
        v == VerdictOf(ParseEntries(data, TagAt(data, Number(data, 12)), TagAt(data, Number(data, 20)),
                                    Number(data, 20)))
  {
    hide TagAt, WordAt, ParseEntries, Peek, Number, Begins, BodyOf;
    TagBegins(data, 0, NIFL);
    if |data| >= 8 {
      HeadLength(data);
    }
    if |data| >= 28 && Number(data, 4) >= 20 {
      HeaderWord(data, 0);
      HeaderWord(data, 1);
      HeaderWord(data, 3);
      WordIsPeek(BodyOf(data, 0), 0);
      WordIsPeek(BodyOf(data, 0), 1);
      WordIsPeek(BodyOf(data, 0), 3);
      TagBegins(data, Number(data, 12), REL0);
      TagBegins(data, Number(data, 20), NOF0);
    }
  }

  lemma TagBegins(data: seq<byte>, o: nat, tag: seq<byte>)
    requires |tag| == 4
    ensures TagAt(data, o).name == tag <==> Begins(data, o, tag)
    ensures o == 0 && |data| >= 8 ==> (TagAt(data, 0).name == tag <==> data[..4] == tag)
  {
    TagIsChunk(data, o);
    hide TagAt;
  }

  lemma HeadLength(data: seq<byte>)
    requires |data| >= 8
    ensures TagAt(data, 0).body == BodyOf(data, 0)
    ensures |BodyOf(data, 0)| >= 20 <==> |data| >= 28 && Number(data, 4) >= 20
  {
    TagIsChunk(data, 0);
    hide TagAt;
  }

  /** And from there on, by the listed offsets and by the end. */
  lemma OffsetsDecide(data: seq<byte>, rel0: Tag, o: u32)
    requires o + 8 <= |data|
    ensures var v := VerdictOf(ParseEntries(data, rel0, TagAt(data, o), o));
      var offsets := BodyOf(data, o);
      if exists k: nat :: k < Peek(offsets, 0) && Apart(offsets, k) % 4 != 0 then v == Rejected(OddSize)
      else if exists k: nat :: k < Peek(offsets, 0) && Apart(offsets, k) == 0 then v == Panicked
      else v == if Begins(data, EndOf(data, o), [0x4E, 0x45, 0x4E, 0x44]) then Accepted else Endless
  {
    hide TagAt, WordAt, ReadEntries, Sizes, Lengths, Peek, Section, Wrap32, Number, Begins, BodyOf, Apart;
    var offsets := BodyOf(data, o);
    TagIsChunk(data, o);
    WordIsPeek(offsets, 0);
    SizesAre(offsets, Peek(offsets, 0));
    EndTag(data, Number(data, o + 4), o);
  }

  lemma SizesAre(offsets: seq<byte>, n: nat)
    ensures forall k: nat :: k < n ==> Sizes(offsets, n)[k] == Apart(offsets, k)
  {
    hide Peek, WordAt;
    forall k: nat | k < n
      ensures Sizes(offsets, n)[k] == Apart(offsets, k)
    {
      WordIsPeek(offsets, k + 1);
      WordIsPeek(offsets, k + 2);
    }
  }

  lemma EndTag(data: seq<byte>, size: nat, o: nat)
    ensures var end := o + (size + 23) % 0x1_0000_0000 / 16 * 16;
      && o + 8 + Wrap32(size + 8 + 0x0f) / 0x10 * 0x10 - 8 == end
      && (TagAt(data, end).name == [0x4E, 0x45, 0x4E, 0x44] <==> Begins(data, end, [0x4E, 0x45, 0x4E, 0x44]))
  {
  }
}
