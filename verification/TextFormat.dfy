/** NIFL text files: entries, the strings they point to, and the bytes of a file. */
module TextFormat {
  import opened Bytes

  /** A Unicode scalar value, as it occurs in a valid string. */
  type rune = r: int | 0 <= r < 0x11_0000 && !(0xD800 <= r < 0xE000)
  type text = seq<rune>

  datatype Status = Plain | String | Identifier

  /** An entry: its words, and what a one-word entry points to. */
  datatype Entry = Entry(value: seq<u32>, text: text, status: Status)

  datatype Pair = Pair(identifier: text, str: text, identifierIndex: nat, stringIndex: nat)

  const ALL_ONES: u32 := 0xffff_ffff  // starts pairing
  const END_PAIRS: u32 := 0x14        // ends it

  // ----- Strings as bytes

  function Utf8(r: rune): (s: seq<byte>)
    ensures 1 <= |s| <= 4
    ensures r < 0x80 ==> s == [r]
  {
    var tail := 0x80 + r % 0x40;
    if r < 0x80 then [r]
    else if r < 0x800 then [0xC0 + r / 0x40, tail]
    else if r < 0x1_0000 then [0xE0 + r / 0x1000, 0x80 + r / 0x40 % 0x40, tail]
    else [0xF0 + r / 0x4_0000, 0x80 + r / 0x1000 % 0x40, 0x80 + r / 0x40 % 0x40, tail]
  }

  function Utf8All(t: text): seq<byte> {
    if t == [] then [] else Utf8(t[0]) + Utf8All(t[1..])
  }

  /** Sixteen bits for every rune; the rest of a rune beyond the BMP is lost. */
  function Utf16All(t: text): (s: seq<byte>)
    ensures |s| == 2 * |t|
  {
    if t == [] then [] else LE16(t[0] as int % 0x1_0000) + Utf16All(t[1..])
  }

  function RoundUp(n: nat, unit: nat): (r: nat)
    requires unit > 0
  {
    (n + unit - 1) / unit * unit
  }

  lemma RoundUp4(n: nat)
    ensures n <= RoundUp(n, 4) < n + 4 && RoundUp(n, 4) % 4 == 0
  {
  }

  lemma RoundUp16(n: nat)
    ensures n <= RoundUp(n, 16) < n + 16 && RoundUp(n, 16) % 16 == 0
  {
  }

  /** The bytes of an entry's text with its terminator, in its own character width. */
  function Characters(t: text, status: Status): (s: seq<byte>)
  {
    if status.String? then Utf16All(t) + [0, 0] else Utf8All(t) + [0]
  }

  /** The same, padded to a multiple of four bytes. */
  function Spelling(t: text, status: Status): (s: seq<byte>)
    ensures |s| % 4 == 0
    ensures Characters(t, status) <= s
  {
    var s := Characters(t, status);
    RoundUp4(|s|);
    s + Zeros(RoundUp(|s|, 4) - |s|)
  }

  // ----- The string area

  /** The last entry before `n` that points to `t`, or -1. */
  function Latest(es: seq<Entry>, n: nat, t: text): (j: int)
    requires n <= |es|
    ensures -1 <= j < n
    ensures j >= 0 ==> es[j].status != Plain && es[j].text == t
  {
    if n == 0 then -1
    else if es[n - 1].status != Plain && es[n - 1].text == t then n - 1
    else Latest(es, n - 1, t)
  }

  /** Entry `i` gets a string of its own, unless the last entry before it with the same text
      has the same status. */
  predicate Fresh(es: seq<Entry>, i: nat)
    requires i < |es|
  {
    && es[i].status != Plain
    && var j := Latest(es, i, es[i].text);
      j < 0 || es[j].status != es[i].status
  }

  /** The strings of the first `n` entries. */
  function Area(es: seq<Entry>, n: nat): (s: seq<byte>)
    requires n <= |es|
    ensures |s| % 4 == 0
  {
    if n == 0 then []
    else if Fresh(es, n - 1) then Area(es, n - 1) + Spelling(es[n - 1].text, es[n - 1].status)
    else Area(es, n - 1)
  }

  /** Where in the area the text of entry `i` lies. */
  function Slot(es: seq<Entry>, i: nat): (k: nat)
    requires i < |es| && es[i].status != Plain
    decreases i
  {
    if Fresh(es, i) then |Area(es, i)| else Slot(es, Latest(es, i, es[i].text))
  }

  // ----- The file

  function Words(ws: seq<u32>): (s: seq<byte>)
    ensures |s| == 4 * |ws|
  {
    if ws == [] then [] else LE32(ws[0]) + Words(ws[1..])
  }

  /** How many words the first `n` entries have. */
  function Count(es: seq<Entry>, n: nat): nat
    requires n <= |es|
  {
    if n == 0 then 0 else Count(es, n - 1) + |es[n - 1].value|
  }

  /** The words of the first `n` entries. */
  function AllWords(es: seq<Entry>, n: nat): (ws: seq<u32>)
    requires n <= |es|
    ensures |ws| == Count(es, n)
  {
    if n == 0 then [] else AllWords(es, n - 1) + es[n - 1].value
  }

  /** Writing replaces the word of every text entry by a pointer to its text. */
  function Relocate(e: Entry, pointer: nat): Entry
    requires e.value != [] && pointer < 0x1_0000_0000
  {
    e.(value := e.value[0 := pointer])
  }

  const POINTER_BASE := 0x10  // pointers count from the start of the REL0 chunk

  function EntryBytes(es: seq<Entry>): nat {
    4 * Count(es, |es|)
  }

  function Rel0Size(es: seq<Entry>): nat {
    EntryBytes(es) + |Area(es, |es|)| + 0x10
  }

  function Nof0Size(es: seq<Entry>): nat {
    4 * (|es| + 1) + 8
  }

  /** What `Write` needs: a word to overwrite in every text entry, and sizes of 32 bits. */
  ghost predicate Writable(es: seq<Entry>) {
    && (forall i :: 0 <= i < |es| && es[i].status != Plain ==> es[i].value != [])
    && RoundUp(Rel0Size(es), 16) + RoundUp(Nof0Size(es), 16) + 0x40 < 0x1_0000_0000
  }

  function Chunk(tag: seq<byte>, body: seq<byte>): (s: seq<byte>)
    requires |tag| == 4 && |body| < 0x1_0000_0000
    ensures |s| == 8 + |body|
  {
    tag + LE32(|body|) + body
  }

  function Padded(s: seq<byte>): (p: seq<byte>)
    ensures |p| == RoundUp(|s|, 16) && s <= p
  {
    RoundUp16(|s|);
    s + Zeros(RoundUp(|s|, 16) - |s|)
  }

  const NIFL: seq<byte> := [0x4E, 0x49, 0x46, 0x4C]
  const REL0: seq<byte> := [0x52, 0x45, 0x4C, 0x30]
  const NOF0: seq<byte> := [0x4E, 0x4F, 0x46, 0x30]
  const NEND: seq<byte> := [0x4E, 0x45, 0x4E, 0x44]

  /** The container: a header that says where the two chunks are, the chunks, and an end. */
  function Container(rel: seq<byte>, nof: seq<byte>): (s: seq<byte>)
    requires RoundUp(|rel| + 8, 16) + RoundUp(|nof| + 8, 16) + 0x40 < 0x1_0000_0000
  {
    RoundUp16(|rel| + 8);
    RoundUp16(|nof| + 8);
    var r := Padded(Chunk(REL0, rel));
    var n := Padded(Chunk(NOF0, nof));
    Chunk(NIFL, Header(|r|, |n|)) + r + n + Chunk(NEND, LE32(0) + LE32(0))
  }

  function Header(r: nat, n: nat): (s: seq<byte>)
    requires r + n + 0x40 < 0x1_0000_0000
    ensures |s| == 0x18
  {
    LE32(1) + LE32(0x20) + LE32(r) + LE32(r + 0x20) + LE32(n) + LE32(0)
  }
}
