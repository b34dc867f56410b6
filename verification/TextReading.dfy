/** How a text file is read: chunks found through the header, entries cut by offset
    differences, and a small state machine that pairs identifiers with strings. */
module TextReading {
  import opened Bytes
  import opened TextFormat

  /** At most `size` bytes from `start`, as far as there are any. */
  function Section(data: seq<byte>, start: nat, size: int): seq<byte> {
    if size <= 0 || start >= |data| then [] else data[start..Min(start + size, |data|)]
  }

  /** The `k`-th word of `s`, and zero beyond its end: read errors are not looked at. */
  function WordAt(s: seq<byte>, k: nat): u32 {
    if 4 * k + 4 <= |s| then Word32(s[4 * k..4 * k + 4]) else 0
  }

  datatype Tag = Tag(name: seq<byte>, size: u32, body: seq<byte>)

  /** The chunk at `pos`; a nameless one when its head cannot be read. */
  function TagAt(data: seq<byte>, pos: nat): Tag {
    if pos + 8 <= |data| then
      var size := Word32(data[pos + 4..pos + 8]);
      Tag(data[pos..pos + 4], size, Section(data, pos + 8, size))
    else
      Tag([], 0, [])
  }

  // ----- Strings

  /** A character as it comes to stand in a string: surrogates are replaced. */
  function Scalar(unit: u16): rune {
    if 0xD800 <= unit < 0xE000 then 0xFFFD else unit
  }

  function Unit(charSize: nat, s: seq<byte>): u16
    requires s != []
  {
    s[0] as int + (if charSize == 2 && |s| > 1 then 0x100 * s[1] as int else 0)
  }

  /** The characters of `s` up to a zero or to its end. */
  function ReadString(charSize: nat, s: seq<byte>): text
    requires 1 <= charSize <= 2
    decreases |s|
  {
    if s == [] || Unit(charSize, s) == 0 then []
    else [Scalar(Unit(charSize, s))] + ReadString(charSize, s[Min(charSize, |s|)..])
  }

  // ----- Entries and pairs

  datatype Pending = NoPair | Waiting(identifier: text, index: nat)

  datatype Mode = Mode(pairMode: bool, pending: Pending)

  /** What the first word of an entry does to the mode. */
  function Enter(mode: Mode, word: u32): Mode {
    if word == ALL_ONES then mode.(pairMode := true)
    else if word == END_PAIRS then Mode(false, NoPair)
    else mode
  }

  /** What a text entry does to the mode: in pair mode, an identifier waits for its string. */
  function AfterText(mode: Mode, t: text, index: nat): Mode {
    if mode.pending.Waiting? || !mode.pairMode then mode.(pending := NoPair)
    else mode.(pending := Waiting(t, index))
  }

  function TextStatus(mode: Mode): Status {
    if mode.pending.Waiting? then String else Identifier
  }

  predicate IsText(value: seq<u32>) {
    |value| == 1 && value[0] != ALL_ONES
  }

  datatype Source = Source(words: seq<byte>, strings: seq<byte>, rel0size: u32)

  datatype State = State(entries: seq<Entry>, pairs: seq<Pair>, mode: Mode, pos: nat)

  const INITIAL := State([], [], Mode(false, NoPair), 0)

  function ReadWords(words: seq<byte>, pos: nat, n: nat): (value: seq<u32>)
    ensures |value| == n
  {
    seq<u32>(n, j requires 0 <= j < n => WordAt(words, pos + j))
  }

  /** Reads an entry of `n` words. */
  function ReadEntry(source: Source, st: State, n: nat): State
    requires n > 0
  {
    var value := ReadWords(source.words, st.pos, n);
    var mode := Enter(st.mode, value[0]);
    var index := |st.entries|;
    if IsText(value) then
      var start := Wrap32(value[0] as int - source.rel0size - 8);
      var status := TextStatus(mode);
      var t := ReadString(if status.String? then 2 else 1, Section(source.strings, start, |source.strings|));
      State(st.entries + [Entry(value, t, status)],
            if mode.pending.Waiting? then
              st.pairs + [Pair(mode.pending.identifier, t, mode.pending.index, index)]
            else st.pairs,
            AfterText(mode, t, index), st.pos + n)
    else
      State(st.entries + [Entry(value, [], Plain)], st.pairs, mode, st.pos + n)
  }

  function ReadEntries(source: Source, lengths: seq<nat>, n: nat): (st: State)
    requires n <= |lengths| && forall k :: 0 <= k < n ==> lengths[k] > 0
    ensures |st.entries| == n
  {
    if n == 0 then INITIAL else ReadEntry(source, ReadEntries(source, lengths, n - 1), lengths[n - 1])
  }

  /** The sizes of the entries but the last, as differences of the listed offsets. */
  function Sizes(nof: seq<byte>, n: nat): (sizes: seq<u32>)
    ensures |sizes| == n
  {
    seq(n, k requires 0 <= k < n => Wrap32(WordAt(nof, k + 2) as int - WordAt(nof, k + 1)))
  }

  /** In words, with the two words that are taken for the last entry. */
  function Lengths(sizes: seq<u32>): (lengths: seq<nat>)
    ensures |lengths| == |sizes| + 1
  {
    seq(|sizes|, k requires 0 <= k < |sizes| => sizes[k] as int / 4) + [2]
  }

  // ----- Files

  datatype Problem = Unreadable | NoNifl | BadMagic | NoRel0 | NoNof0 | OddSize

  /** `Parsed`; an error before any entry is read; a missing end after all are; or an index out
      of range, at an entry without words. */
  datatype Result = Parsed(st: State) | Refused(why: Problem) | NoEnd(st: State) | Crashed

  function ParseEntries(data: seq<byte>, rel0: Tag, nof0: Tag, offsetNof0: u32): Result {
    var rel0size := WordAt(rel0.body, 0);
    var source := Source(Section(rel0.body, 8, rel0size as int - 8),
                         Section(rel0.body, rel0size, Wrap32(rel0.size as int - rel0size)),
                         rel0size);
    var sizes := Sizes(nof0.body, WordAt(nof0.body, 0));
    if exists k :: 0 <= k < |sizes| && sizes[k] % 4 != 0 then Refused(OddSize)
    else if exists k :: 0 <= k < |sizes| && sizes[k] == 0 then Crashed
    else
      var lengths := Lengths(sizes);
      var st := ReadEntries(source, lengths, |lengths|);
      var end := offsetNof0 + 8 + Wrap32(nof0.size as int + 8 + 0x0f) / 0x10 * 0x10 - 8;
      if TagAt(data, end).name == NEND then Parsed(st) else NoEnd(st)
  }

  function ParseFile(data: seq<byte>): Result {
    var nifl := TagAt(data, 0);
    if |data| < 8 then Refused(Unreadable)
    else if nifl.name != NIFL then Refused(NoNifl)
    else if |nifl.body| < 20 then Refused(Unreadable)
    else if WordAt(nifl.body, 0) != 1 then Refused(BadMagic)
    else
      var rel0 := TagAt(data, WordAt(nifl.body, 1));
      if rel0.name != REL0 then Refused(NoRel0)
      else
        var offsetNof0 := WordAt(nifl.body, 3);
        var nof0 := TagAt(data, offsetNof0);
        if nof0.name != NOF0 then Refused(NoNof0)
        else ParseEntries(data, rel0, nof0, offsetNof0)
  }

  /** The result without what was read. */
  datatype Verdict = Accepted | Rejected(why: Problem) | Endless | Panicked

  function VerdictOf(r: Result): Verdict {
    match r
    case Parsed(_) => Accepted
    case Refused(why) => Rejected(why)
    case NoEnd(_) => Endless
    case Crashed => Panicked
  }
}
