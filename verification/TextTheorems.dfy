/** The laws of text files: reading back what was written, editing, and canonical output. */
module TextTheorems {
  import opened Bytes
  import opened TextFormat
  import opened TextArea
  import opened TextFiles
  import opened TextReading
  import opened TextRoundTrip
  import opened TextPairing

  function SourceOf(es: seq<Entry>): Source
    requires Writable(es)
  {
    RoundUp16(Rel0Size(es));
    Source(Words(AllWords(Relocated(es), |es|)), Area(es, |es|), EntryBytes(es) + 8)
  }

  /** What reading has to arrive at after `n` entries. */
  ghost function Expected(es: seq<Entry>, n: nat): State
    requires Writable(es) && WellFormed(es) && n <= |es|
  {
    State(Relocated(es)[..n], PairsOf(es, n), Track(es, n), Count(es, n))
  }

  lemma {:induction false} AllWordsAt(es: seq<Entry>, n: nat, i: nat, j: nat)
    requires i < n <= |es| && j < |es[i].value|
    ensures Count(es, i) + j < Count(es, n)
    ensures AllWords(es, n)[Count(es, i) + j] == es[i].value[j]
    decreases n
  {
    if i < n - 1 {
      AllWordsAt(es, n - 1, i, j);
    }
  }

  /** The words of an entry are read where they were emitted. */
  lemma ValueRead(es: seq<Entry>, i: nat)
    requires i < |es|
    ensures ReadWords(Words(AllWords(es, |es|)), Count(es, i), |es[i].value|) == es[i].value
  {
    hide Words, WordAt, AllWords;
    forall j | 0 <= j < |es[i].value|
      ensures WordAt(Words(AllWords(es, |es|)), Count(es, i) + j) == es[i].value[j]
    {
      AllWordsAt(es, |es|, i, j);
      WordsRead(AllWords(es, |es|), Count(es, i) + j);
    }
  }

  /** The pointer of a text entry leads to its text, which reads back if its width can hold it. */
  lemma PointerRead(es: seq<Entry>, i: nat)
    requires Writable(es) && i < |es| && es[i].status != Plain
    ensures var area := Area(es, |es|);
      var start := Wrap32(Pointer(es, i) - (EntryBytes(es) + 8) - 8);
      (ReadString(CharSize(es[i].status), Section(area, start, |area|)) == es[i].text
       <==> Readable(es[i].text, es[i].status))
  {
    hide *;
    SlotHoldsText(es, i, |es|);
    PointerOffset(es, i);
    SpellingNonEmpty(es[i].text, es[i].status);
    var area := Area(es, |es|);
    var k := Slot(es, i);
    var s := Spelling(es[i].text, es[i].status);
    SectionToEnd(area, k);
    assert area[k..] == s + area[k + |s|..];
    StringRoundTrip(es[i].text, es[i].status, area[k + |s|..]);
  }

  lemma SectionToEnd(data: seq<byte>, start: nat)
    requires start < |data|
    ensures Section(data, start, |data|) == data[start..]
  {
  }

  lemma PointerOffset(es: seq<Entry>, i: nat)
    requires Writable(es) && i < |es| && es[i].status != Plain
    ensures Wrap32(Pointer(es, i) - (EntryBytes(es) + 8) - 8) == Slot(es, i)
  {
    assert Pointer(es, i) == Slot(es, i) + EntryBytes(es) + POINTER_BASE;
    hide Writable, Slot, EntryBytes;
  }

  lemma SpellingNonEmpty(t: text, status: Status)
    ensures |Spelling(t, status)| > 0
  {
  }

  /** Reading an entry that is plain. */
  lemma ReadPlain(source: Source, st: State, value: seq<u32>)
    requires value != [] && !IsText(value) && ReadWords(source.words, st.pos, |value|) == value
    ensures ReadEntry(source, st, |value|)
      == State(st.entries + [Entry(value, [], Plain)], st.pairs, Enter(st.mode, value[0]), st.pos + |value|)
  {
  }

  /** Reading an entry that points to a text. */
  lemma ReadText(source: Source, st: State, p: u32, t: text, status: Status)
    requires p != ALL_ONES && p != END_PAIRS && ReadWords(source.words, st.pos, 1) == [p]
    requires status == TextStatus(st.mode)
    requires var start := Wrap32(p as int - source.rel0size - 8);
      ReadString(CharSize(status), Section(source.strings, start, |source.strings|)) == t
    ensures ReadEntry(source, st, 1)
      == State(st.entries + [Entry([p], t, status)],
               if st.mode.pending.Waiting? then
                 st.pairs + [Pair(st.mode.pending.identifier, t, st.mode.pending.index, |st.entries|)]
               else st.pairs,
               AfterText(st.mode, t, |st.entries|), st.pos + 1)
  {
    hide ReadString, Section, ReadWords;
  }

  /** One more relocated entry. */
  lemma ExpectedStep(es: seq<Entry>, i: nat)
    requires Writable(es) && WellFormed(es) && i < |es|
    ensures var st := Expected(es, i);
      var next := Expected(es, i + 1);
      && |st.entries| == i && st.pos == Count(es, i) && st.mode == Track(es, i)
      && next.entries == st.entries + [RelocatedEntry(es, i)]
      && next.pos == st.pos + |es[i].value|
      && next.mode == AfterEntry(st.mode, es[i], i) && next.pairs == WithPair(st.pairs, st.mode, es[i], i)
  {
    hide Writable, WellFormed, RelocatedEntry, AfterEntry, WithPair;
    var rs := Relocated(es);
    assert rs[..i + 1] == rs[..i] + [rs[i]];
  }

  /** The words of an entry are read as writing left them. */
  lemma RelocatedRead(es: seq<Entry>, i: nat)
    requires Writable(es) && i < |es|
    ensures ReadWords(SourceOf(es).words, Count(es, i), |es[i].value|) == RelocatedEntry(es, i).value
  {
    hide Writable, ReadWords, Words, AllWords, Area, Pointer;
    var rs := Relocated(es);
    SameShape(es);
    AreaOfSame(es, rs, i);
    ValueRead(rs, i);
  }

  lemma SameShape(es: seq<Entry>)
    requires Writable(es)
    ensures SameTexts(es, Relocated(es))
  {
    hide Pointer;
  }

  /** A plain entry is read as it was written. */
  lemma PlainStep(es: seq<Entry>, i: nat)
    requires Writable(es) && WellFormed(es) && i < |es| && es[i].status == Plain
    ensures ReadEntry(SourceOf(es), Expected(es, i), |es[i].value|) == Expected(es, i + 1)
  {
    assert EntryFits(es[i], Track(es, i));
    assert RelocatedEntry(es, i) == Entry(es[i].value, [], Plain);
    hide Writable, WellFormed, ReadEntry, SourceOf, Expected, RelocatedEntry, ReadWords;
    ExpectedStep(es, i);
    RelocatedRead(es, i);
    ReadPlain(SourceOf(es), Expected(es, i), es[i].value);
  }

  /** What a text entry is before and after writing. */
  lemma TextShape(es: seq<Entry>, i: nat)
    requires Writable(es) && WellFormed(es) && i < |es| && es[i].status != Plain
    ensures RelocatedEntry(es, i) == Entry([Pointer(es, i)], es[i].text, es[i].status)
    ensures |es[i].value| == 1 && Readable(es[i].text, es[i].status) && |es[|es| - 1].value| == 2
    ensures es[i].status == TextStatus(Track(es, i))
    ensures SourceOf(es).rel0size == EntryBytes(es) + 8 && SourceOf(es).strings == Area(es, |es|)
  {
    assert EntryFits(es[i], Track(es, i));
    hide Writable, Pointer, Readable, Track;
  }

  /** So is a text entry, with the status, the text and the pair it had. */
  lemma TextStep(es: seq<Entry>, i: nat)
    requires Writable(es) && WellFormed(es) && i < |es| && es[i].status != Plain
    ensures ReadEntry(SourceOf(es), Expected(es, i), |es[i].value|) == Expected(es, i + 1)
  {
    hide Writable, WellFormed, ReadEntry, SourceOf, Expected, RelocatedEntry, ReadWords, ReadString, Section, Area,
      Pointer, Wrap32, Readable, Track, PairsOf, TextStatus, AfterText, Count;
    TextShape(es, i);
    PointerIsNoMark(es, i);
    PointerRead(es, i);
    ExpectedStep(es, i);
    RelocatedRead(es, i);
    ReadText(SourceOf(es), Expected(es, i), Pointer(es, i), es[i].text, es[i].status);
  }

  /** A pointer is never one of the two words that switch the pairing. */
  lemma PointerIsNoMark(es: seq<Entry>, i: nat)
    requires Writable(es) && i < |es| && es[i].status != Plain && |es[|es| - 1].value| == 2
    ensures Pointer(es, i) != ALL_ONES && Pointer(es, i) != END_PAIRS
  {
    hide Writable;
    assert Count(es, |es|) >= 2;
  }

  lemma {:induction false} EntriesRead(es: seq<Entry>, n: nat)
    requires Writable(es) && WellFormed(es) && n <= |es|
    requires forall k :: 0 <= k < |es| ==> ValueLengths(es)[k] > 0
    ensures ReadEntries(SourceOf(es), ValueLengths(es), n) == Expected(es, n)
  {
    hide Writable, ReadEntry, SourceOf, WellFormed;
    if n > 0 {
      EntriesRead(es, n - 1);
      hide Expected;
      if es[n - 1].status == Plain {
        PlainStep(es, n - 1);
      } else {
        TextStep(es, n - 1);
      }
    } else {
      assert Relocated(es)[..0] == [];
    }
  }

  /** The chunks of a container are found through its header. */
  lemma ContainerParse(rel: seq<byte>, nof: seq<byte>)
    requires RoundUp(|rel| + 8, 16) + RoundUp(|nof| + 8, 16) + 0x40 < 0x1_0000_0000
    ensures var r, n := RoundUp(|rel| + 8, 16), RoundUp(|nof| + 8, 16);
      && |rel| + 8 <= r && |nof| + 8 <= n
      && ParseFile(Container(rel, nof))
        == ParseEntries(Container(rel, nof), Tag(REL0, |rel|, rel), Tag(NOF0, |nof|, nof), r + 0x20)
      && TagAt(Container(rel, nof), r + 0x20 + n).name == NEND
  {
    hide Header, TagAt, RoundUp, Container, WordAt, ParseEntries;
    ContainerRead(rel, nof);
    HeaderWords(RoundUp(|rel| + 8, 16), RoundUp(|nof| + 8, 16));
  }

  lemma QuadruplesAreSizes(sizes: seq<u32>, lengths: seq<nat>)
    requires |sizes| <= |lengths| && forall k :: 0 <= k < |sizes| ==> sizes[k] == 4 * lengths[k] && lengths[k] > 0
    ensures !exists k :: 0 <= k < |sizes| && sizes[k] % 4 != 0
    ensures !exists k :: 0 <= k < |sizes| && sizes[k] == 0
  {
  }

  /** Chunks that hold what `source` and `lengths` say are read entry by entry. */
  lemma ChunksParse(data: seq<byte>, rel: seq<byte>, nof: seq<byte>, offset: u32, source: Source, lengths: seq<nat>)
    requires |rel| < 0x1_0000_0000 && |nof| + 8 + 0x0f < 0x1_0000_0000
    requires source.rel0size == WordAt(rel, 0)
    requires source.words == Section(rel, 8, source.rel0size as int - 8)
    requires source.strings == Section(rel, source.rel0size, Wrap32(|rel| - source.rel0size))
    requires forall k :: 0 <= k < |lengths| ==> lengths[k] > 0
    requires var sizes := Sizes(nof, WordAt(nof, 0));
      Lengths(sizes) == lengths && forall k :: 0 <= k < |sizes| ==> sizes[k] == 4 * lengths[k]
    requires TagAt(data, offset + (|nof| + 8 + 0x0f) / 0x10 * 0x10).name == NEND
    ensures ParseEntries(data, Tag(REL0, |rel|, rel), Tag(NOF0, |nof|, nof), offset)
      == Parsed(ReadEntries(source, lengths, |lengths|))
  {
    hide *;
    var sizes := Sizes(nof, WordAt(nof, 0));
    QuadruplesAreSizes(sizes, lengths);
    ChunkEnd(|nof|, offset);
    EntriesParse(data, Tag(REL0, |rel|, rel), Tag(NOF0, |nof|, nof), offset, source, sizes,
                 offset + 8 + Wrap32(|nof| + 8 + 0x0f) / 0x10 * 0x10 - 8);
  }

  lemma ChunkEnd(size: nat, offset: nat)
    requires size + 8 + 0x0f < 0x1_0000_0000
    ensures offset + 8 + Wrap32(size + 8 + 0x0f) / 0x10 * 0x10 - 8 == offset + (size + 8 + 0x0f) / 0x10 * 0x10 >= 0
  {
    assert Wrap32(size + 8 + 0x0f) == size + 8 + 0x0f;
  }

  lemma EntriesParse(data: seq<byte>, rel0: Tag, nof0: Tag, offset: u32, source: Source, sizes: seq<u32>, end: nat)
    requires var rel0size := WordAt(rel0.body, 0);
      source == Source(Section(rel0.body, 8, rel0size as int - 8),
                       Section(rel0.body, rel0size, Wrap32(rel0.size as int - rel0size)), rel0size)
    requires sizes == Sizes(nof0.body, WordAt(nof0.body, 0))
    requires !exists k :: 0 <= k < |sizes| && sizes[k] % 4 != 0
    requires !exists k :: 0 <= k < |sizes| && sizes[k] == 0
    requires end == offset + 8 + Wrap32(nof0.size as int + 8 + 0x0f) / 0x10 * 0x10 - 8
    requires TagAt(data, end).name == NEND
    requires forall k :: 0 <= k < |sizes| + 1 ==> Lengths(sizes)[k] > 0
    ensures ParseEntries(data, rel0, nof0, offset) == Parsed(ReadEntries(source, Lengths(sizes), |sizes| + 1))
  {
    hide WordAt, Section, ReadEntries, TagAt, Lengths, Sizes, Wrap32;
  }

  /** A written file is read entry by entry. */
  lemma WrittenParses(es: seq<Entry>)
    requires Writable(es) && es != [] && |es[|es| - 1].value| == 2
    requires forall k :: 0 <= k < |es| ==> es[k].value != []
    ensures forall k :: 0 <= k < |es| ==> ValueLengths(es)[k] == |es[k].value| > 0
    ensures ParseFile(FileBytes(es)) == Parsed(ReadEntries(SourceOf(es), ValueLengths(es), |es|))
  {
    hide *;
    TextFile.Bodies(es);
    TextFile.SizesFit(es);
    SourceRead(es);
    SourceAndLengths(es);
    CountRead(es);
    LengthsRead(es);
    var rel, nof := Rel0Body(es), Nof0Body(es);
    ContainerParse(rel, nof);
    ChunksParse(FileBytes(es), rel, nof, RoundUp(|rel| + 8, 16) + 0x20, SourceOf(es), ValueLengths(es));
  }

  lemma SourceAndLengths(es: seq<Entry>)
    requires Writable(es) && forall k :: 0 <= k < |es| ==> es[k].value != []
    ensures SourceOf(es) == Source(Words(AllWords(Relocated(es), |es|)), Area(es, |es|), EntryBytes(es) + 8)
    ensures forall k :: 0 <= k < |es| ==> ValueLengths(es)[k] == |es[k].value| > 0
  {
    hide Writable;
  }

  /** Reading a written file gives back its entries, with the words that writing left in
      them, and its pairs. */
  lemma FileRoundTrip(es: seq<Entry>)
    requires Writable(es) && WellFormed(es)
    ensures ParseFile(FileBytes(es)) == Parsed(Expected(es, |es|))
  {
    hide Writable, EntryFits, ParseFile, FileBytes, SourceOf, ReadEntries, Expected;
    EntriesHaveWords(es);
    WrittenParses(es);
    EntriesRead(es, |es|);
  }

  // ----- Canonical output

  lemma {:induction false} OffsetsOfSame(es: seq<Entry>, fs: seq<Entry>, n: nat)
    requires Writable(es) && Writable(fs) && SameTexts(es, fs) && n <= |es|
    ensures Offsets(es, n) == Offsets(fs, n)
  {
    hide Writable;
    if n > 0 {
      OffsetsOfSame(es, fs, n - 1);
      AreaOfSame(es, fs, n - 1);
    }
  }

  /** Writing what was read back gives the same bytes again, and leaves the entries alone. */
  lemma OutputIsCanonical(es: seq<Entry>)
    requires Writable(es) && WellFormed(es)
    ensures Writable(Relocated(es)) && WellFormed(Relocated(es))
    ensures ReadBack(FileBytes(es)) == Relocated(es) == Relocated(Relocated(es))
    ensures FileBytes(Relocated(es)) == FileBytes(es)
  {
    hide Writable, WellFormed, ParseFile, FileBytes, Relocated, RelocatedEntry;
    FileRoundTrip(es);
    RelocatedTwice(es);
    RelocatedIsWellFormed(es);
    SameBytes(es);
  }

  /** The entries that a file reads as. */
  function ReadBack(data: seq<byte>): seq<Entry> {
    var r := ParseFile(data);
    if r.Parsed? then r.st.entries else []
  }

  lemma SameBytes(es: seq<Entry>)
    requires Writable(es) && Writable(Relocated(es)) && Relocated(Relocated(es)) == Relocated(es)
    ensures FileBytes(Relocated(es)) == FileBytes(es)
  {
    hide Writable, Container, LE32, Words, AllWords, Relocated, SameTexts;
    var rs := Relocated(es);
    SameShape(es);
    AreaOfSame(es, rs, |es|);
    OffsetsOfSame(es, rs, |es|);
    assert Rel0Body(rs) == Rel0Body(es);
    assert Nof0Body(rs) == Nof0Body(es);
  }

  // ----- Editing

  /** `fs` is `es` with the text of any of its strings replaced. */
  ghost predicate Edited(es: seq<Entry>, fs: seq<Entry>) {
    && |es| == |fs|
    && forall i :: 0 <= i < |es| ==>
      if es[i].status.String? then fs[i] == es[i].(text := fs[i].text) && DoubleByte(fs[i].text)
      else fs[i] == es[i]
  }

  /** The pair with the string that its entry now has. */
  function Refreshed(ps: seq<Pair>, fs: seq<Entry>): seq<Pair>
    requires Below(ps, |fs|)
  {
    if ps == [] then []
    else
      var last := ps[|ps| - 1];
      Refreshed(ps[..|ps| - 1], fs) + [last.(str := fs[last.stringIndex].text)]
  }

  /** Edits leave the words, and the text of a string does not matter to the mode. */
  lemma EditKeepsMode(es: seq<Entry>, fs: seq<Entry>, i: nat)
    requires WellFormed(es) && Edited(es, fs) && i < |es|
    ensures |fs| == |es| && fs[i].status == es[i].status && fs[i].value == es[i].value
    ensures AfterEntry(Track(es, i), fs[i], i) == AfterEntry(Track(es, i), es[i], i)
    ensures es[i].status != Plain && Track(es, i).pending.Waiting? ==> es[i].status == String
    ensures !es[i].status.String? ==> fs[i].text == es[i].text
  {
    assert EntryFits(es[i], Track(es, i));
    hide Readable, Track;
  }

  lemma {:induction false} EditKeepsTrack(es: seq<Entry>, fs: seq<Entry>, n: nat)
    requires WellFormed(es) && Edited(es, fs) && n <= |es| == |fs|
    ensures Track(fs, n) == Track(es, n)
  {
    hide WellFormed, Edited, AfterEntry;
    if n > 0 {
      EditKeepsTrack(es, fs, n - 1);
      EditKeepsMode(es, fs, n - 1);
    }
  }

  /** Pairs of strings among the first `n` entries. */
  predicate Below(ps: seq<Pair>, n: nat) {
    forall k :: 0 <= k < |ps| ==> ps[k].stringIndex < n
  }

  /** Refreshing pairs one at a time. */
  lemma RefreshedAppend(ps: seq<Pair>, p: Pair, fs: seq<Entry>)
    requires Below(ps, |fs|) && p.stringIndex < |fs|
    ensures Refreshed(ps + [p], fs) == Refreshed(ps, fs) + [p.(str := fs[p.stringIndex].text)]
  {
    assert (ps + [p])[..|ps|] == ps;
  }

  /** One more pair of the edited file, refreshed. */
  lemma EditKeepsPair(es: seq<Entry>, fs: seq<Entry>, n: nat)
    requires WellFormed(es) && Edited(es, fs) && n < |es| == |fs|
    requires Below(PairsOf(es, n), n) && PairsOf(fs, n) == Refreshed(PairsOf(es, n), fs)
    ensures Below(PairsOf(es, n + 1), n + 1) && PairsOf(fs, n + 1) == Refreshed(PairsOf(es, n + 1), fs)
  {
    hide WellFormed, Edited, Track, Refreshed;
    EditKeepsTrack(es, fs, n);
    EditKeepsMode(es, fs, n);
    var pending := Track(es, n).pending;
    if es[n].status != Plain && pending.Waiting? {
      RefreshedAppend(PairsOf(es, n), Pair(pending.identifier, es[n].text, pending.index, n), fs);
    }
  }

  lemma {:induction false} EditKeepsPairing(es: seq<Entry>, fs: seq<Entry>, n: nat)
    requires WellFormed(es) && Edited(es, fs) && n <= |es| == |fs|
    ensures Below(PairsOf(es, n), n)
    ensures PairsOf(fs, n) == Refreshed(PairsOf(es, n), fs)
  {
    hide *;
    if n > 0 {
      EditKeepsPairing(es, fs, n - 1);
      BelowMore(PairsOf(es, n - 1), n - 1, |fs|);
      EditKeepsPair(es, fs, n - 1);
      BelowMore(PairsOf(es, n), n, |fs|);
    } else {
      NoPairs(es, fs);
    }
  }

  lemma NoPairs(es: seq<Entry>, fs: seq<Entry>)
    ensures PairsOf(es, 0) == PairsOf(fs, 0) == [] && Below([], 0) && Refreshed([], fs) == []
  {
  }

  lemma BelowMore(ps: seq<Pair>, m: nat, n: nat)
    requires Below(ps, m) && m <= n
    ensures Below(ps, n)
  {
  }

  lemma EditedFits(e: Entry, f: Entry, mode: Mode)
    requires EntryFits(e, mode)
    requires if e.status.String? then f == e.(text := f.text) && DoubleByte(f.text) else f == e
    ensures EntryFits(f, mode)
  {
  }

  lemma EditIsWellFormed(es: seq<Entry>, fs: seq<Entry>)
    requires WellFormed(es) && Edited(es, fs)
    ensures WellFormed(fs)
  {
    hide EntryFits, Track;
    assert |fs[|es| - 1].value| == 2;
    forall i | 0 <= i < |es|
      ensures EntryFits(fs[i], Track(fs, i))
    {
      EditKeepsTrack(es, fs, i);
      EditedFits(es[i], fs[i], Track(es, i));
    }
  }

  /** Replacing the text of any strings, writing and reading changes just those strings: every
      pair keeps its identifier and its place, even if strings were shared before. */
  lemma EditIsLocal(es: seq<Entry>, fs: seq<Entry>)
    requires WellFormed(es) && Edited(es, fs) && Writable(fs)
    ensures WellFormed(fs)
    ensures Below(PairsOf(es, |es|), |fs|)
    ensures var r := ParseFile(FileBytes(fs));
      && r.Parsed?
      && r.st.pairs == Refreshed(PairsOf(es, |es|), fs)
      && |r.st.entries| == |es|
      && forall i :: 0 <= i < |es| ==>
        && r.st.entries[i].status == es[i].status
        && r.st.entries[i].text == (if es[i].status.String? then fs[i].text else es[i].text)
        && (es[i].status.Plain? ==> r.st.entries[i] == es[i])
  {
    hide Writable, Track, PairsOf, Refreshed, EntryFits, Pointer, ParseFile, FileBytes;
    EditIsWellFormed(es, fs);
    EditKeepsPairing(es, fs, |es|);
    FileRoundTrip(fs);
  }

  // ----- What reading produces

  /** No text of the first `n` entries has a word that ends the pairing, nor an identifier a
      character that is written in two bytes. */
  ghost predicate Rewritable(es: seq<Entry>, n: nat)
    requires n <= |es|
  {
    forall i :: 0 <= i < n && es[i].status != Plain ==>
      es[i].value != [END_PAIRS] && (es[i].status.Identifier? ==> SingleByte(es[i].text))
  }

  /** A state of the reader in which the entries are as reading would assign them. */
  ghost predicate Sound(st: State) {
    && st.mode == Track(st.entries, |st.entries|)
    && st.pairs == PairsOf(st.entries, |st.entries|)
    && forall i :: 0 <= i < |st.entries| ==> EntryFits(st.entries[i], Track(st.entries, i))
  }

  lemma {:induction false} PrefixTrack(es: seq<Entry>, e: Entry, n: nat)
    requires n <= |es|
    ensures Track(es + [e], n) == Track(es, n) && PairsOf(es + [e], n) == PairsOf(es, n)
  {
    if n > 0 {
      PrefixTrack(es, e, n - 1);
    }
  }

  /** The mode and the pairs after one more entry. */
  lemma OneMore(es: seq<Entry>, e: Entry)
    ensures var n, mode := |es|, Track(es, |es|);
      && Track(es + [e], n + 1) == AfterEntry(mode, e, n)
      && PairsOf(es + [e], n + 1) == WithPair(PairsOf(es, n), mode, e, n)
  {
    hide AfterEntry, WithPair;
    PrefixTrack(es, e, |es|);
    assert (es + [e])[|es|] == e;
  }

  lemma SoundStep(st: State, next: State, e: Entry)
    requires Sound(st) && EntryFits(e, st.mode) && next.entries == st.entries + [e]
    requires next.mode == AfterEntry(st.mode, e, |st.entries|)
    requires next.pairs == WithPair(st.pairs, st.mode, e, |st.entries|)
    ensures Sound(next)
  {
    hide EntryFits, AfterEntry, WithPair, Track, PairsOf;
    OneMore(st.entries, e);
    FitsOfPrefix(st.entries, e, st.mode);
  }

  lemma FitsOfPrefix(es: seq<Entry>, e: Entry, mode: Mode)
    requires forall i :: 0 <= i < |es| ==> EntryFits(es[i], Track(es, i))
    requires mode == Track(es, |es|) && EntryFits(e, mode)
    ensures forall i :: 0 <= i < |es| + 1 ==> EntryFits((es + [e])[i], Track(es + [e], i))
  {
    hide EntryFits, Track, PairsOf;
    forall i | 0 <= i < |es| + 1
      ensures EntryFits((es + [e])[i], Track(es + [e], i))
    {
      PrefixTrack(es, e, i);
    }
  }

  lemma {:induction false} ReadFits(source: Source, lengths: seq<nat>, n: nat)
    requires n <= |lengths| && forall k :: 0 <= k < n ==> lengths[k] > 0
    requires Rewritable(ReadEntries(source, lengths, n).entries, n)
    ensures Sound(ReadEntries(source, lengths, n))
    ensures n > 0 ==> |ReadEntries(source, lengths, n).entries[n - 1].value| == lengths[n - 1]
  {
    if n > 0 {
      hide ReadEntry, Sound, EntryFits;
      var before, st := ReadEntries(source, lengths, n - 1), ReadEntries(source, lengths, n);
      NewEntryFits(source, before, lengths[n - 1]);
      var e := st.entries[n - 1];
      assert st.entries == before.entries + [e];
      assert Rewritable(before.entries, n - 1) by {
        forall i | 0 <= i < n - 1
          ensures before.entries[i] == st.entries[i]
        {
        }
      }
      ReadFits(source, lengths, n - 1);
      SoundStep(before, st, e);
    } else {
      hide EntryFits;
    }
  }

  lemma NewEntryFits(source: Source, st: State, n: nat)
    requires n > 0
    ensures var next := ReadEntry(source, st, n);
      var e := next.entries[|st.entries|];
      && next.entries == st.entries + [e] && |e.value| == n
      && (e.value != [END_PAIRS] && (e.status.Identifier? ==> SingleByte(e.text)) ==>
        && EntryFits(e, st.mode)
        && next.mode == AfterEntry(st.mode, e, |st.entries|)
        && next.pairs == WithPair(st.pairs, st.mode, e, |st.entries|))
  {
    var e := ReadEntry(source, st, n).entries[|st.entries|];
    if e.status.String? {
      var start := Wrap32(e.value[0] as int - source.rel0size - 8);
      WideReadsOnlyWide(Section(source.strings, start, |source.strings|));
    }
  }

  /** Every file that reads without error can be written back and read again, provided that
      its text words are not 0x14 and its identifiers are ASCII. */
  lemma ReadFilesAreWellFormed(data: seq<byte>)
    requires ParseFile(data).Parsed? && Rewritable(ParseFile(data).st.entries, |ParseFile(data).st.entries|)
    ensures var st := ParseFile(data).st; WellFormed(st.entries) && st.pairs == PairsOf(st.entries, |st.entries|)
  {
    hide ParseFile, ReadEntries, EntryFits, Rewritable, Track, PairsOf;
    var source, lengths := ReadFrom(data);
    ReadFits(source, lengths, |lengths|);
  }

  lemma ReadFrom(data: seq<byte>) returns (source: Source, lengths: seq<nat>)
    requires ParseFile(data).Parsed?
    ensures lengths != [] && lengths[|lengths| - 1] == 2
    ensures forall k :: 0 <= k < |lengths| ==> lengths[k] > 0
    ensures ParseFile(data).st == ReadEntries(source, lengths, |lengths|)
  {
    hide ReadEntries, TagAt, Section, WordAt;
    var rel0 := TagAt(data, WordAt(TagAt(data, 0).body, 1));
    var offsetNof0 := WordAt(TagAt(data, 0).body, 3);
    var nof0 := TagAt(data, offsetNof0);
    assert ParseFile(data) == ParseEntries(data, rel0, nof0, offsetNof0) by {
      hide ParseEntries;
    }
    hide ParseFile;
    var rel0size := WordAt(rel0.body, 0);
    source := Source(Section(rel0.body, 8, rel0size as int - 8),
                     Section(rel0.body, rel0size, Wrap32(rel0.size as int - rel0size)), rel0size);
    lengths := Lengths(Sizes(nof0.body, WordAt(nof0.body, 0)));
  }

  // ----- Which files come back

  lemma {:induction false} ReadAt(source: Source, lengths: seq<nat>, n: nat, k: nat)
    requires k < n <= |lengths| && forall j :: 0 <= j < n ==> lengths[j] > 0
    ensures ReadEntries(source, lengths, n).entries[k]
      == ReadEntry(source, ReadEntries(source, lengths, k), lengths[k]).entries[k]
  {
    hide ReadEntry;
    if k < n - 1 {
      ReadAt(source, lengths, n - 1, k);
      ReadAppends(source, ReadEntries(source, lengths, n - 1), lengths[n - 1]);
    }
  }

  lemma ReadAppends(source: Source, st: State, n: nat)
    requires n > 0
    ensures var es := ReadEntry(source, st, n).entries;
      && |es| == |st.entries| + 1 && es[..|st.entries|] == st.entries && |es[|st.entries|].value| == n
  {
  }

  /** The last entry of what is read has two words, and no entry is without. */
  lemma ReadShape(data: seq<byte>)
    requires ParseFile(data).Parsed?
    ensures var es := ParseFile(data).st.entries;
      && es != [] && |es[|es| - 1].value| == 2
      && forall k :: 0 <= k < |es| ==> es[k].value != []
  {
    hide ParseFile, ReadEntry;
    var source, lengths := ReadFrom(data);
    forall k | 0 <= k < |lengths|
      ensures |ReadEntries(source, lengths, |lengths|).entries[k].value| == lengths[k]
    {
      ReadAt(source, lengths, |lengths|, k);
      ReadAppends(source, ReadEntries(source, lengths, k), lengths[k]);
    }
  }

  /** What a text that has been read was read from. */
  lemma TextWasRead(source: Source, st: State, n: nat)
    requires n > 0 && ReadEntry(source, st, n).entries[|st.entries|].status != Plain
    ensures var e := ReadEntry(source, st, n).entries[|st.entries|];
      && |e.value| == 1
      && var start := Wrap32(e.value[0] as int - source.rel0size - 8);
        e.text == ReadString(CharSize(e.status), Section(source.strings, start, |source.strings|))
  {
    hide ReadString, Section;
  }

  lemma PointerReadFrom(es: seq<Entry>, i: nat)
    requires Writable(es) && i < |es| && es[i].status != Plain
    ensures var source := SourceOf(es);
      var start := Wrap32(Pointer(es, i) - source.rel0size - 8);
      (ReadString(CharSize(es[i].status), Section(source.strings, start, |source.strings|)) == es[i].text
       <==> Readable(es[i].text, es[i].status))
  {
    hide Writable, ReadString, Section, Readable, Area, Pointer, Words, AllWords, Relocated, Wrap32, CharSize;
    PointerRead(es, i);
  }

  lemma TextReadAt(source: Source, lengths: seq<nat>, i: nat)
    requires i < |lengths| && forall j :: 0 <= j < |lengths| ==> lengths[j] > 0
    requires ReadEntries(source, lengths, |lengths|).entries[i].status != Plain
    ensures var e := ReadEntries(source, lengths, |lengths|).entries[i];
      && |e.value| == 1
      && var start := Wrap32(e.value[0] as int - source.rel0size - 8);
        e.text == ReadString(CharSize(e.status), Section(source.strings, start, |source.strings|))
  {
    hide *;
    ReadAt(source, lengths, |lengths|, i);
    TextWasRead(source, ReadEntries(source, lengths, i), lengths[i]);
  }

  /** A text that came back can be held by its width. */
  lemma TextCameBack(es: seq<Entry>, i: nat, e: Entry)
    requires Writable(es) && i < |es| && es[i].status != Plain
    requires e.status == es[i].status && e.text == es[i].text && e.value != [] && e.value[0] == Pointer(es, i)
    requires var source := SourceOf(es);
      var start := Wrap32(e.value[0] as int - source.rel0size - 8);
      e.text == ReadString(CharSize(e.status), Section(source.strings, start, |source.strings|))
    ensures Readable(es[i].text, es[i].status)
  {
    hide *;
    PointerReadFrom(es, i);
  }

  /** A file comes back from writing and reading, with the words that writing leaves, exactly if
      it is well formed. */
  lemma RoundTripExactly(es: seq<Entry>)
    requires Writable(es)
    ensures (var r := ParseFile(FileBytes(es)); r.Parsed? && r.st.entries == Relocated(es)) <==> WellFormed(es)
  {
    hide Writable, WellFormed, ParseFile, FileBytes, RelocatedEntry, Rewritable;
    if WellFormed(es) {
      FileRoundTrip(es);
    }
    var r := ParseFile(FileBytes(es));
    if r.Parsed? && r.st.entries == Relocated(es) {
      CameBackRewritable(es);
      ReadFilesAreWellFormed(FileBytes(es));
      RelocatedIsWellFormed(es);
    }
  }

  lemma CameBackRewritable(es: seq<Entry>)
    requires Writable(es)
    requires var r := ParseFile(FileBytes(es)); r.Parsed? && r.st.entries == Relocated(es)
    ensures Rewritable(Relocated(es), |es|)
  {
    hide Writable, ParseFile, FileBytes, RelocatedEntry, ReadEntries, SourceOf, Readable, ReadString, Section, CharSize;
    ReadShape(FileBytes(es));
    var rs := Relocated(es);
    forall i | 0 <= i < |es|
      ensures |rs[i].value| == |es[i].value|
    {
      RelocatedFits(es, i, Mode(false, NoPair));
    }
    WrittenParses(es);
    forall i | 0 <= i < |es| && rs[i].status != Plain
      ensures rs[i].value != [END_PAIRS] && (rs[i].status.Identifier? ==> SingleByte(rs[i].text))
    {
      RelocatedShape(es, i);
      TextReadAt(SourceOf(es), ValueLengths(es), i);
      TextCameBack(es, i, rs[i]);
      PointerIsNoMark(es, i);
      IdentifierIsReadable(es[i].text);
    }
  }

  lemma RelocatedShape(es: seq<Entry>, i: nat)
    requires Writable(es) && i < |es|
    ensures RelocatedEntry(es, i).status == es[i].status && RelocatedEntry(es, i).text == es[i].text
    ensures es[i].status != Plain ==>
      RelocatedEntry(es, i).value != [] && RelocatedEntry(es, i).value[0] == Pointer(es, i)
  {
    hide Area, Count, Pointer;
  }

  lemma IdentifierIsReadable(t: text)
    ensures Readable(t, Identifier) <==> SingleByte(t)
  {
  }
}
