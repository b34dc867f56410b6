/** Which entries of a text file are paired, and the files that reading assigns to themselves. */
module TextPairing {
  import opened Bytes
  import opened TextFormat
  import opened TextArea
  import opened TextFiles
  import opened TextReading
  import opened TextRoundTrip

  /** What entry `index` does to the mode.  Only plain entries switch it; text entries are
      paired. */
  function AfterEntry(mode: Mode, e: Entry, index: nat): Mode {
    if e.status != Plain then AfterText(mode, e.text, index)
    else if e.value != [] then Enter(mode, e.value[0])
    else mode
  }

  /** The mode before entry `i`. */
  function Track(es: seq<Entry>, i: nat): Mode
    requires i <= |es|
  {
    if i == 0 then Mode(false, NoPair) else AfterEntry(Track(es, i - 1), es[i - 1], i - 1)
  }

  /** The pair that entry `index` completes, if an identifier waits for its string. */
  function WithPair(ps: seq<Pair>, mode: Mode, e: Entry, index: nat): seq<Pair> {
    if e.status != Plain && mode.pending.Waiting? then
      ps + [Pair(mode.pending.identifier, e.text, mode.pending.index, index)]
    else ps
  }

  /** The pairs of the first `n` entries. */
  function PairsOf(es: seq<Entry>, n: nat): seq<Pair>
    requires n <= |es|
  {
    if n == 0 then [] else WithPair(PairsOf(es, n - 1), Track(es, n - 1), es[n - 1], n - 1)
  }

  /** An entry that reading could have produced in this mode, but for the word of a text. */
  ghost predicate EntryFits(e: Entry, mode: Mode) {
    if e.status == Plain then e.value != [] && !IsText(e.value) && e.text == []
    else |e.value| == 1 && e.status == TextStatus(mode) && Readable(e.text, e.status)
  }

  /** The last entry has two words, and every status is the one that reading would assign. */
  ghost predicate WellFormed(es: seq<Entry>) {
    && es != [] && |es[|es| - 1].value| == 2
    && forall i :: 0 <= i < |es| ==> EntryFits(es[i], Track(es, i))
  }

  lemma EntriesHaveWords(es: seq<Entry>)
    requires WellFormed(es)
    ensures forall i :: 0 <= i < |es| ==> es[i].value != []
  {
  }

  /** What decides the pairing of a file: statuses and texts, and the first words of plain
      entries. */
  ghost predicate PairsAlike(es: seq<Entry>, fs: seq<Entry>) {
    && |es| == |fs|
    && (forall i :: 0 <= i < |es| ==> es[i].status == fs[i].status && es[i].text == fs[i].text)
    && forall i :: 0 <= i < |es| && es[i].status == Plain ==> es[i].value == fs[i].value
  }

  lemma {:induction false} TrackOfAlike(es: seq<Entry>, fs: seq<Entry>, n: nat)
    requires PairsAlike(es, fs) && n <= |es|
    ensures Track(es, n) == Track(fs, n)
  {
    if n > 0 {
      TrackOfAlike(es, fs, n - 1);
      hide Enter, AfterText;
    }
  }

  lemma {:induction false} PairsOfAlike(es: seq<Entry>, fs: seq<Entry>, n: nat)
    requires PairsAlike(es, fs) && n <= |es|
    ensures PairsOf(es, n) == PairsOf(fs, n)
  {
    if n > 0 {
      assert es[n - 1].status == fs[n - 1].status && es[n - 1].text == fs[n - 1].text;
      hide PairsAlike, Track;
      PairsOfAlike(es, fs, n - 1);
      TrackOfAlike(es, fs, n - 1);
    }
  }

  lemma RelocatedPairs(es: seq<Entry>, n: nat)
    requires Writable(es) && n <= |es|
    ensures Track(Relocated(es), n) == Track(es, n) && PairsOf(Relocated(es), n) == PairsOf(es, n)
  {
    hide Writable, Pointer;
    assert PairsAlike(es, Relocated(es));
    hide *;
    TrackOfAlike(es, Relocated(es), n);
    PairsOfAlike(es, Relocated(es), n);
  }

  lemma RelocatedFits(es: seq<Entry>, i: nat, mode: Mode)
    requires Writable(es) && i < |es|
    ensures EntryFits(RelocatedEntry(es, i), mode) <==> EntryFits(es[i], mode)
    ensures |RelocatedEntry(es, i).value| == |es[i].value|
  {
    hide Readable, Area, Count;
  }

  /** Writing keeps a file well formed, and makes no other file so. */
  lemma RelocatedIsWellFormed(es: seq<Entry>)
    requires Writable(es)
    ensures WellFormed(Relocated(es)) <==> WellFormed(es)
  {
    hide Writable, EntryFits, RelocatedEntry, Track, PairsOf;
    var rs := Relocated(es);
    forall i | 0 <= i < |es|
      ensures |rs[i].value| == |es[i].value|
      ensures EntryFits(rs[i], Track(rs, i)) <==> EntryFits(es[i], Track(es, i))
    {
      RelocatedPairs(es, i);
      RelocatedFits(es, i, Track(es, i));
    }
  }

  // ----- The bodies of the two chunks

  lemma {:induction false} WordsRead(ws: seq<u32>, k: nat)
    requires k < |ws|
    ensures WordAt(Words(ws), k) == ws[k]
  {
    hide LE32, Word32;
    var s := Words(ws);
    if k == 0 {
      assert s == [] + LE32(ws[0]) + Words(ws[1..]);
      WordOfWords([], ws[0], Words(ws[1..]), 0);
    } else {
      WordsRead(ws[1..], k - 1);
      assert s[4 * k..4 * k + 4] == Words(ws[1..])[4 * (k - 1)..4 * (k - 1) + 4];
    }
  }

  lemma SourceRead(es: seq<Entry>)
    requires Writable(es)
    ensures var rel := Rel0Body(es);
      var rel0size := EntryBytes(es) + 8;
      && |rel| < 0x1_0000_0000
      && WordAt(rel, 0) == rel0size
      && Section(rel, 8, rel0size - 8) == Words(AllWords(Relocated(es), |es|))
      && Section(rel, rel0size, Wrap32(|rel| - rel0size)) == Area(es, |es|)
  {
    hide *;
    TextFile.Bodies(es);
    BodySizes(es);
    PartsFit(es);
    BodyRead(EntryBytes(es) + 8, Words(AllWords(Relocated(es), |es|)), Area(es, |es|));
  }

  lemma PartsFit(es: seq<Entry>)
    requires Writable(es)
    ensures |Words(AllWords(Relocated(es), |es|))| == EntryBytes(es)
    ensures EntryBytes(es) + 8 + |Area(es, |es|)| == Rel0Size(es) - 8 < 0x1_0000_0000 - 8
  {
    AreaOfSame(es, Relocated(es), |es|);
    RoundUp16(Rel0Size(es));
    hide Area, Relocated, AllWords;
  }

  lemma BodyRead(rel0size: u32, words: seq<byte>, area: seq<byte>)
    requires rel0size == |words| + 8 && rel0size + |area| < 0x1_0000_0000
    ensures var rel := LE32(rel0size) + LE32(0) + words + area;
      && WordAt(rel, 0) == rel0size
      && Section(rel, 8, rel0size - 8) == words
      && Section(rel, rel0size, Wrap32(|rel| - rel0size)) == area
  {
    var rel := LE32(rel0size) + LE32(0) + words + area;
    hide LE32;
    assert rel == [] + LE32(rel0size) + (LE32(0) + words + area);
    WordOfWords([], rel0size, LE32(0) + words + area, 0);
  }

  lemma {:induction false} OffsetAt(es: seq<Entry>, n: nat, k: nat)
    requires Writable(es) && k < n <= |es|
    ensures Offsets(es, n)[k] == 4 * Count(es, k) + POINTER_BASE
  {
    hide Writable;
    if k < n - 1 {
      OffsetAt(es, n - 1, k);
    }
  }

  lemma OffsetRead(es: seq<Entry>, k: nat)
    requires Writable(es) && k < |es|
    ensures WordAt(Nof0Body(es), k + 1) == 4 * Count(es, k) + POINTER_BASE
  {
    var ws := Offsets(es, |es|);
    OffsetAt(es, |es|, k);
    WordsRead(ws, k);
    hide Offsets, LE32, Words, Writable;
    assert Nof0Body(es)[4 * (k + 1)..4 * (k + 1) + 4] == Words(ws)[4 * k..4 * k + 4];
  }

  lemma SizeRead(es: seq<Entry>, k: nat)
    requires Writable(es) && k + 1 < |es|
    ensures Wrap32(WordAt(Nof0Body(es), k + 2) as int - WordAt(Nof0Body(es), k + 1)) == 4 * |es[k].value|
  {
    hide Nof0Body, WordAt, RoundUp, Area, Writable;
    OffsetRead(es, k);
    OffsetRead(es, k + 1);
    TextFile.OffsetFits(es, k + 1);
    assert Count(es, k + 1) == Count(es, k) + |es[k].value|;
  }

  lemma CountRead(es: seq<Entry>)
    requires Writable(es) && es != []
    ensures WordAt(Nof0Body(es), 0) == |es| - 1
  {
    hide LE32, Words, Offsets, Nof0Body, WordAt, Writable;
    NofHead(es);
    WordOfWords([], Wrap32(|es| - 1), Words(Offsets(es, |es|)), 0);
  }

  lemma NofHead(es: seq<Entry>)
    requires Writable(es)
    ensures Nof0Body(es) == [] + LE32(Wrap32(|es| - 1)) + Words(Offsets(es, |es|)) && |es| < 0x1_0000_0000
  {
    RoundUp16(Nof0Size(es));
    hide LE32, Words, Offsets;
  }

  function ValueLengths(es: seq<Entry>): (lengths: seq<nat>)
    ensures |lengths| == |es|
  {
    seq(|es|, k requires 0 <= k < |es| => |es[k].value|)
  }

  /** The listed offsets give back the number of words of every entry. */
  lemma LengthsRead(es: seq<Entry>)
    requires Writable(es) && es != [] && |es[|es| - 1].value| == 2
    ensures var sizes := Sizes(Nof0Body(es), |es| - 1);
      && (forall k :: 0 <= k < |sizes| ==> sizes[k] == 4 * |es[k].value|)
      && Lengths(sizes) == ValueLengths(es)
  {
    hide Writable, Nof0Body, WordAt;
    var sizes := Sizes(Nof0Body(es), |es| - 1);
    forall k | 0 <= k < |sizes|
      ensures sizes[k] == 4 * |es[k].value|
    {
      SizeRead(es, k);
    }
  }
}
