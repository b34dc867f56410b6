/** Writing a text file: one pass sizes the strings and assigns pointers, further passes emit
    the words, the strings and the offsets.  All of them are proved against one layout. */
module TextFiles {
  import opened Bytes
  import opened TextFormat
  import opened TextArea
  import opened TextReading

  /** The offsets of the first `n` entries, as the NOF0 chunk lists them. */
  function Offsets(es: seq<Entry>, n: nat): (ws: seq<u32>)
    requires Writable(es) && n <= |es|
    ensures |ws| == n
  {
    if n == 0 then [] else
      CountGrows(es, n - 1);
      RoundUp16(Rel0Size(es));
      Offsets(es, n - 1) + [4 * Count(es, n - 1) + POINTER_BASE]
  }

  lemma {:induction false} CountGrows(es: seq<Entry>, n: nat)
    requires n <= |es|
    ensures Count(es, n) <= Count(es, |es|)
    decreases |es| - n
  {
    if n < |es| {
      CountGrows(es, n + 1);
    }
  }

  function Rel0Body(es: seq<Entry>): seq<byte>
    requires Writable(es)
  {
    RoundUp16(Rel0Size(es));
    LE32(EntryBytes(es) + 8) + LE32(0) + Words(AllWords(Relocated(es), |es|)) + Area(es, |es|)
  }

  function Nof0Body(es: seq<Entry>): seq<byte>
    requires Writable(es)
  {
    LE32(Wrap32(|es| - 1)) + Words(Offsets(es, |es|))
  }

  lemma BodySizes(es: seq<Entry>)
    requires Writable(es)
    ensures |Rel0Body(es)| == Rel0Size(es) - 8
    ensures |Nof0Body(es)| == Nof0Size(es) - 8
  {
    AreaOfSame(es, Relocated(es), |es|);
  }

  /** The bytes of the file that holds `es`. */
  function FileBytes(es: seq<Entry>): seq<byte>
    requires Writable(es)
  {
    BodySizes(es);
    Container(Rel0Body(es), Nof0Body(es))
  }

  class TextFile {
    var Entries: seq<Entry>
    var Pairs: seq<Pair>

    constructor (entries: seq<Entry>, pairs: seq<Pair>)
      ensures Entries == entries && Pairs == pairs
    {
      Entries, Pairs := entries, pairs;
    }

    /** Reads a file: its entries replace those there were, its pairs are added. */
    method Parse(data: seq<byte>) returns (v: Verdict)
      modifies this
      ensures v == VerdictOf(ParseFile(data))
      ensures v == Accepted || v == Endless ==>
        Entries == ParseFile(data).st.entries && Pairs == old(Pairs) + ParseFile(data).st.pairs
      ensures v.Rejected? ==> Entries == old(Entries) && Pairs == old(Pairs)
    {
      hide TagAt, WordAt, ParseEntries;
      var nifl := TagAt(data, 0);
      if |data| < 8 {
        return Rejected(Unreadable);
      }
      if nifl.name != NIFL {
        return Rejected(NoNifl);
      }
      if |nifl.body| < 20 {
        return Rejected(Unreadable);
      }
      if WordAt(nifl.body, 0) != 1 {
        return Rejected(BadMagic);
      }
      var rel0 := TagAt(data, WordAt(nifl.body, 1));
      if rel0.name != REL0 {
        return Rejected(NoRel0);
      }
      var offsetNof0 := WordAt(nifl.body, 3);
      var nof0 := TagAt(data, offsetNof0);
      if nof0.name != NOF0 {
        return Rejected(NoNof0);
      }
      v := ParseChunks(data, rel0, nof0, offsetNof0);
    }

    /** The part of `Parse` behind the headers. */
    method ParseChunks(data: seq<byte>, rel0: Tag, nof0: Tag, offsetNof0: u32) returns (v: Verdict)
      modifies this
      ensures var r := ParseEntries(data, rel0, nof0, offsetNof0);
        && v == VerdictOf(r)
        && (v == Accepted || v == Endless ==> Entries == r.st.entries && Pairs == old(Pairs) + r.st.pairs)
        && (v.Rejected? ==> Entries == old(Entries) && Pairs == old(Pairs))
    {
      hide WordAt, Section, TagAt, ReadEntries;
      var rel0size := WordAt(rel0.body, 0);
      var source := Source(Section(rel0.body, 8, rel0size as int - 8),
                           Section(rel0.body, rel0size, Wrap32(rel0.size as int - rel0size)),
                           rel0size);
      var sizes, even := ReadSizes(nof0.body);
      if !even {
        return Rejected(OddSize);
      }
      var done := ParseAll(source, sizes);
      if !done {
        return Panicked;
      }
      var end := offsetNof0 + 8 + Wrap32(nof0.size as int + 8 + 0x0f) / 0x10 * 0x10 - 8;
      if TagAt(data, end).name != NEND {
        return Endless;
      }
      v := Accepted;
    }

    /** The differences of the listed offsets, unless one is no multiple of four. */
    static method ReadSizes(nof0: seq<byte>) returns (sizes: seq<u32>, even: bool)
      ensures even <==> forall k :: 0 <= k < WordAt(nof0, 0) ==> Sizes(nof0, WordAt(nof0, 0))[k] % 4 == 0
      ensures even ==> sizes == Sizes(nof0, WordAt(nof0, 0))
    {
      hide WordAt;
      var count := WordAt(nof0, 0);
      sizes, even := [], true;
      var offset := WordAt(nof0, 1);
      var i := 0;
      while i < count
        invariant 0 <= i <= count && |sizes| == i && offset == WordAt(nof0, i + 1)
        invariant forall k :: 0 <= k < i ==> sizes[k] == Sizes(nof0, count)[k] && sizes[k] % 4 == 0
      {
        var end := WordAt(nof0, i + 2);
        var size := Wrap32(end as int - offset);
        offset := end;
        if size % 4 != 0 {
          assert Sizes(nof0, count)[i] == size;
          even := false;
          return;
        }
        sizes := sizes + [size];
        i := i + 1;
      }
    }

    /** Reads the entries one after the other, up to one without words. */
    method ParseAll(source: Source, sizes: seq<u32>) returns (done: bool)
      requires forall k :: 0 <= k < |sizes| ==> sizes[k] % 4 == 0
      modifies this
      ensures done <==> forall k :: 0 <= k < |sizes| ==> sizes[k] != 0
      ensures done ==> var lengths := Lengths(sizes);
        && (forall k :: 0 <= k < |lengths| ==> lengths[k] > 0)
        && Entries == ReadEntries(source, lengths, |lengths|).entries
        && Pairs == old(Pairs) + ReadEntries(source, lengths, |lengths|).pairs
    {
      hide ReadEntry;
      var lengths := Lengths(sizes);
      assert forall k :: 0 <= k < |sizes| ==> lengths[k] == sizes[k] / 4;
      var mode, pos := Mode(false, NoPair), 0;
      Entries := [];
      for i := 0 to |lengths|
        invariant forall k :: 0 <= k < i ==> lengths[k] > 0
        invariant Entries == ReadEntries(source, lengths, i).entries
        invariant Pairs == old(Pairs) + ReadEntries(source, lengths, i).pairs
        invariant mode == ReadEntries(source, lengths, i).mode && pos == ReadEntries(source, lengths, i).pos
      {
        if lengths[i] == 0 {
          assert sizes[i] == 0;
          return false;
        }
        mode, pos := ParseEntry(source, lengths[i], mode, pos, ReadEntries(source, lengths, i), old(Pairs));
      }
      forall k | 0 <= k < |sizes|
        ensures sizes[k] != 0
      {
        assert lengths[k] > 0;
      }
      done := true;
    }

    /** Reads one entry, and pairs it when an identifier is waiting for its string. */
    method ParseEntry(source: Source, n: nat, mode: Mode, pos: nat, ghost st: State, ghost before: seq<Pair>)
        returns (mode': Mode, pos': nat)
      requires n > 0 && Entries == st.entries && Pairs == before + st.pairs && mode == st.mode && pos == st.pos
      modifies this
      ensures var next := ReadEntry(source, st, n);
        Entries == next.entries && Pairs == before + next.pairs && mode' == next.mode && pos' == next.pos
    {
      hide WordAt, ReadString, Section;
      var value: seq<u32> := [];
      for j := 0 to n
        invariant |value| == j && forall k :: 0 <= k < j ==> value[k] == WordAt(source.words, pos + k)
      {
        value := value + [WordAt(source.words, pos + j)];
      }
      assert value == ReadWords(source.words, pos, n);
      mode', pos' := mode, pos + n;
      if value[0] == 0xffff_ffff {
        mode' := mode'.(pairMode := true);
      } else if value[0] == 0x14 {
        mode' := Mode(false, NoPair);
      }
      var entry := Entry(value, [], Plain);
      if n == 1 && value[0] != 0xffff_ffff {
        var start := Wrap32(value[0] as int - source.rel0size - 8);
        var charSize := if mode'.pending.Waiting? then 2 else 1;
        var t := ReadChars(charSize, Section(source.strings, start, |source.strings|));
        if mode'.pending.Waiting? {
          entry := Entry(value, t, String);
          Pairs := Pairs + [Pair(mode'.pending.identifier, t, mode'.pending.index, |Entries|)];
          mode' := mode'.(pending := NoPair);
        } else {
          entry := Entry(value, t, Identifier);
          if mode'.pairMode {
            mode' := mode'.(pending := Waiting(t, |Entries|));
          }
        }
      }
      Entries := Entries + [entry];
    }

    static lemma ReadStringStep(charSize: nat, s: seq<byte>)
      requires 1 <= charSize <= 2
      ensures s == [] ==> ReadString(charSize, s) == []
      ensures s != [] && Unit(charSize, s) == 0 ==> ReadString(charSize, s) == []
      ensures s != [] && Unit(charSize, s) != 0 ==>
        ReadString(charSize, s) == [Scalar(Unit(charSize, s))] + ReadString(charSize, s[Min(charSize, |s|)..])
    {
    }

    /** Reads characters up to a zero, or all there are. */
    static method ReadChars(charSize: nat, s: seq<byte>) returns (t: text)
      requires 1 <= charSize <= 2
      ensures t == ReadString(charSize, s)
    {
      hide ReadString;
      t := [];
      var pos, last := 0, 1;
      assert s[0..] == s;
      while last != 0
        invariant pos <= |s|
        invariant last != 0 ==> t + ReadString(charSize, s[pos..]) == ReadString(charSize, s)
        invariant last == 0 ==> t == ReadString(charSize, s)
        decreases last != 0, |s| - pos
      {
        ReadStringStep(charSize, s[pos..]);
        if pos == |s| {
          return;
        }
        var rest := s[pos..];
        last := Unit(charSize, rest);
        assert rest[Min(charSize, |rest|)..] == s[pos + Min(charSize, |rest|)..];
        pos := pos + Min(charSize, |rest|);
        if last != 0 {
          t := t + [Scalar(last)];
        }
      }
    }

    /** The reuse map of the first `n` entries: the last string each text was given. */
    static ghost predicate Tracks(reuse: map<text, nat>, es: seq<Entry>, n: nat)
      requires n <= |es|
    {
      forall t :: (t in reuse <==> Latest(es, n, t) >= 0) && (t in reuse ==> Stands(reuse[t], es, n, t))
    }

    static ghost predicate Stands(k: nat, es: seq<Entry>, n: nat, t: text)
      requires n <= |es|
    {
      var j := Latest(es, n, t);
      && 0 <= j && k < n
      && es[k].status == es[j].status && es[k].text == t
      && Slot(es, k) == Slot(es, j)
    }

    /** The reuse map decides as `Fresh` does, and names the string to reuse. */
    static lemma TracksDecides(reuse: map<text, nat>, es: seq<Entry>, n: nat)
      requires n < |es| && es[n].status != Plain && Tracks(reuse, es, n)
      ensures var t := es[n].text;
        (t in reuse && es[reuse[t]].status == es[n].status) <==> !Fresh(es, n)
      ensures !Fresh(es, n) ==> Slot(es, reuse[es[n].text]) == Slot(es, n)
    {
    }

    /** One more entry: its text takes the place of an equal one if it is spelt anew. */
    static lemma TracksStep(reuse: map<text, nat>, es: seq<Entry>, n: nat)
      requires n < |es| && Tracks(reuse, es, n)
      ensures es[n].status == Plain || !Fresh(es, n) ==> Tracks(reuse, es, n + 1)
      ensures es[n].status != Plain && Fresh(es, n) ==> Tracks(reuse[es[n].text := n], es, n + 1)
    {
      if es[n].status != Plain {
        TracksDecides(reuse, es, n);
      }
    }

    /** The entries after the sizing pass has been through the first `n`. */
    static ghost predicate Placed(now: seq<Entry>, es: seq<Entry>, n: nat)
      requires Writable(es) && n <= |es|
    {
      && |now| == |es|
      && (forall k :: 0 <= k < n ==>
        now[k] == if es[k].status == Plain then es[k] else es[k].(value := es[k].value[0 := SlotWord(es, k)]))
      && forall k :: n <= k < |es| ==> now[k] == es[k]
    }

    static ghost function SlotWord(es: seq<Entry>, k: nat): u32
      requires Writable(es) && k < |es| && es[k].status != Plain
    {
      Pointer(es, k) - EntryBytes(es) - POINTER_BASE
    }

    /** The sizing pass: every text entry gets the offset of its string in the area. */
    method PlaceStrings() returns (entrySize: nat, stringSize: nat)
      requires Writable(Entries)
      modifies this`Entries
      ensures |Entries| == |old(Entries)| && Placed(Entries, old(Entries), |old(Entries)|)
      ensures entrySize == EntryBytes(old(Entries))
      ensures stringSize == |Area(old(Entries), |old(Entries)|)|
    {
      hide Slot, Fresh, Tracks, Pointer, Writable, Area;
      ghost var es := Entries;
      var reuse: map<text, nat> := map[];
      EmptyTracks(es);
      entrySize, stringSize := 0, 0;
      for i := 0 to |Entries|
        invariant |Entries| == |es| && Placed(Entries, es, i)
        invariant entrySize == 4 * Count(es, i) && stringSize == |Area(es, i)|
        invariant Tracks(reuse, es, i)
      {
        var entry := Entries[i];
        entrySize := entrySize + 4 * |entry.value|;
        if entry.status != Plain {
          reuse, stringSize := PlaceString(i, reuse, stringSize, es);
        } else {
          TracksStep(reuse, es, i);
          AreaStep(es, i);
        }
      }
    }

    static lemma EmptyTracks(es: seq<Entry>)
      ensures Tracks(map[], es, 0) && Area(es, 0) == []
    {
    }

    static lemma AreaStep(es: seq<Entry>, n: nat)
      requires n < |es|
      ensures es[n].status == Plain || !Fresh(es, n) ==> Area(es, n + 1) == Area(es, n)
      ensures es[n].status != Plain && Fresh(es, n) ==>
        |Area(es, n + 1)| == |Area(es, n)| + |Spelling(es[n].text, es[n].status)|
    {
    }

    /** The sizing pass at a text entry. */
    method PlaceString(i: nat, reuse: map<text, nat>, stringSize: nat, ghost es: seq<Entry>)
        returns (reuse': map<text, nat>, stringSize': nat)
      requires Writable(es) && i < |es| && es[i].status != Plain
      requires Placed(Entries, es, i) && Tracks(reuse, es, i) && stringSize == |Area(es, i)|
      modifies this`Entries
      ensures Placed(Entries, es, i + 1) && Tracks(reuse', es, i + 1) && stringSize' == |Area(es, i + 1)|
    {
      hide Tracks, SlotWord, Slot, Fresh, Area, Latest, Placed, Writable, Spelling, Utf8All;
      reuse', stringSize' := reuse, stringSize;
      ghost var now := Entries;
      KnownSlot(now, es, i, reuse);
      var entry := Entries[i];
      if entry.text in reuse && Entries[reuse[entry.text]].status == entry.status {
        var shared := Entries[reuse[entry.text]].value[0];
        PlacedStep(now, es, i, shared);
        Entries := Entries[i := entry.(value := entry.value[0 := shared])];
      } else {
        FreshSlot(now, es, i, reuse);
        PlacedStep(now, es, i, stringSize);
        Entries := Entries[i := entry.(value := entry.value[0 := stringSize])];
        var charSize, strlen := 1, |Utf8All(entry.text)|;
        if entry.status == String {
          charSize, strlen := 2, |entry.text|;
        }
        Enlarged(stringSize, entry.text, entry.status, charSize, strlen);
        stringSize' := stringSize' + charSize * (strlen + 1);
        stringSize' := (stringSize' + 3) / 4 * 4;
        reuse' := reuse'[entry.text := i];
      }
    }

    /** What the reuse map names for entry `i` has already been given the slot of `i`. */
    static lemma KnownSlot(now: seq<Entry>, es: seq<Entry>, i: nat, reuse: map<text, nat>)
      requires Writable(es) && i < |es| && es[i].status != Plain
      requires Placed(now, es, i) && Tracks(reuse, es, i)
      ensures |now| == |es| && now[i] == es[i]
      ensures es[i].text in reuse ==> var k := reuse[es[i].text];
        && k < i
        && (now[k].status == es[i].status ==>
          && now[k].value != [] && now[k].value[0] == SlotWord(es, i)
          && Tracks(reuse, es, i + 1) && Area(es, i + 1) == Area(es, i))
    {
      if es[i].text in reuse {
        var k := reuse[es[i].text];
        if now[k].status == es[i].status {
          SlotWordIsSlot(es, k);
          SlotWordIsSlot(es, i);
          TracksDecides(reuse, es, i);
          TracksStep(reuse, es, i);
          AreaStep(es, i);
        }
      }
    }

    static lemma FreshSlot(now: seq<Entry>, es: seq<Entry>, i: nat, reuse: map<text, nat>)
      requires Writable(es) && i < |es| && es[i].status != Plain
      requires Placed(now, es, i) && Tracks(reuse, es, i) && |now| == |es|
      requires es[i].text in reuse ==>
        reuse[es[i].text] < i && now[reuse[es[i].text]].status != es[i].status
      ensures SlotWord(es, i) == |Area(es, i)| && Tracks(reuse[es[i].text := i], es, i + 1)
      ensures |Area(es, i)| % 4 == 0
      ensures |Area(es, i + 1)| == |Area(es, i)| + |Spelling(es[i].text, es[i].status)|
    {
      SlotWordIsSlot(es, i);
      TracksDecides(reuse, es, i);
      TracksStep(reuse, es, i);
      AreaStep(es, i);
    }

    static lemma PlacedStep(now: seq<Entry>, es: seq<Entry>, i: nat, w: u32)
      requires Writable(es) && i < |es| && es[i].status != Plain
      requires Placed(now, es, i) && w == SlotWord(es, i)
      ensures now[i] == es[i] && es[i].value != []
      ensures Placed(now[i := es[i].(value := es[i].value[0 := w])], es, i + 1)
    {
    }

    /** The running size grows by the padded string. */
    static lemma Enlarged(size: nat, t: text, status: Status, charSize: nat, strlen: nat)
      requires size % 4 == 0
      requires if status == String then charSize == 2 && strlen == |t|
        else charSize == 1 && strlen == |Utf8All(t)|
      ensures (size + charSize * (strlen + 1) + 3) / 4 * 4 == size + |Spelling(t, status)|
    {
      var n := |Characters(t, status)|;
      assert n == charSize * (strlen + 1);
      RoundUp4(n);
      assert |Spelling(t, status)| == RoundUp(n, 4);
      hide Spelling, Characters, Utf8All, Utf16All;
      RoundedSum(size, n);
    }

    static lemma RoundedSum(size: nat, n: nat)
      requires size % 4 == 0
      ensures (size + n + 3) / 4 * 4 == size + RoundUp(n, 4)
    {
    }

    static lemma SlotWordIsSlot(es: seq<Entry>, k: nat)
      requires Writable(es) && k < |es| && es[k].status != Plain
      ensures SlotWord(es, k) == Slot(es, k)
      ensures Fresh(es, k) ==> Slot(es, k) == |Area(es, k)|
    {
    }
  
    /** Turns the slots into pointers and emits the words of the entries. */
    method EmitWords(entrySize: nat, ghost es: seq<Entry>) returns (out: seq<byte>)
      requires Writable(es) && Placed(Entries, es, |es|) && entrySize == EntryBytes(es)
      modifies this`Entries
      ensures Entries == Relocated(es) && out == Words(AllWords(Relocated(es), |es|))
    {
      hide Slot, Pointer, Writable, Placed, RelocatedEntry, Words;
      out := [];
      assert Words([]) == [] by {
        NoWords();
      }
      PlacedLength(Entries, es);
      ghost var rs := Relocated(es);
      for i := 0 to |Entries|
        invariant |Entries| == |es|
        invariant forall k :: 0 <= k < i ==> Entries[k] == rs[k]
        invariant forall k :: i <= k < |es| ==> Entries[k] == old(Entries)[k]
        invariant out == Words(AllWords(rs, i))
      {
        var entry := Entries[i];
        PlacedWord(old(Entries), es, i);
        if entry.status != Plain {
          entry := entry.(value := entry.value[0 := entry.value[0] as int + (entrySize + 0x10)]);
          Entries := Entries[i := entry];
        }
        assert entry == rs[i];
        out := out + Words(entry.value);
        WordsAppend(AllWords(rs, i), entry.value);
      }
    }

    static lemma NoWords()
      ensures Words([]) == []
    {
    }

    static lemma PlacedLength(now: seq<Entry>, es: seq<Entry>)
      requires Writable(es) && Placed(now, es, |es|)
      ensures |now| == |es|
    {
    }

    static lemma PlacedWord(now: seq<Entry>, es: seq<Entry>, i: nat)
      requires Writable(es) && Placed(now, es, |es|) && i < |es| == |now|
      ensures now[i].status == es[i].status
      ensures es[i].status == Plain ==> now[i] == RelocatedEntry(es, i)
      ensures es[i].status != Plain ==>
        && now[i].value != [] && now[i].value[0] + (EntryBytes(es) + 0x10) == Pointer(es, i)
        && now[i].(value := now[i].value[0 := Pointer(es, i)]) == RelocatedEntry(es, i)
    {
    }

    /** Emits sixteen bits of every rune. */
    method EmitUtf16(t: text) returns (out: seq<byte>)
      ensures out == Utf16All(t)
    {
      out := [];
      for j := 0 to |t|
        invariant out + Utf16All(t[j..]) == Utf16All(t)
      {
        out := out + LE16(t[j] as int % 0x1_0000);
        assert t[j..][1..] == t[j + 1..];
      }
    }

    /** Emits one padded string. */
    method EmitString(entry: Entry) returns (out: seq<byte>)
      requires entry.status != Plain
      ensures out == Spelling(entry.text, entry.status)
    {
      hide Utf8All, Utf16All, RoundUp;
      var strlen := |Utf8All(entry.text)| + 1;
      if entry.status == Identifier {
        out := Utf8All(entry.text) + [0];
      } else {
        out := EmitUtf16(entry.text);
        out := out + [0, 0];
        strlen := (|entry.text| + 1) * 2;
      }
      PaddingTo4(strlen);
      var padding := 4 - strlen % 4;
      if padding < 4 {
        out := out + Zeros(padding);
      } else {
        assert out + Zeros(0) == out;
      }
    }

    static lemma PaddingTo4(n: nat)
      ensures RoundUp(n, 4) == n + (if n % 4 == 0 then 0 else 4 - n % 4)
    {
    }

    /** The emitting pass: it makes its own reuse decisions, and they are the same. */
    method EmitStrings() returns (out: seq<byte>)
      ensures out == Area(Entries, |Entries|)
    {
      hide Slot, Tracks, Spelling, Fresh;
      var reuse: map<text, nat> := map[];
      EmptyTracks(Entries);
      out := [];
      for i := 0 to |Entries|
        invariant out == Area(Entries, i) && Tracks(reuse, Entries, i)
      {
        var entry := Entries[i];
        TracksStep(reuse, Entries, i);
        ReuseDecides(reuse, Entries, i);
        if entry.text in reuse && Entries[reuse[entry.text]].status == entry.status {
          continue;
        }
        if entry.status != Plain {
          var s := EmitString(entry);
          out := out + s;
          reuse := reuse[entry.text := i];
        }
      }
    }

    static lemma ReuseDecides(reuse: map<text, nat>, es: seq<Entry>, n: nat)
      requires n < |es| && Tracks(reuse, es, n)
      ensures var t := es[n].text;
        && (t in reuse ==> reuse[t] < n && es[reuse[t]].status != Plain)
        && (es[n].status != Plain ==> ((t in reuse && es[reuse[t]].status == es[n].status) <==> !Fresh(es, n)))
        && (es[n].status == Plain ==> !Fresh(es, n))
    {
      if es[n].status != Plain {
        TracksDecides(reuse, es, n);
      }
    }

    /** Emits where every entry starts. */
    method EmitOffsets(ghost es: seq<Entry>) returns (out: seq<byte>)
      requires Writable(es) && Entries == Relocated(es)
      ensures out == Words(Offsets(es, |es|))
    {
      hide Writable, RelocatedEntry;
      out := [];
      var offset := 0x10;
      for i := 0 to |Entries|
        invariant out == Words(Offsets(es, i)) && offset == 4 * Count(es, i) + POINTER_BASE
      {
        OffsetFits(es, i);
        out := out + LE32(offset);
        WordsAppend(Offsets(es, i), [offset]);
        assert Words([offset]) == LE32(offset) + Words([]);
        offset := offset + 4 * |Entries[i].value|;
      }
    }

    static lemma OffsetFits(es: seq<Entry>, i: nat)
      requires Writable(es) && i < |es|
      ensures 4 * Count(es, i) + POINTER_BASE < 0x1_0000_0000
      ensures |Relocated(es)[i].value| == |es[i].value|
    {
      CountGrows(es, i);
      RoundUp16(Rel0Size(es));
    }

    /** The REL0 chunk: words, strings and padding, under the sizes of the sizing pass. */
    method WriteRel0(entrySize: nat, rel0size: nat, rel0sizeRounded: nat, ghost es: seq<Entry>)
        returns (out: seq<byte>)
      requires Writable(es) && Placed(Entries, es, |es|)
      requires entrySize == EntryBytes(es) && rel0size == Rel0Size(es) && rel0sizeRounded == RoundUp(rel0size, 16)
      modifies this`Entries
      ensures Entries == Relocated(es)
      ensures |Rel0Body(es)| + 8 == Rel0Size(es) && out == Padded(Chunk(REL0, Rel0Body(es)))
    {
      hide Placed, Area, Writable, Relocated, AllWords, Words, Rel0Body, LE32, RoundUp;
      Bodies(es);
      SizesFit(es);
      out := REL0 + LE32(rel0size - 8);
      var words := EmitWords(entrySize, es);
      var strings := EmitStrings();
      out := out + (LE32(entrySize + 8) + LE32(0) + words + strings);
      out := out + Zeros(rel0sizeRounded - rel0size);
    }

    /** The NOF0 chunk: how many entries there are but one, where each starts, and padding. */
    method WriteNof0(nof0size: nat, nof0sizeRounded: nat, ghost es: seq<Entry>) returns (out: seq<byte>)
      requires Writable(es) && Entries == Relocated(es)
      requires nof0size == Nof0Size(es) && nof0sizeRounded == RoundUp(nof0size, 16)
      ensures |Nof0Body(es)| + 8 == Nof0Size(es) && out == Padded(Chunk(NOF0, Nof0Body(es)))
    {
      hide Writable, Relocated, Offsets, Words, Nof0Body, LE32, RoundUp;
      Bodies(es);
      SizesFit(es);
      out := NOF0 + LE32(nof0size - 8);
      var offsets := EmitOffsets(es);
      out := out + (LE32(Wrap32(|Entries| - 1)) + offsets);
      out := out + Zeros(nof0sizeRounded - nof0size);
    }

    /** Writes the file: the entries are left with the pointers that were written. */
    method Write() returns (out: seq<byte>)
      requires Writable(Entries)
      modifies this`Entries
      ensures Entries == Relocated(old(Entries)) && out == FileBytes(old(Entries))
    {
      hide Placed, Area, Writable, Relocated, RoundUp, Rel0Body, Nof0Body, FileBytes, Count, LE32;
      ghost var es := Entries;
      var entrySize, stringSize := PlaceStrings();
      Bodies(es);
      SizesFit(es);
      var rel0size := entrySize + stringSize + 0x10;
      var rel0sizeRounded := (rel0size + 0x0f) / 0x10 * 0x10;
      var nof0size := (|Entries| + 1) * 4 + 8;
      var nof0sizeRounded := (nof0size + 0x0f) / 0x10 * 0x10;

      out := NIFL + LE32(0x18) + Header(rel0sizeRounded, nof0sizeRounded);
      var rel0 := WriteRel0(entrySize, rel0size, rel0sizeRounded, es);
      var nof0 := WriteNof0(nof0size, nof0sizeRounded, es);
      out := out + rel0 + nof0 + (NEND + LE32(0x08) + (LE32(0) + LE32(0)));
    }

    static lemma SizesFit(es: seq<Entry>)
      requires Writable(es)
      ensures |es| == |Relocated(es)| && Area(Relocated(es), |es|) == Area(es, |es|)
      ensures EntryBytes(es) + |Area(es, |es|)| + 0x10 == Rel0Size(es)
      ensures RoundUp(Rel0Size(es), 16) + RoundUp(Nof0Size(es), 16) + 0x40 < 0x1_0000_0000
      ensures Rel0Size(es) <= RoundUp(Rel0Size(es), 16) == (Rel0Size(es) + 15) / 16 * 16
      ensures Nof0Size(es) <= RoundUp(Nof0Size(es), 16) == (Nof0Size(es) + 15) / 16 * 16
    {
      AreaOfSame(es, Relocated(es), |es|);
      RoundUp16(Rel0Size(es));
      RoundUp16(Nof0Size(es));
    }

    /** What is emitted between the tags. */
    static lemma Bodies(es: seq<Entry>)
      requires Writable(es)
      ensures |Rel0Body(es)| + 8 == Rel0Size(es) && |Nof0Body(es)| + 8 == Nof0Size(es)
      ensures EntryBytes(es) + 8 < 0x1_0000_0000
      ensures Rel0Body(es)
        == LE32(EntryBytes(es) + 8) + LE32(0) + Words(AllWords(Relocated(es), |es|)) + Area(es, |es|)
      ensures Nof0Body(es) == LE32(Wrap32(|es| - 1)) + Words(Offsets(es, |es|))
      ensures FileBytes(es) == Container(Rel0Body(es), Nof0Body(es))
    {
      BodySizes(es);
      RoundUp16(Rel0Size(es));
      hide LE32, Words, Area, Container, AllWords, Offsets, Relocated;
    }
  }

  lemma {:induction false} WordsAppend(a: seq<u32>, b: seq<u32>)
    ensures Words(a + b) == Words(a) + Words(b)
  {
    if a == [] {
      assert a + b == b;
    } else {
      assert (a + b)[1..] == a[1..] + b;
      WordsAppend(a[1..], b);
      assert LE32(a[0]) + (Words(a[1..]) + Words(b)) == (LE32(a[0]) + Words(a[1..])) + Words(b);
    }
  }
}
