/** Applying a translation to a text file: pairs are matched by identifier and occurrence, and
    the strings that differ are replaced. */
module TransPatch {
  import opened TextFormat
  import opened TextFiles
  import opened TextReading
  import opened TextRoundTrip
  import opened TextPairing
  import opened TextTheorems
  import opened TransTables
  import opened TransImport
  import opened TransDatabase

  /** Pairs that point to the strings they hold, one after the other, as reading leaves them. */
  ghost predicate Indexed(pairs: seq<Pair>, es: seq<Entry>) {
    && (forall k :: 0 <= k < |pairs| ==>
      pairs[k].stringIndex < |es| && es[pairs[k].stringIndex].text == pairs[k].str
      && es[pairs[k].stringIndex].status == String)
    && forall j, k :: 0 <= j < k < |pairs| ==> pairs[j].stringIndex < pairs[k].stringIndex
  }

  /** The entries after the first `n` pairs have been patched. */
  ghost predicate Patched(t: Tables, fileid: int, translation: int, pairs: seq<Pair>, es: seq<Entry>, now: seq<Entry>,
                          n: nat)
    requires n <= |pairs|
  {
    && |now| == |es|
    && (forall k :: 0 <= k < n && pairs[k].stringIndex < |es| ==>
      now[pairs[k].stringIndex]
        == es[pairs[k].stringIndex].(text := Applied(t, fileid, translation, pairs, k)))
    && forall i :: 0 <= i < |es| && (forall k :: 0 <= k < n ==> pairs[k].stringIndex != i) ==> now[i] == es[i]
  }

  /** Some string of the first `n` pairs is replaced by another. */
  ghost predicate Differs(t: Tables, fileid: int, translation: int, pairs: seq<Pair>, n: nat)
    requires n <= |pairs|
  {
    exists k :: 0 <= k < n && Applied(t, fileid, translation, pairs, k) != pairs[k].str
  }

  /** The first row for an identifier and an occurrence. */
  method FindRow(rows: seq<Triple>, identifier: text, collision: nat) returns (r: int)
    ensures -1 <= r < |rows|
    ensures r >= 0 ==> rows[r].identifier == identifier && rows[r].collision == collision
    ensures r < 0 ==> forall q :: 0 <= q < |rows| ==> rows[q].identifier != identifier || rows[q].collision != collision
  {
    for i := 0 to |rows|
      invariant forall q :: 0 <= q < i ==> rows[q].identifier != identifier || rows[q].collision != collision
    {
      if rows[i].identifier == identifier && rows[i].collision == collision {
        return i;
      }
    }
    r := -1;
  }

  /** What the matching row says is what the database says. */
  lemma RowIsApplied(t: Tables, fileid: int, translation: int, pairs: seq<Pair>, k: nat, rows: seq<Triple>, r: int)
    requires Unique(t.strings) && Fetched(t, fileid, translation, rows) && k < |pairs| && -1 <= r < |rows|
    requires r >= 0 ==> rows[r].identifier == pairs[k].identifier && rows[r].collision == Occurrence(pairs, k)
    requires r < 0 ==> forall q :: 0 <= q < |rows| ==>
      rows[q].identifier != pairs[k].identifier || rows[q].collision != Occurrence(pairs, k)
    ensures Applied(t, fileid, translation, pairs, k) == if r >= 0 then rows[r].translation else pairs[k].str
  {
    hide Occurrence;
    if r >= 0 {
      assert rows[r] in TriplesOf(t, translation, fileid);
      var s :| s in TranslatedOf(t, translation, fileid) && TripleOf(t, translation, s) == rows[r];
      AppliedAtRow(t, fileid, translation, pairs, k, s);
    } else {
      forall s | s in t.strings && KeyOf(t.strings[s]) == KeyAt(fileid, pairs, k)
        ensures (translation, s) !in t.translationStrings
      {
        if (translation, s) in t.translationStrings {
          NoSuchRow(t, fileid, translation, rows, s);
        }
      }
    }
  }

  lemma NoSuchRow(t: Tables, fileid: int, translation: int, rows: seq<Triple>, s: int)
    requires Fetched(t, fileid, translation, rows)
    requires s in t.strings && t.strings[s].fileid == fileid && (translation, s) in t.translationStrings
    ensures TripleOf(t, translation, s) in rows
  {
    assert (translation, s) in t.translationStrings.Keys && (translation, s).1 == s;
    assert s in TranslatedOf(t, translation, fileid);
  }

  /** Applies the translation strings of a file to its entries. */
  method ApplyTranslation(file: TextFile, rows: seq<Triple>, ghost t: Tables, ghost fileid: int, ghost translation: int)
      returns (dirty: bool)
    requires Unique(t.strings) && Fetched(t, fileid, translation, rows) && Indexed(file.Pairs, file.Entries)
    modifies file`Entries
    ensures Patched(t, fileid, translation, file.Pairs, old(file.Entries), file.Entries, |file.Pairs|)
    ensures dirty <==> Differs(t, fileid, translation, file.Pairs, |file.Pairs|)
  {
    hide Applied, Fetched, Unique, Patched, Differs, Occurrence;
    dirty := false;
    var collisions: map<text, nat> := map[];
    ghost var es := file.Entries;
    NothingPatched(t, fileid, translation, file.Pairs, es);
    for k := 0 to |file.Pairs|
      invariant Database.Counts(collisions, file.Pairs, k)
      invariant |file.Entries| == |es| && Patched(t, fileid, translation, file.Pairs, es, file.Entries, k)
      invariant dirty <==> Differs(t, fileid, translation, file.Pairs, k)
    {
      var p := file.Pairs[k];
      var collision := if p.identifier in collisions then collisions[p.identifier] else 0;
      Database.CountsStep(collisions, file.Pairs, k);
      collisions := collisions[p.identifier := collision + 1];
      PatchedStep(t, fileid, translation, file.Pairs, es, file.Entries, k);
      var r := FindRow(rows, p.identifier, collision);
      RowIsApplied(t, fileid, translation, file.Pairs, k, rows, r);
      if r >= 0 && p.str != rows[r].translation {
        var entry := file.Entries[p.stringIndex];
        file.Entries := file.Entries[p.stringIndex := entry.(text := rows[r].translation)];
        dirty := true;
      }
    }
  }

  lemma NothingPatched(t: Tables, fileid: int, translation: int, pairs: seq<Pair>, es: seq<Entry>)
    ensures Patched(t, fileid, translation, pairs, es, es, 0) && !Differs(t, fileid, translation, pairs, 0)
  {
  }

  /** One more pair: its string is replaced, or is already what it is to be. */
  lemma PatchedStep(t: Tables, fileid: int, translation: int, pairs: seq<Pair>, es: seq<Entry>, now: seq<Entry>, k: nat)
    requires k < |pairs| && Indexed(pairs, es) && Patched(t, fileid, translation, pairs, es, now, k)
    ensures var i, str := pairs[k].stringIndex, Applied(t, fileid, translation, pairs, k);
      && i < |es| == |now|
      && Patched(t, fileid, translation, pairs, es, now[i := now[i].(text := str)], k + 1)
      && (str == pairs[k].str ==> Patched(t, fileid, translation, pairs, es, now, k + 1))
      && (Differs(t, fileid, translation, pairs, k + 1)
          <==> Differs(t, fileid, translation, pairs, k) || str != pairs[k].str)
  {
    hide Applied;
    assert now[pairs[k].stringIndex] == es[pairs[k].stringIndex];
  }

  // ----- From one file to the other

  lemma {:induction false} PairsAreIndexed(es: seq<Entry>, n: nat)
    requires WellFormed(es) && n <= |es|
    ensures Indexed(PairsOf(es, n), es) && Below(PairsOf(es, n), n)
  {
    hide WellFormed, Track;
    if n > 0 {
      PairsAreIndexed(es, n - 1);
      StatusFits(es, n - 1);
    }
  }

  lemma StatusFits(es: seq<Entry>, i: nat)
    requires WellFormed(es) && i < |es|
    ensures es[i].status != Plain ==> es[i].status == TextStatus(Track(es, i))
  {
    assert EntryFits(es[i], Track(es, i));
  }

  lemma {:induction false} RefreshedAt(ps: seq<Pair>, fs: seq<Entry>, k: nat)
    requires Below(ps, |fs|) && k < |ps|
    ensures |Refreshed(ps, fs)| == |ps| && Refreshed(ps, fs)[k] == ps[k].(str := fs[ps[k].stringIndex].text)
  {
    if |ps| > 1 {
      RefreshedAt(ps[..|ps| - 1], fs, if k < |ps| - 1 then k else 0);
    }
  }

  lemma PatchedIsEdited(t: Tables, fileid: int, translation: int, es: seq<Entry>, fs: seq<Entry>)
    requires WellFormed(es)
    requires var pairs := PairsOf(es, |es|);
      && Patched(t, fileid, translation, pairs, es, fs, |pairs|)
      && forall k :: 0 <= k < |pairs| ==> DoubleByte(Applied(t, fileid, translation, pairs, k))
    ensures Edited(es, fs)
  {
    var pairs := PairsOf(es, |es|);
    PairsAreIndexed(es, |es|);
    hide Applied;
    forall i | 0 <= i < |es|
      ensures if es[i].status.String? then fs[i] == es[i].(text := fs[i].text) && DoubleByte(fs[i].text)
        else fs[i] == es[i]
    {
      if k :| 0 <= k < |pairs| && pairs[k].stringIndex == i {
        assert fs[i] == es[i].(text := Applied(t, fileid, translation, pairs, k));
      } else {
        assert fs[i] == es[i];
        assert EntryFits(es[i], Track(es, i));
      }
    }
  }

  /** A file that is read, patched, written and read again has the applied translation in
      every pair, and its identifiers and its other entries as before. */
  lemma PatchedFileReadsTranslated(t: Tables, fileid: int, translation: int, es: seq<Entry>, fs: seq<Entry>)
    requires WellFormed(es) && Writable(fs)
    requires var pairs := PairsOf(es, |es|);
      && Patched(t, fileid, translation, pairs, es, fs, |pairs|)
      && forall k :: 0 <= k < |pairs| ==> DoubleByte(Applied(t, fileid, translation, pairs, k))
    ensures var pairs := PairsOf(es, |es|);
      var r := ParseFile(FileBytes(fs));
      && r.Parsed? && |r.st.pairs| == |pairs|
      && forall k :: 0 <= k < |pairs| ==>
        r.st.pairs[k] == pairs[k].(str := Applied(t, fileid, translation, pairs, k))
  {
    hide WellFormed, Writable, Applied, ParseFile, FileBytes, PairsOf, Refreshed, Edited, Patched;
    var pairs := PairsOf(es, |es|);
    PatchedIsEdited(t, fileid, translation, es, fs);
    PairsAreIndexed(es, |es|);
    EditIsLocal(es, fs);
    NoPairs(es, fs);
    forall k | 0 <= k < |pairs|
      ensures |Refreshed(pairs, fs)| == |pairs|
      ensures Refreshed(pairs, fs)[k] == pairs[k].(str := Applied(t, fileid, translation, pairs, k))
    {
      RefreshedAt(pairs, fs, k);
      PatchedText(t, fileid, translation, pairs, es, fs, k);
    }
    assert pairs != [] ==> |Refreshed(pairs, fs)| == |pairs| by {
      if pairs != [] {
        RefreshedAt(pairs, fs, 0);
      }
    }
  }

  lemma PatchedText(t: Tables, fileid: int, translation: int, pairs: seq<Pair>, es: seq<Entry>, fs: seq<Entry>, k: nat)
    requires k < |pairs| && pairs[k].stringIndex < |es|
    requires Patched(t, fileid, translation, pairs, es, fs, |pairs|)
    ensures |fs| == |es| && fs[pairs[k].stringIndex].text == Applied(t, fileid, translation, pairs, k)
  {
    hide Applied;
  }

  /** The whole pipeline: originals and a translated file are imported, the translation is
      applied to the original file, and the result is written.  Reading it gives every pair the
      string of the same occurrence in the translated file, and leaves the others. */
  lemma TranslationReachesFile(before: Tables, after: Tables, fileid: int, translation: int, es: seq<Entry>,
                               translated: seq<Pair>, fs: seq<Entry>)
    requires WellFormed(es) && Writable(fs) && Referential(before)
    requires Imported(before, after, fileid, translation, PairsOf(es, |es|), translated)
    requires TranslatedOf(before, translation, fileid) == {}
    requires forall j :: 0 <= j < |translated| ==> DoubleByte(translated[j].str)
    requires Patched(after, fileid, translation, PairsOf(es, |es|), es, fs, |PairsOf(es, |es|)|)
    ensures var pairs := PairsOf(es, |es|);
      var r := ParseFile(FileBytes(fs));
      && r.Parsed? && |r.st.pairs| == |pairs|
      && forall k :: 0 <= k < |pairs| ==> r.st.pairs[k] == pairs[k].(str := Wanted(fileid, pairs, translated, k))
  {
    hide *;
    FreshRoundTrip(before, after, fileid, translation, PairsOf(es, |es|), translated);
    AppliedIsWide(before, after, fileid, translation, es, translated);
    PatchedFileReadsTranslated(after, fileid, translation, es, fs);
  }

  lemma AppliedIsWide(before: Tables, after: Tables, fileid: int, translation: int, es: seq<Entry>,
                      translated: seq<Pair>)
    requires WellFormed(es) && Referential(before)
    requires Imported(before, after, fileid, translation, PairsOf(es, |es|), translated)
    requires TranslatedOf(before, translation, fileid) == {}
    requires forall j :: 0 <= j < |translated| ==> DoubleByte(translated[j].str)
    ensures var pairs := PairsOf(es, |es|);
      forall k :: 0 <= k < |pairs| ==> DoubleByte(Applied(after, fileid, translation, pairs, k))
  {
    var pairs := PairsOf(es, |es|);
    FreshRoundTrip(before, after, fileid, translation, pairs, translated);
    PairsAreIndexed(es, |es|);
    hide Applied, PairsOf, Imported;
    forall k | 0 <= k < |pairs|
      ensures DoubleByte(Applied(after, fileid, translation, pairs, k))
    {
      OriginalIsWide(es, pairs, k);
    }
  }

  lemma OriginalIsWide(es: seq<Entry>, pairs: seq<Pair>, k: nat)
    requires WellFormed(es) && Indexed(pairs, es) && k < |pairs|
    ensures DoubleByte(pairs[k].str)
  {
    var i := pairs[k].stringIndex;
    assert EntryFits(es[i], Track(es, i));
  }
}
