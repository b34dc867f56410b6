/** From two text files to a translated one: originals and translated pairs are imported, the
    translation is queried and applied, and the file is written. */
module TransPipeline {
  import opened Bytes
  import opened TextFormat
  import opened TextFiles
  import opened TextReading
  import opened TextRoundTrip
  import opened TextPairing
  import opened TextTheorems
  import opened TransTables
  import opened TransImport
  import opened TransDatabase
  import opened TransPatch

  /** No translation that `name` names, or will name, has strings of the file. */
  ghost predicate Untranslated(t: Tables, fileid: int, name: text) {
    forall id :: (id in t.translations ==> t.translations[id] == name) ==> TranslatedOf(t, id, fileid) == {}
  }

  /** Imports the original pairs of a file and then translated ones.  Gives an id under which the
      translation is found, which is in no use if no pair called for one. */
  method ImportBoth(db: Database, fileid: int, version: int, name: text, originals: seq<Pair>, translated: seq<Pair>)
      returns (translation: int)
    requires Unique(db.strings) && Untranslated(db.All(), fileid, name)
    modifies db
    ensures Imported(old(db.All()), db.All(), fileid, translation, originals, translated)
    ensures TranslatedOf(old(db.All()), translation, fileid) == {}
    ensures translation in db.translations ==> db.translations[translation] == name
  {
    hide OriginalsImported, TranslationImported, TranslatedOf;
    var missing, id := db.Import(fileid, originals, Originals(version));
    OriginalsAreUnique(old(db.strings), db.strings, fileid, originals);
    missing, id := db.Import(fileid, translated, Purpose.Translation(name));
    if id.NoId? {
      id := db.QueryTranslation(name);
    }
    if id.Id? {
      translation := id.id;
    } else {
      translation := Database.NewId(db.translations.Keys);
    }
  }

  lemma OriginalsAreUnique(before: map<int, StringRow>, after: map<int, StringRow>, fileid: int, pairs: seq<Pair>)
    requires OriginalsImported(before, after, fileid, pairs, |pairs|)
    ensures Unique(after)
  {
  }

  /** What a translated file holds after patching, before it is written. */
  lemma PatchedFile(before: Tables, after: Tables, fileid: int, translation: int, es: seq<Entry>,
                            translated: seq<Pair>, fs: seq<Entry>)
    requires WellFormed(es) && Referential(before)
    requires Imported(before, after, fileid, translation, PairsOf(es, |es|), translated)
    requires TranslatedOf(before, translation, fileid) == {}
    requires forall j :: 0 <= j < |translated| ==> DoubleByte(translated[j].str)
    requires Patched(after, fileid, translation, PairsOf(es, |es|), es, fs, |PairsOf(es, |es|)|)
    ensures Edited(es, fs) && WellFormed(fs)
  {
    hide *;
    AppliedIsWide(before, after, fileid, translation, es, translated);
    PatchedIsEdited(after, fileid, translation, es, fs);
    EditIsWellFormed(es, fs);
  }

  /** Translates a file.  Its patched entries are written if they fit the format, and reading that
      gives every pair the string of the same occurrence among the translated pairs, if there is
      one, and otherwise the string it had. */
  method TranslateFile(db: Database, fileid: int, version: int, name: text, file: TextFile, translated: seq<Pair>)
      returns (out: seq<byte>, fits: bool, ghost patched: seq<Entry>)
    requires Unique(db.strings) && Referential(db.All()) && Untranslated(db.All(), fileid, name)
    requires WellFormed(file.Entries) && file.Pairs == PairsOf(file.Entries, |file.Entries|)
    requires forall j :: 0 <= j < |translated| ==> DoubleByte(translated[j].str)
    modifies db, file
    ensures Edited(old(file.Entries), patched) && (fits <==> Writable(patched))
    ensures fits ==>
      var pairs := old(file.Pairs);
      var r := ParseFile(out);
      && r.Parsed? && |r.st.pairs| == |pairs|
      && forall k :: 0 <= k < |pairs| ==> r.st.pairs[k] == pairs[k].(str := Wanted(fileid, pairs, translated, k))
  {
    hide WellFormed, Edited, PairsOf, Patched, Differs, Imported, Untranslated, TranslatedOf, Wanted, ParseFile,
      FileBytes, Unique, Referential, Fetched;
    ghost var before, es := db.All(), file.Entries;
    var translation := ImportBoth(db, fileid, version, name, file.Pairs, translated);
    ImportedIsUnique(before, db.All(), fileid, translation, file.Pairs, translated);
    var rows := db.QueryTriples(translation, fileid);
    PairsAreIndexed(es, |es|);
    var dirty := ApplyTranslation(file, rows, db.All(), fileid, translation);
    PatchedFile(before, db.All(), fileid, translation, es, translated, file.Entries);
    EntriesHaveWords(file.Entries);
    patched := file.Entries;
    fits := RoundUp(Rel0Size(file.Entries), 16) + RoundUp(Nof0Size(file.Entries), 16) + 0x40 < 0x1_0000_0000;
    out := [];
    if fits {
      TranslationReachesFile(before, db.All(), fileid, translation, es, translated, file.Entries);
      out := file.Write();
    }
  }

  lemma ImportedIsUnique(before: Tables, after: Tables, fileid: int, translation: int, originals: seq<Pair>,
                         translated: seq<Pair>)
    requires Imported(before, after, fileid, translation, originals, translated)
    ensures Unique(after.strings)
  {
  }
}
