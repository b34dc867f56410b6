/** The translation database, and the two programs that use it: the import of text files and
    the application of a translation to a text file. */
module TransDatabase {
  import opened Bytes
  import opened TextFormat
  import opened TransTables
  import opened TransImport

  datatype Id = NoId | Id(id: int)

  /** What a file is imported as: as originals of a version, or under a named translation. */
  datatype Purpose = Originals(version: int) | Translation(name: text)

  class Database {
    var archives: map<int, seq<byte>>
    var files: map<int, FileRow>
    var strings: map<int, StringRow>
    var translations: map<int, text>
    var translationStrings: map<(int, int), text>

    constructor (t: Tables)
      ensures All() == t
    {
      archives, files, strings := t.archives, t.files, t.strings;
      translations, translationStrings := t.translations, t.translationStrings;
    }

    function All(): Tables
      reads this
    {
      Tables(archives, files, strings, translations, translationStrings)
    }

    /** The row with a key, if there is one. */
    method QueryString(fileid: int, collision: nat, identifier: text) returns (r: Id)
      ensures Looked(strings, Key(fileid, identifier, collision), r.Id?, if r.Id? then r.id else 0)
    {
      var key := Key(fileid, identifier, collision);
      if exists s :: s in strings.Keys && KeyOf(strings[s]) == key {
        var s :| s in strings.Keys && KeyOf(strings[s]) == key;
        r := Id(s);
      } else {
        r := NoId;
      }
    }

    /** Inserts a row under a new id.  The unique index admits it. */
    method InsertString(fileid: int, version: int, collision: nat, identifier: text, value: text) returns (s: int)
      requires !HasKey(strings, Key(fileid, identifier, collision))
      modifies this`strings
      ensures s !in old(strings)
      ensures strings == old(strings)[s := StringRow(fileid, version, collision, identifier, value)]
    {
      s := NewId(strings.Keys);
      strings := strings[s := StringRow(fileid, version, collision, identifier, value)];
    }

    /** Some id that is not in use. */
    static method NewId(used: set<int>) returns (id: int)
      ensures id !in used
    {
      id := 1;
      var rest := used;
      while id in used
        invariant rest <= used && forall k :: k in used && k >= id ==> k in rest
        decreases |rest|
      {
        rest := rest - {id};
        id := id + 1;
      }
    }

    method UpdateString(s: int, version: int, value: text)
      requires s in strings
      modifies this`strings
      ensures strings == old(strings)[s := old(strings)[s].(version := version, value := value)]
    {
      strings := strings[s := strings[s].(version := version, value := value)];
    }

    /** A translation of that name. */
    method QueryTranslation(name: text) returns (r: Id)
      ensures if r.Id? then r.id in translations && translations[r.id] == name
        else forall t :: t in translations ==> translations[t] != name
    {
      if exists t :: t in translations.Keys && translations[t] == name {
        var t :| t in translations.Keys && translations[t] == name;
        r := Id(t);
      } else {
        r := NoId;
      }
    }

    method InsertTranslation(name: text) returns (t: int)
      modifies this`translations
      ensures t !in old(translations) && translations == old(translations)[t := name]
    {
      t := NewId(translations.Keys);
      translations := translations[t := name];
    }

    /** Inserts or updates the translation of a string. */
    method PutTranslationString(translation: int, s: int, value: text)
      modifies this`translationStrings
      ensures translationStrings == old(translationStrings)[(translation, s) := value]
    {
      translationStrings := translationStrings[(translation, s) := value];
    }

    /** `QueryTranslationStringsFile`, and for each row `QueryStringTranslation`: the translated
        strings of a file, in whatever order. */
    method QueryTriples(translation: int, fileid: int) returns (rows: seq<Triple>)
      ensures Fetched(All(), fileid, translation, rows)
    {
      rows := [];
      var rest := translationStrings.Keys;
      while rest != {}
        invariant rest <= translationStrings.Keys
        invariant forall r :: 0 <= r < |rows| ==> rows[r] in TriplesOf(All(), translation, fileid)
        invariant forall s :: s in TranslatedOf(All(), translation, fileid) && (translation, s) !in rest ==>
          TripleOf(All(), translation, s) in rows
        decreases |rest|
      {
        var k :| k in rest;
        rest := rest - {k};
        if k.0 == translation && k.1 in strings && strings[k.1].fileid == fileid {
          assert k.1 in TranslatedOf(All(), translation, fileid);
          rows := rows + [TripleOf(All(), translation, k.1)];
        }
      }
    }

    /** Empties every string and drops those without a translation. */
    method StripTheStrings()
      modifies this`strings
      ensures strings == StripStrings(old(All()))
    {
      strings := map s | s in strings :: strings[s].(value := [], version := 0);
      strings := map s | s in strings && (exists k :: k in translationStrings.Keys && k.1 == s) :: strings[s];
    }

    /** Drops the files without a string. */
    method StripTheFiles()
      modifies this`files
      ensures files == StripFiles(old(All()), strings)
    {
      files := map f | f in files && (exists s :: s in strings.Keys && strings[s].fileid == f) :: files[f];
    }

    /** Drops the archives without a file. */
    method StripTheArchives()
      modifies this`archives
      ensures archives == StripArchives(old(All()), files)
    {
      archives := map a | a in archives && (exists f :: f in files.Keys && files[f].archiveid == a) :: archives[a];
    }

    /** Drops what no translation needs: the strings, then the files, then the archives. */
    method Strip()
      modifies this
      ensures All() == TransTables.Strip(old(All()))
    {
      StripTheStrings();
      StripTheFiles();
      StripTheArchives();
    }

    /** Imports the pairs of a file.  `missing` counts the translated pairs without an original;
        `translation` is the translation that was used, if any pair called for it. */
    method Import(fileid: int, pairs: seq<Pair>, purpose: Purpose) returns (missing: nat, translation: Id)
      requires Unique(strings)
      modifies this
      ensures archives == old(archives) && files == old(files)
      ensures purpose.Originals? ==>
        && OriginalsImported(old(strings), strings, fileid, pairs, |pairs|)
        && VersionsImported(old(strings), strings, fileid, purpose.version, pairs, |pairs|)
        && translations == old(translations) && translationStrings == old(translationStrings)
      ensures purpose.Translation? ==>
        && strings == old(strings)
        && (translation.Id? ==> Named(translations, old(translations), translation.id, purpose.name))
        && (translation.NoId? ==> translations == old(translations))
        && TranslatedUpTo(strings, old(translationStrings), translationStrings, fileid, translation, pairs, |pairs|)
    {
      missing, translation := 0, NoId;
      var collisions: map<text, nat> := map[];
      ghost var before := All();
      NoCounts(pairs);
      NothingDone(before, fileid, pairs, purpose);
      hide Done, Counts, Occurrence;
      for k := 0 to |pairs|
        invariant Counts(collisions, pairs, k) && Done(before, All(), fileid, translation, pairs, purpose, k)
      {
        var p := pairs[k];
        var collision := if p.identifier in collisions then collisions[p.identifier] else 0;
        CountsStep(collisions, pairs, k);
        collisions := collisions[p.identifier := collision + 1];
        var found;
        found, translation := ImportPair(fileid, pairs, k, collision, purpose, translation, before);
        if !found {
          missing := missing + 1;
        }
      }
      DoneSays(before, All(), fileid, translation, pairs, purpose, |pairs|);
    }

    /** What `Import` has done after `n` pairs. */
    static ghost predicate Done(before: Tables, now: Tables, fileid: int, translation: Id, pairs: seq<Pair>,
                                purpose: Purpose, n: nat)
      requires n <= |pairs|
    {
      && now.archives == before.archives && now.files == before.files && Unique(now.strings)
      && match purpose
         case Originals(version) =>
           && OriginalsImported(before.strings, now.strings, fileid, pairs, n)
           && VersionsImported(before.strings, now.strings, fileid, version, pairs, n)
           && now.translations == before.translations && now.translationStrings == before.translationStrings
         case Translation(name) =>
           && now.strings == before.strings
           && (translation.Id? ==> Named(now.translations, before.translations, translation.id, name))
           && (translation.NoId? ==> now.translations == before.translations)
           && TranslatedUpTo(now.strings, before.translationStrings, now.translationStrings, fileid, translation, pairs,
                             n)
    }

    static lemma NothingDone(t: Tables, fileid: int, pairs: seq<Pair>, purpose: Purpose)
      requires Unique(t.strings)
      ensures Done(t, t, fileid, NoId, pairs, purpose, 0)
    {
      NothingImported(t.strings, fileid, pairs);
      forall v {
        NoVersions(t.strings, fileid, v, pairs);
      }
      forall id {
        NothingTranslated(t.strings, t.translationStrings, fileid, id, pairs);
      }
      hide OriginalsImported, VersionsImported, TranslationImported;
    }

    static lemma DoneSays(before: Tables, now: Tables, fileid: int, translation: Id, pairs: seq<Pair>,
                          purpose: Purpose, n: nat)
      requires n <= |pairs| && Done(before, now, fileid, translation, pairs, purpose, n)
      ensures now.archives == before.archives && now.files == before.files
      ensures purpose.Originals? ==>
        && OriginalsImported(before.strings, now.strings, fileid, pairs, n)
        && VersionsImported(before.strings, now.strings, fileid, purpose.version, pairs, n)
        && now.translations == before.translations && now.translationStrings == before.translationStrings
      ensures purpose.Translation? ==>
        && now.strings == before.strings
        && (translation.Id? ==> Named(now.translations, before.translations, translation.id, purpose.name))
        && (translation.NoId? ==> now.translations == before.translations)
        && TranslatedUpTo(now.strings, before.translationStrings, now.translationStrings, fileid, translation, pairs, n)
    {
    }

    /** One pair of either purpose. */
    method ImportPair(fileid: int, pairs: seq<Pair>, k: nat, collision: nat, purpose: Purpose, translation: Id,
                      ghost before: Tables)
        returns (found: bool, translation': Id)
      requires k < |pairs| && collision == Occurrence(pairs, k)
      requires Done(before, All(), fileid, translation, pairs, purpose, k)
      modifies this
      ensures Done(before, All(), fileid, translation', pairs, purpose, k + 1)
    {
      hide OriginalsImported, VersionsImported, TranslatedUpTo, Named, Occurrence, Unique;
      found, translation' := true, translation;
      match purpose {
        case Originals(version) => ImportOriginal(fileid, pairs, k, collision, version, before.strings);
        case Translation(name) =>
          found, translation' := ImportTranslated(fileid, pairs, k, collision, name, translation, before.translations,
                                                  before.translationStrings);
      }
    }

    /** The collision counters after `n` pairs. */
    static ghost predicate Counts(collisions: map<text, nat>, pairs: seq<Pair>, n: nat)
      requires n <= |pairs|
    {
      forall id :: Occurrences(pairs, n, id) == if id in collisions then collisions[id] else 0
    }

    static lemma NoCounts(pairs: seq<Pair>)
      ensures Counts(map[], pairs, 0)
    {
    }

    /** Counting one more pair. */
    static lemma CountsStep(collisions: map<text, nat>, pairs: seq<Pair>, n: nat)
      requires n < |pairs| && Counts(collisions, pairs, n)
      ensures var id := pairs[n].identifier;
        var collision := if id in collisions then collisions[id] else 0;
        collision == Occurrence(pairs, n) && Counts(collisions[id := collision + 1], pairs, n + 1)
    {
    }

    /** The first `n` pairs have been imported under the translation in use; under any, as long
        as no pair has called for one. */
    static ghost predicate TranslatedUpTo(strings: map<int, StringRow>, before: map<(int, int), text>,
                                          now: map<(int, int), text>, fileid: int, translation: Id, pairs: seq<Pair>,
                                          n: nat)
      requires n <= |pairs|
    {
      forall t :: translation.NoId? || t == translation.id ==>
        TranslationImported(strings, before, now, fileid, t, pairs, n)
    }

    /** The named translation, there before or the only new one. */
    static ghost predicate Named(now: map<int, text>, before: map<int, text>, t: int, name: text) {
      && t in now && now[t] == name
      && (now == before || (t !in before && now == before[t := name] && forall u :: u in before ==> before[u] != name))
    }

    /** One pair of an original file: update its row if it differs, or insert one. */
    method ImportOriginal(fileid: int, pairs: seq<Pair>, k: nat, collision: nat, version: int,
                          ghost before: map<int, StringRow>)
      requires k < |pairs| && collision == Occurrence(pairs, k)
      requires OriginalsImported(before, strings, fileid, pairs, k)
      requires VersionsImported(before, strings, fileid, version, pairs, k)
      modifies this`strings
      ensures OriginalsImported(before, strings, fileid, pairs, k + 1) && Unique(strings)
      ensures VersionsImported(before, strings, fileid, version, pairs, k + 1)
    {
      hide Occurrence, VersionsImported;
      var p := pairs[k];
      ghost var now := strings;
      var row := QueryString(fileid, collision, p.identifier);
      ghost var s;
      if row.Id? {
        s := row.id;
        if strings[row.id].value != p.str {
          UpdateString(row.id, version, p.str);
        }
      } else {
        s := InsertString(fileid, version, collision, p.identifier, p.str);
      }
      OriginalsStep(before, now, strings, s, fileid, pairs, k);
      VersionsStep(before, now, strings, s, fileid, version, pairs, k);
    }

    /** One pair of a translated file: where it differs from the original, it becomes the
        translation of it. */
    method ImportTranslated(fileid: int, pairs: seq<Pair>, k: nat, collision: nat, name: text, translation: Id,
                            ghost oldNames: map<int, text>, ghost before: map<(int, int), text>)
        returns (found: bool, translation': Id)
      requires Unique(strings) && k < |pairs| && collision == Occurrence(pairs, k)
      requires translation.Id? ==> Named(translations, oldNames, translation.id, name)
      requires translation.NoId? ==> translations == oldNames
      requires TranslatedUpTo(strings, before, translationStrings, fileid, translation, pairs, k)
      modifies this`translations, this`translationStrings
      ensures translation'.Id? ==> Named(translations, oldNames, translation'.id, name)
      ensures translation'.NoId? ==> translations == oldNames
      ensures TranslatedUpTo(strings, before, translationStrings, fileid, translation', pairs, k + 1)
    {
      hide TranslationImported, Occurrence, Unique;
      translation' := translation;
      var p := pairs[k];
      ghost var now := translationStrings;
      var row := QueryString(fileid, collision, p.identifier);
      found := row.Id?;
      if row.Id? && strings[row.id].value != p.str {
        if translation'.NoId? {
          translation' := QueryTranslation(name);
          if translation'.NoId? {
            var t := InsertTranslation(name);
            translation' := Id(t);
          }
        }
        PutTranslationString(translation'.id, row.id, p.str);
      }
      var n := k + 1;
      forall t | translation'.NoId? || t == translation'.id
        ensures TranslationImported(strings, before, translationStrings, fileid, t, pairs, n)
      {
        TranslationStep(strings, before, now, fileid, t, pairs, k, row.Id?, if row.Id? then row.id else 0);
      }
    }
  }
}
