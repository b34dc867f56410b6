/** The tables of the translation database, and what patching reads of them. */
module TransTables {
  import opened Bytes
  import opened TextFormat

  datatype FileRow = FileRow(archiveid: int, name: text)

  datatype StringRow = StringRow(fileid: int, version: int, collision: nat, identifier: text, value: text)

  /** Rows by primary key.  A translation string is keyed by its unique index: the translation
      and the string it belongs to. */
  datatype Tables = Tables(archives: map<int, seq<byte>>,
                           files: map<int, FileRow>,
                           strings: map<int, StringRow>,
                           translations: map<int, text>,
                           translationStrings: map<(int, int), text>)

  /** The columns of the unique index on strings. */
  datatype Key = Key(fileid: int, identifier: text, collision: nat)

  function KeyOf(row: StringRow): Key {
    Key(row.fileid, row.identifier, row.collision)
  }

  ghost predicate Unique(strings: map<int, StringRow>) {
    forall a, b :: a in strings && b in strings && KeyOf(strings[a]) == KeyOf(strings[b]) ==> a == b
  }

  /** Translation strings belong to strings that exist. */
  ghost predicate Referential(t: Tables) {
    forall k :: k in t.translationStrings ==> k.1 in t.strings
  }

  // ----- Queries

  /** `QueryFiles`. */
  function FilesOf(t: Tables, archiveid: int): set<int> {
    set f | f in t.files && t.files[f].archiveid == archiveid
  }

  /** `QueryTranslationStringsFile`, as the strings that have a translation. */
  function TranslatedOf(t: Tables, translation: int, fileid: int): set<int> {
    set k <- t.translationStrings.Keys
      | k.0 == translation && k.1 in t.strings && t.strings[k.1].fileid == fileid :: k.1
  }

  /** `QueryArchivesTranslation`: the archives that a join over all tables leads to. */
  ghost function ArchivesOf(t: Tables, translation: int): set<int> {
    set a | a in t.archives && exists s, f :: Leads(t, translation, s, f, a)
  }

  ghost predicate Leads(t: Tables, translation: int, s: int, f: int, a: int) {
    && (translation, s) in t.translationStrings
    && s in t.strings && t.strings[s].fileid == f
    && f in t.files && t.files[f].archiveid == a
  }

  /** An identifier with its occurrence and its translation, as patching matches it. */
  datatype Triple = Triple(identifier: text, collision: nat, translation: text)

  function TripleOf(t: Tables, translation: int, s: int): Triple
    requires s in t.strings && (translation, s) in t.translationStrings
  {
    Triple(t.strings[s].identifier, t.strings[s].collision, t.translationStrings[(translation, s)])
  }

  /** What patching a file uses. */
  function TriplesOf(t: Tables, translation: int, fileid: int): set<Triple> {
    set s <- TranslatedOf(t, translation, fileid) :: TripleOf(t, translation, s)
  }

  /** The files of an archive that patching does not skip. */
  function PatchedFiles(t: Tables, translation: int, archiveid: int): set<int> {
    set f | f in FilesOf(t, archiveid) && TranslatedOf(t, translation, f) != {}
  }

  /** The rows that a query for the translated strings of a file returns, in any order, with
      their identifiers and occurrences. */
  ghost predicate Fetched(t: Tables, fileid: int, translation: int, rows: seq<Triple>) {
    && (forall r :: 0 <= r < |rows| ==> rows[r] in TriplesOf(t, translation, fileid))
    && forall x :: x in TriplesOf(t, translation, fileid) ==> x in rows
  }

  // ----- Stripping

  function StripStrings(t: Tables): map<int, StringRow> {
    map s | s in t.strings && (exists k :: k in t.translationStrings.Keys && k.1 == s)
      :: t.strings[s].(value := [], version := 0)
  }

  function StripFiles(t: Tables, strings: map<int, StringRow>): map<int, FileRow> {
    map f | f in t.files && (exists s :: s in strings.Keys && strings[s].fileid == f) :: t.files[f]
  }

  function StripArchives(t: Tables, files: map<int, FileRow>): map<int, seq<byte>> {
    map a | a in t.archives && (exists f :: f in files.Keys && files[f].archiveid == a) :: t.archives[a]
  }

  /** `Strip`: one statement after the other. */
  function Strip(t: Tables): Tables {
    var strings := StripStrings(t);
    var files := StripFiles(t, strings);
    t.(strings := strings, files := files, archives := StripArchives(t, files))
  }

  lemma StripKeepsTranslated(t: Tables, translation: int, fileid: int)
    ensures TranslatedOf(Strip(t), translation, fileid) == TranslatedOf(t, translation, fileid)
    ensures TriplesOf(Strip(t), translation, fileid) == TriplesOf(t, translation, fileid)
  {
    var u := Strip(t);
    forall s
      ensures s in TranslatedOf(u, translation, fileid) <==> s in TranslatedOf(t, translation, fileid)
    {
      assert s in TranslatedOf(t, translation, fileid) ==> (translation, s) in t.translationStrings.Keys;
      assert s in TranslatedOf(u, translation, fileid) ==> (translation, s) in u.translationStrings.Keys;
      if (translation, s) in t.translationStrings.Keys {
        assert (translation, s).1 == s;
      }
    }
    assert forall s :: s in TranslatedOf(t, translation, fileid) ==> TripleOf(u, translation, s) == TripleOf(t, translation, s);
  }

  lemma StripKeepsLeads(t: Tables, translation: int, s: int, f: int, a: int)
    ensures Leads(Strip(t), translation, s, f, a) <==> Leads(t, translation, s, f, a)
    ensures Leads(t, translation, s, f, a) && a in t.archives ==> a in Strip(t).archives
  {
    if (translation, s) in t.translationStrings.Keys {
      assert (translation, s).1 == s;
    }
    if Leads(t, translation, s, f, a) {
      var strings := StripStrings(t);
      assert s in strings.Keys && strings[s].fileid == f;
      var files := StripFiles(t, strings);
      assert f in files.Keys && files[f].archiveid == a;
    }
  }

  /** Stripping does not change what any translation patches: the archives with their names,
      the files with their names, and the triples that are matched against a file. */
  lemma StripPreservesPatching(t: Tables, translation: int)
    ensures var u := Strip(t);
      && ArchivesOf(u, translation) == ArchivesOf(t, translation)
      && (forall a :: a in ArchivesOf(t, translation) ==>
        && u.archives[a] == t.archives[a]
        && PatchedFiles(u, translation, a) == PatchedFiles(t, translation, a)
        && forall f :: f in PatchedFiles(t, translation, a) ==>
          u.files[f] == t.files[f] && TriplesOf(u, translation, f) == TriplesOf(t, translation, f))
      && u.translations == t.translations
  {
    var u := Strip(t);
    hide Strip, Leads, TriplesOf, TranslatedOf;
    forall a
      ensures a in ArchivesOf(u, translation) <==> a in ArchivesOf(t, translation)
    {
      StripShrinks(t);
      if a in ArchivesOf(t, translation) {
        var s, f :| Leads(t, translation, s, f, a);
        StripKeepsLeads(t, translation, s, f, a);
      }
      if a in ArchivesOf(u, translation) {
        var s, f :| Leads(u, translation, s, f, a);
        StripKeepsLeads(t, translation, s, f, a);
      }
    }
    StripShrinks(t);
    forall a, f | a in ArchivesOf(t, translation)
      ensures f in PatchedFiles(u, translation, a) <==> f in PatchedFiles(t, translation, a)
      ensures f in PatchedFiles(t, translation, a) ==>
        u.files[f] == t.files[f] && TriplesOf(u, translation, f) == TriplesOf(t, translation, f)
    {
      StripKeepsTranslated(t, translation, f);
      StripKeepsFiles(t, translation, f);
    }
  }

  lemma StripShrinks(t: Tables)
    ensures var u := Strip(t);
      && u.translations == t.translations && u.translationStrings == t.translationStrings
      && (forall a :: a in u.archives ==> a in t.archives && u.archives[a] == t.archives[a])
      && forall f :: f in u.files ==> f in t.files && u.files[f] == t.files[f]
  {
  }

  lemma StripKeepsFiles(t: Tables, translation: int, f: int)
    ensures f in t.files && TranslatedOf(t, translation, f) != {} ==> f in Strip(t).files
  {
    var translated := TranslatedOf(t, translation, f);
    if forall s :: s !in translated {
      assert translated == {};
    } else if f in t.files {
      var s :| s in translated;
      assert (translation, s) in t.translationStrings.Keys && (translation, s).1 == s;
      var strings := StripStrings(t);
      assert s in strings.Keys && strings[s].fileid == f;
    }
  }

  /** What is left, row by row: the strings that some translation translates, without their
      original texts and versions; the files of those; and the archives of these files. */
  lemma StripLeaves(t: Tables)
    ensures var u := Strip(t);
      && (forall s :: s in u.strings <==> s in t.strings && exists k :: k in t.translationStrings && k.1 == s)
      && (forall s :: s in u.strings ==>
        && u.strings[s].value == [] && u.strings[s].version == 0
        && u.strings[s].fileid == t.strings[s].fileid
        && u.strings[s].identifier == t.strings[s].identifier
        && u.strings[s].collision == t.strings[s].collision)
      && (forall f :: f in u.files <==> f in t.files && exists s :: s in u.strings && u.strings[s].fileid == f)
      && (forall f :: f in u.files ==> u.files[f] == t.files[f])
      && (forall a :: a in u.archives <==> a in t.archives && exists f :: f in u.files && u.files[f].archiveid == a)
      && (forall a :: a in u.archives ==> u.archives[a] == t.archives[a])
      && u.translations == t.translations && u.translationStrings == t.translationStrings
  {
    var u := Strip(t);
    assert forall k :: k in t.translationStrings <==> k in t.translationStrings.Keys;
    assert forall s :: s in u.strings <==> s in u.strings.Keys;
    assert forall f :: f in u.files <==> f in u.files.Keys;
  }

  /** A stripped database is stripped no further, and holds no string without a translation. */
  lemma StripIsIdempotent(t: Tables)
    ensures Strip(Strip(t)) == Strip(t)
    ensures forall s :: s in Strip(t).strings ==> exists k :: k in t.translationStrings && k.1 == s
  {
    var u := Strip(t);
    assert StripStrings(u) == u.strings;
    FilesAreUsed(t);
  }

  lemma FilesAreUsed(t: Tables)
    ensures var u := Strip(t);
      && StripFiles(u, u.strings) == u.files
      && StripArchives(u, u.files) == u.archives
  {
  }
}
