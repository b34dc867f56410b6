/** Importing text files into the database and applying a translation: occurrences of one
    identifier are told apart by how often it has come before. */
module TransImport {
  import opened TextFormat
  import opened TransTables

  /** How often the identifier of pair `k` occurs before it. */
  function Occurrence(pairs: seq<Pair>, k: nat): (n: nat)
    requires k < |pairs|
  {
    Occurrences(pairs, k, pairs[k].identifier)
  }

  /** How often `id` occurs in the first `n` pairs. */
  function Occurrences(pairs: seq<Pair>, n: nat, id: text): nat
    requires n <= |pairs|
  {
    if n == 0 then 0 else Occurrences(pairs, n - 1, id) + (if pairs[n - 1].identifier == id then 1 else 0)
  }

  function KeyAt(fileid: int, pairs: seq<Pair>, k: nat): Key
    requires k < |pairs|
  {
    Key(fileid, pairs[k].identifier, Occurrence(pairs, k))
  }

  lemma {:induction false} OccurrencesGrow(pairs: seq<Pair>, m: nat, n: nat, id: text)
    requires m <= n <= |pairs|
    ensures Occurrences(pairs, m, id) <= Occurrences(pairs, n, id)
    decreases n
  {
    if m < n {
      OccurrencesGrow(pairs, m, n - 1, id);
    }
  }

  /** No two pairs of a file have one key. */
  lemma KeysDiffer(fileid: int, pairs: seq<Pair>, j: nat, k: nat)
    requires j < |pairs| && k < |pairs| && KeyAt(fileid, pairs, j) == KeyAt(fileid, pairs, k)
    ensures j == k
  {
    if j < k {
      OccurrencesGrow(pairs, j + 1, k, pairs[k].identifier);
    } else if k < j {
      OccurrencesGrow(pairs, k + 1, j, pairs[j].identifier);
    }
  }

  /** The pair among the first `n` that has a key, or -1. */
  function Find(fileid: int, pairs: seq<Pair>, n: nat, key: Key): (k: int)
    requires n <= |pairs|
    ensures -1 <= k < n
    ensures k >= 0 ==> KeyAt(fileid, pairs, k) == key
    ensures k < 0 ==> forall j :: 0 <= j < n ==> KeyAt(fileid, pairs, j) != key
  {
    if n == 0 then -1
    else if KeyAt(fileid, pairs, n - 1) == key then n - 1
    else Find(fileid, pairs, n - 1, key)
  }

  lemma FindAt(fileid: int, pairs: seq<Pair>, n: nat, k: nat)
    requires k < n <= |pairs|
    ensures Find(fileid, pairs, n, KeyAt(fileid, pairs, k)) == k
  {
    var j := Find(fileid, pairs, n, KeyAt(fileid, pairs, k));
    if j >= 0 {
      KeysDiffer(fileid, pairs, j, k);
    }
  }

  // ----- Importing original pairs

  /** The row for a key after the originals of the first `n` pairs have been imported. */
  ghost predicate RowImported(row: StringRow, before: StringRow, fileid: int, pairs: seq<Pair>, n: nat)
    requires n <= |pairs|
  {
    var k := Find(fileid, pairs, n, KeyOf(before));
    && KeyOf(row) == KeyOf(before)
    && (k < 0 ==> row == before)
    && (k >= 0 ==> row.value == pairs[k].str)
  }

  /** Every key of the first `n` pairs has a row with the pair's string; rows with other keys
      are as they were, and no row is lost or changes its key. */
  ghost predicate OriginalsImported(before: map<int, StringRow>, after: map<int, StringRow>, fileid: int,
                                    pairs: seq<Pair>, n: nat)
    requires n <= |pairs|
  {
    && Unique(after)
    && (forall s :: s in before ==> s in after && RowImported(after[s], before[s], fileid, pairs, n))
    && (forall s :: s in after && s !in before ==> NewRow(after[s], fileid, pairs, n))
    && forall k :: 0 <= k < n ==> HasKey(after, KeyAt(fileid, pairs, k))
  }

  ghost predicate NewRow(row: StringRow, fileid: int, pairs: seq<Pair>, n: nat)
    requires n <= |pairs|
  {
    var k := Find(fileid, pairs, n, KeyOf(row));
    k >= 0 && row.value == pairs[k].str
  }

  ghost predicate HasKey(strings: map<int, StringRow>, key: Key) {
    exists s :: s in strings && KeyOf(strings[s]) == key
  }

  // ----- Importing translated pairs

  /** The translation that a string has after the translated pairs have been imported: a pair
      only counts if it differs from the original. */
  ghost predicate TranslationImported(strings: map<int, StringRow>, before: map<(int, int), text>,
                                      after: map<(int, int), text>, fileid: int, translation: int, pairs: seq<Pair>,
                                      n: nat)
    requires n <= |pairs|
  {
    forall t, s :: Translated(strings, before, after, fileid, translation, pairs, n, t, s)
  }

  ghost predicate Translated(strings: map<int, StringRow>, before: map<(int, int), text>,
                             after: map<(int, int), text>, fileid: int, translation: int, pairs: seq<Pair>, n: nat,
                             t: int, s: int)
    requires n <= |pairs|
  {
    var k := if t == translation && s in strings then Find(fileid, pairs, n, KeyOf(strings[s])) else -1;
    if k >= 0 && strings[s].value != pairs[k].str then
      (t, s) in after && after[(t, s)] == pairs[k].str
    else
      && ((t, s) in after <==> (t, s) in before)
      && ((t, s) in after ==> after[(t, s)] == before[(t, s)])
  }

  // ----- One more pair

  lemma FindStep(fileid: int, pairs: seq<Pair>, n: nat, key: Key)
    requires n < |pairs|
    ensures Find(fileid, pairs, n + 1, key) == if key == KeyAt(fileid, pairs, n) then n else Find(fileid, pairs, n, key)
    ensures key == KeyAt(fileid, pairs, n) ==> Find(fileid, pairs, n, key) == -1
  {
    var j := Find(fileid, pairs, n, key);
    if key == KeyAt(fileid, pairs, n) && j >= 0 {
      KeysDiffer(fileid, pairs, j, n);
    }
  }

  /** The originals after one more pair: its row has been updated, inserted, or found right. */
  ghost predicate PutAt(strings: map<int, StringRow>, next: map<int, StringRow>, s: int, key: Key, value: text) {
    && s in next && KeyOf(next[s]) == key && next[s].value == value
    && (forall r :: r in next && r != s ==> r in strings && next[r] == strings[r])
    && (forall r :: r in strings ==> r in next)
    && (s in strings ==> KeyOf(strings[s]) == key)
    && (s !in strings ==> !HasKey(strings, key))
  }

  lemma OriginalsStep(before: map<int, StringRow>, now: map<int, StringRow>, next: map<int, StringRow>, s: int,
                      fileid: int, pairs: seq<Pair>, n: nat)
    requires n < |pairs| && OriginalsImported(before, now, fileid, pairs, n)
    requires PutAt(now, next, s, KeyAt(fileid, pairs, n), pairs[n].str)
    ensures OriginalsImported(before, next, fileid, pairs, n + 1)
  {
    var key := KeyAt(fileid, pairs, n);
    var m := n + 1;
    PutKeepsUnique(now, next, s, key, pairs[n].str);
    hide KeyAt, RowImported, NewRow, HasKey, Unique, KeyOf, PutAt;
    forall r | r in before
      ensures r in next && RowImported(next[r], before[r], fileid, pairs, m)
    {
      PutRow(now, next, s, r, key, pairs[n].str);
      RowStep(now[r], next[r], before[r], fileid, pairs, n);
    }
    forall r | r in next && r !in before
      ensures NewRow(next[r], fileid, pairs, m)
    {
      PutRow(now, next, s, r, key, pairs[n].str);
      NewRowStep(next[r], fileid, pairs, n);
    }
    forall k | 0 <= k < m
      ensures HasKey(next, KeyAt(fileid, pairs, k))
    {
      PutHasKey(now, next, s, key, pairs[n].str, KeyAt(fileid, pairs, k));
    }
  }

  /** The row with the key now holds the value; other rows are as they were, with other keys. */
  lemma PutRow(now: map<int, StringRow>, next: map<int, StringRow>, s: int, r: int, key: Key, value: text)
    requires Unique(next) && PutAt(now, next, s, key, value) && (r in now || r in next)
    ensures r in next
    ensures if KeyOf(next[r]) == key then next[r].value == value else r in now && next[r] == now[r]
    ensures r in now ==> KeyOf(next[r]) == KeyOf(now[r])
  {
    hide KeyOf;
  }

  lemma PutHasKey(now: map<int, StringRow>, next: map<int, StringRow>, s: int, key: Key, value: text, other: Key)
    requires PutAt(now, next, s, key, value) && (HasKey(now, other) || other == key)
    ensures HasKey(next, other)
  {
    hide KeyOf;
    if other != key {
      var r :| r in now && KeyOf(now[r]) == other;
      assert r in next && KeyOf(next[r]) == other;
    }
  }

  lemma RowStep(now: StringRow, next: StringRow, before: StringRow, fileid: int, pairs: seq<Pair>, n: nat)
    requires n < |pairs| && RowImported(now, before, fileid, pairs, n) && KeyOf(next) == KeyOf(now)
    requires if KeyOf(next) == KeyAt(fileid, pairs, n) then next.value == pairs[n].str else next == now
    ensures RowImported(next, before, fileid, pairs, n + 1)
  {
    FindStep(fileid, pairs, n, KeyOf(before));
    hide Find, KeyAt, KeyOf;
  }

  lemma NewRowStep(row: StringRow, fileid: int, pairs: seq<Pair>, n: nat)
    requires n < |pairs|
    requires if KeyOf(row) == KeyAt(fileid, pairs, n) then row.value == pairs[n].str else NewRow(row, fileid, pairs, n)
    ensures NewRow(row, fileid, pairs, n + 1)
  {
    FindStep(fileid, pairs, n, KeyOf(row));
    hide Find, KeyAt, KeyOf;
  }

  lemma PutKeepsUnique(now: map<int, StringRow>, next: map<int, StringRow>, s: int, key: Key, value: text)
    requires Unique(now) && PutAt(now, next, s, key, value)
    ensures Unique(next)
  {
    forall a, b | a in next && b in next && KeyOf(next[a]) == KeyOf(next[b])
      ensures a == b
    {
      assert a != s ==> KeyOf(next[a]) == KeyOf(now[a]);
      assert b != s ==> KeyOf(next[b]) == KeyOf(now[b]);
    }
  }

  /** The version of a row after the originals of the first `n` pairs have been imported: that of
      the import for a new row, or one whose text has changed, and otherwise what it was. */
  ghost predicate VersionImported(row: StringRow, s: int, before: map<int, StringRow>, fileid: int, version: int,
                                  pairs: seq<Pair>, n: nat)
    requires n <= |pairs|
  {
    var k := Find(fileid, pairs, n, KeyOf(row));
    row.version
    == if s in before && (k < 0 || before[s].value == pairs[k].str) then before[s].version else version
  }

  ghost predicate VersionsImported(before: map<int, StringRow>, after: map<int, StringRow>, fileid: int, version: int,
                                   pairs: seq<Pair>, n: nat)
    requires n <= |pairs|
  {
    forall s :: s in after ==> VersionImported(after[s], s, before, fileid, version, pairs, n)
  }

  /** The row that a put replaces is as it was before the import. */
  lemma PutReplacesOld(before: map<int, StringRow>, now: map<int, StringRow>, s: int, fileid: int, pairs: seq<Pair>,
                       n: nat)
    requires n < |pairs| && OriginalsImported(before, now, fileid, pairs, n)
    requires s in now ==> KeyOf(now[s]) == KeyAt(fileid, pairs, n)
    ensures s in now <==> s in before
    ensures s in now ==> now[s] == before[s]
  {
    FindStep(fileid, pairs, n, KeyAt(fileid, pairs, n));
    assert s in now ==> s in before || NewRow(now[s], fileid, pairs, n);
    assert s in before ==> RowImported(now[s], before[s], fileid, pairs, n);
  }

  lemma VersionsStep(before: map<int, StringRow>, now: map<int, StringRow>, next: map<int, StringRow>, s: int,
                     fileid: int, version: int, pairs: seq<Pair>, n: nat)
    requires n < |pairs| && OriginalsImported(before, now, fileid, pairs, n) && Unique(next)
    requires VersionsImported(before, now, fileid, version, pairs, n)
    requires PutAt(now, next, s, KeyAt(fileid, pairs, n), pairs[n].str)
    requires next[s].version == if s in now && now[s].value == pairs[n].str then now[s].version else version
    ensures VersionsImported(before, next, fileid, version, pairs, n + 1)
  {
    var key, m := KeyAt(fileid, pairs, n), n + 1;
    PutReplacesOld(before, now, s, fileid, pairs, n);
    hide KeyAt, KeyOf, OriginalsImported, Unique, Find;
    forall r | r in next
      ensures VersionImported(next[r], r, before, fileid, version, pairs, m)
    {
      FindStep(fileid, pairs, n, KeyOf(next[r]));
      PutRow(now, next, s, r, key, pairs[n].str);
      if r != s {
        OtherRow(now, next, s, r, key, pairs[n].str);
        assert VersionImported(now[r], r, before, fileid, version, pairs, n);
      }
    }
  }

  lemma OtherRow(now: map<int, StringRow>, next: map<int, StringRow>, s: int, r: int, key: Key, value: text)
    requires Unique(next) && PutAt(now, next, s, key, value) && r in next && r != s
    ensures KeyOf(next[r]) != key && r in now && next[r] == now[r]
  {
    hide KeyOf;
  }

  lemma NoVersions(strings: map<int, StringRow>, fileid: int, version: int, pairs: seq<Pair>)
    ensures VersionsImported(strings, strings, fileid, version, pairs, 0)
  {
  }

  lemma NothingImported(strings: map<int, StringRow>, fileid: int, pairs: seq<Pair>)
    requires Unique(strings)
    ensures OriginalsImported(strings, strings, fileid, pairs, 0)
  {
  }

  /** Whether `s` is the row with a key, or there is none. */
  ghost predicate Looked(strings: map<int, StringRow>, key: Key, found: bool, s: int) {
    if found then s in strings && KeyOf(strings[s]) == key else !HasKey(strings, key)
  }

  /** The translation strings after one more translated pair. */
  function PutTranslation(strings: map<int, StringRow>, now: map<(int, int), text>, translation: int, found: bool,
                          s: int, str: text): map<(int, int), text>
    requires found ==> s in strings
  {
    if found && strings[s].value != str then now[(translation, s) := str] else now
  }

  lemma TranslationStep(strings: map<int, StringRow>, before: map<(int, int), text>, now: map<(int, int), text>,
                        fileid: int, translation: int, pairs: seq<Pair>, n: nat, found: bool, s: int)
    requires Unique(strings) && n < |pairs|
    requires TranslationImported(strings, before, now, fileid, translation, pairs, n)
    requires Looked(strings, KeyAt(fileid, pairs, n), found, s)
    ensures TranslationImported(strings, before, PutTranslation(strings, now, translation, found, s, pairs[n].str),
                                fileid, translation, pairs, n + 1)
  {
    var next := PutTranslation(strings, now, translation, found, s, pairs[n].str);
    var m := n + 1;
    forall t, r
      ensures Translated(strings, before, next, fileid, translation, pairs, m, t, r)
    {
      assert Translated(strings, before, now, fileid, translation, pairs, n, t, r);
      if t == translation && r in strings {
        FindStep(fileid, pairs, n, KeyOf(strings[r]));
        if KeyOf(strings[r]) == KeyAt(fileid, pairs, n) {
          assert HasKey(strings, KeyAt(fileid, pairs, n));
          assert r == s;
        }
      }
    }
  }

  lemma NothingTranslated(strings: map<int, StringRow>, ts: map<(int, int), text>, fileid: int, translation: int,
                          pairs: seq<Pair>)
    ensures TranslationImported(strings, ts, ts, fileid, translation, pairs, 0)
  {
    forall t, s
      ensures Translated(strings, ts, ts, fileid, translation, pairs, 0, t, s)
    {
    }
  }

  // ----- Applying a translation, and the round trip

  /** The string of a pair after applying a translation: that of the row with its key, if the
      row has one. */
  ghost function Applied(t: Tables, fileid: int, translation: int, pairs: seq<Pair>, k: nat): text
    requires k < |pairs|
  {
    if s :| s in t.strings && KeyOf(t.strings[s]) == KeyAt(fileid, pairs, k) && (translation, s) in t.translationStrings
    then t.translationStrings[(translation, s)]
    else pairs[k].str
  }

  /** What importing and applying is for: the string of the same occurrence in the translated
      file, and the original where there is none. */
  function Wanted(fileid: int, originals: seq<Pair>, translated: seq<Pair>, k: nat): text
    requires k < |originals|
  {
    var j := Find(fileid, translated, |translated|, KeyAt(fileid, originals, k));
    if j >= 0 then translated[j].str else originals[k].str
  }

  /** The pairs before pair `k` that have its identifier. */
  function Earlier(pairs: seq<Pair>, k: nat): set<int>
    requires k < |pairs|
  {
    set i | 0 <= i < k && pairs[i].identifier == pairs[k].identifier
  }

  predicate Counterpart(originals: seq<Pair>, k: nat, translated: seq<Pair>, j: nat)
    requires k < |originals| && j < |translated|
  {
    translated[j].identifier == originals[k].identifier && |Earlier(translated, j)| == |Earlier(originals, k)|
  }

  /** The first `n` pairs that have an identifier. */
  function Having(pairs: seq<Pair>, n: nat, id: text): set<int> {
    set i | 0 <= i < n && i < |pairs| && HasIdentifier(pairs[i], id)
  }

  predicate HasIdentifier(p: Pair, id: text) {
    p.identifier == id
  }

  lemma {:induction false} OccurrencesAre(pairs: seq<Pair>, n: nat, id: text)
    requires n <= |pairs|
    ensures Occurrences(pairs, n, id) == |Having(pairs, n, id)|
  {
    if n > 0 {
      OccurrencesAre(pairs, n - 1, id);
      HavingMore(pairs, n - 1, id);
      hide Having;
    }
  }

  lemma HavingMore(pairs: seq<Pair>, n: nat, id: text)
    requires n < |pairs|
    ensures |Having(pairs, n + 1, id)| == |Having(pairs, n, id)| + if HasIdentifier(pairs[n], id) then 1 else 0
  {
    hide HasIdentifier;
    if HasIdentifier(pairs[n], id) {
      assert Having(pairs, n + 1, id) == Having(pairs, n, id) + {n as int};
    } else {
      assert Having(pairs, n + 1, id) == Having(pairs, n, id);
    }
  }

  /** The number of a pair among those of its identifier. */
  lemma OccurrenceIs(pairs: seq<Pair>, k: nat)
    requires k < |pairs|
    ensures Occurrence(pairs, k) == |Earlier(pairs, k)|
  {
    OccurrencesAre(pairs, k, pairs[k].identifier);
    assert Having(pairs, k, pairs[k].identifier) == Earlier(pairs, k);
  }

  /** The wanted string, by counting: that of the translated pair with the same identifier and as
      many of them before it, or the original if there is no such pair. */
  lemma WantedIs(fileid: int, originals: seq<Pair>, translated: seq<Pair>, k: nat)
    requires k < |originals|
    ensures forall j: nat :: j < |translated| && Counterpart(originals, k, translated, j) ==>
      Wanted(fileid, originals, translated, k) == translated[j].str
    ensures (forall j: nat :: j < |translated| ==> !Counterpart(originals, k, translated, j)) ==>
      Wanted(fileid, originals, translated, k) == originals[k].str
  {
    hide Occurrence, Earlier;
    OccurrenceIs(originals, k);
    forall j: nat | j < |translated|
      ensures Occurrence(translated, j) == |Earlier(translated, j)|
    {
      OccurrenceIs(translated, j);
    }
    forall j: nat | j < |translated| && KeyAt(fileid, translated, j) == KeyAt(fileid, originals, k)
      ensures Wanted(fileid, originals, translated, k) == translated[j].str
    {
      FindAt(fileid, translated, |translated|, j);
    }
    var j := Find(fileid, translated, |translated|, KeyAt(fileid, originals, k));
    assert j >= 0 ==> Counterpart(originals, k, translated, j);
  }

  /** A translation from before that importing does not take back: the pair is not translated,
      or translated as the original. */
  ghost predicate Stale(db: Tables, fileid: int, translation: int, originals: seq<Pair>, translated: seq<Pair>, k: nat)
    requires k < |originals|
  {
    && Wanted(fileid, originals, translated, k) == originals[k].str
    && exists s :: StaleRow(db, fileid, translation, originals, k, s)
  }

  ghost predicate StaleRow(db: Tables, fileid: int, translation: int, originals: seq<Pair>, k: nat, s: int)
    requires k < |originals|
  {
    && s in db.strings && KeyOf(db.strings[s]) == KeyAt(fileid, originals, k)
    && (translation, s) in db.translationStrings
    && db.translationStrings[(translation, s)] != originals[k].str
  }

  /** `after` is `before` with originals imported, and then translated pairs. */
  ghost predicate Imported(before: Tables, after: Tables, fileid: int, translation: int, originals: seq<Pair>,
                           translated: seq<Pair>)
  {
    && OriginalsImported(before.strings, after.strings, fileid, originals, |originals|)
    && TranslationImported(after.strings, before.translationStrings, after.translationStrings, fileid, translation,
                           translated, |translated|)
  }

  lemma AppliedAtRow(t: Tables, fileid: int, translation: int, pairs: seq<Pair>, k: nat, s: int)
    requires k < |pairs| && Unique(t.strings) && s in t.strings && KeyOf(t.strings[s]) == KeyAt(fileid, pairs, k)
    ensures Applied(t, fileid, translation, pairs, k)
      == if (translation, s) in t.translationStrings then t.translationStrings[(translation, s)] else pairs[k].str
  {
  }

  /** Importing originals, importing a translation and applying it to the originals gives pair
      `k` the string of its occurrence in the translated file, exactly unless an earlier
      translation of it is stale. */
  lemma ImportThenApply(before: Tables, after: Tables, fileid: int, translation: int, originals: seq<Pair>,
                        translated: seq<Pair>, k: nat)
    requires Referential(before) && Imported(before, after, fileid, translation, originals, translated)
    requires k < |originals|
    ensures Applied(after, fileid, translation, originals, k) == Wanted(fileid, originals, translated, k)
      <==> !Stale(before, fileid, translation, originals, translated, k)
  {
    hide Find;
    var key := KeyAt(fileid, originals, k);
    assert HasKey(after.strings, key);
    var s :| s in after.strings && KeyOf(after.strings[s]) == key;
    AppliedAtRow(after, fileid, translation, originals, k, s);
    RowHasOriginal(before, after, fileid, originals, k, s);
    assert Translated(after.strings, before.translationStrings, after.translationStrings, fileid, translation,
                      translated, |translated|, translation, s);
    if Wanted(fileid, originals, translated, k) == originals[k].str {
      assert (translation, s) in after.translationStrings <==> (translation, s) in before.translationStrings;
      if (translation, s) in before.translationStrings {
        assert (translation, s).1 in before.strings;
        assert RowImported(after.strings[s], before.strings[s], fileid, originals, |originals|);
        assert StaleRow(before, fileid, translation, originals, k, s)
          <==> before.translationStrings[(translation, s)] != originals[k].str;
      }
      OnlyRow(before, after, fileid, translation, originals, k, s);
    }
  }

  /** The row with the key of a pair has the pair's string. */
  lemma RowHasOriginal(before: Tables, after: Tables, fileid: int, originals: seq<Pair>, k: nat, s: int)
    requires OriginalsImported(before.strings, after.strings, fileid, originals, |originals|)
    requires k < |originals| && s in after.strings && KeyOf(after.strings[s]) == KeyAt(fileid, originals, k)
    ensures after.strings[s].value == originals[k].str
  {
    FindAt(fileid, originals, |originals|, k);
    if s in before.strings {
      assert RowImported(after.strings[s], before.strings[s], fileid, originals, |originals|);
    } else {
      assert NewRow(after.strings[s], fileid, originals, |originals|);
    }
  }

  lemma OnlyRow(before: Tables, after: Tables, fileid: int, translation: int, originals: seq<Pair>, k: nat, s: int)
    requires OriginalsImported(before.strings, after.strings, fileid, originals, |originals|)
    requires k < |originals| && s in after.strings && KeyOf(after.strings[s]) == KeyAt(fileid, originals, k)
    ensures forall r :: StaleRow(before, fileid, translation, originals, k, r) ==> r == s
  {
    forall r | StaleRow(before, fileid, translation, originals, k, r)
      ensures r == s
    {
      assert RowImported(after.strings[r], before.strings[r], fileid, originals, |originals|);
    }
  }

  /** Without earlier translations of the file, the round trip holds for every pair: the n-th
      occurrence of an identifier gets the string of the n-th translated occurrence, and pairs
      without one keep theirs. */
  lemma FreshRoundTrip(before: Tables, after: Tables, fileid: int, translation: int, originals: seq<Pair>,
                       translated: seq<Pair>)
    requires Referential(before) && Imported(before, after, fileid, translation, originals, translated)
    requires TranslatedOf(before, translation, fileid) == {}
    ensures forall k :: 0 <= k < |originals| ==>
      Applied(after, fileid, translation, originals, k) == Wanted(fileid, originals, translated, k)
  {
    forall k | 0 <= k < |originals|
      ensures Applied(after, fileid, translation, originals, k) == Wanted(fileid, originals, translated, k)
    {
      hide Imported, Applied, Wanted;
      ImportThenApply(before, after, fileid, translation, originals, translated, k);
      forall s
        ensures !StaleRow(before, fileid, translation, originals, k, s)
      {
        if StaleRow(before, fileid, translation, originals, k, s) {
          StaleIsTranslated(before, fileid, translation, originals, k, s);
        }
      }
    }
  }

  /** A stale translation: a pair that was translated before, and is so no longer.  Importing
      leaves the old translation, and applying still puts it in. */
  lemma TranslationGoesStale(id: text, original: text, earlier: text)
    requires earlier != original
    ensures var db := Tables(map[], map[], map[1 := StringRow(1, 0, 0, id, original)], map[1 := []], map[(1, 1) := earlier]);
      var originals := [Pair(id, original, 0, 1)];
      && Referential(db) && Unique(db.strings) && Imported(db, db, 1, 1, originals, [])
      && Stale(db, 1, 1, originals, [], 0)
      && Applied(db, 1, 1, originals, 0) == earlier
  {
    var db := Tables(map[], map[], map[1 := StringRow(1, 0, 0, id, original)], map[1 := []], map[(1, 1) := earlier]);
    var originals := [Pair(id, original, 0, 1)];
    var key := KeyAt(1, originals, 0);
    assert KeyOf(db.strings[1]) == key;
    FindAt(1, originals, 1, 0);
    assert RowImported(db.strings[1], db.strings[1], 1, originals, 1);
    assert HasKey(db.strings, key);
    NothingTranslated(db.strings, db.translationStrings, 1, 1, []);
    assert StaleRow(db, 1, 1, originals, 0, 1);
    AppliedAtRow(db, 1, 1, originals, 0, 1);
  }

  lemma StaleIsTranslated(db: Tables, fileid: int, translation: int, originals: seq<Pair>, k: nat, s: int)
    requires k < |originals| && StaleRow(db, fileid, translation, originals, k, s)
    ensures s in TranslatedOf(db, translation, fileid)
  {
    assert (translation, s) in db.translationStrings.Keys && (translation, s).1 == s;
  }
}
