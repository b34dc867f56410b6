/** Patch lists: their index by base name, and the algebra of diffing and merging. */
module PatchLists {

  datatype Entry = Entry(path: string, size: int, md5: seq<int>)

  /** The path without its trailing slashes. */
  function TrimSlashes(p: string): string {
    if p != [] && p[|p| - 1] == '/' then TrimSlashes(p[..|p| - 1]) else p
  }

  /** The part behind the last slash. */
  function LastPart(p: string): string {
    if p == [] || p[|p| - 1] == '/' then [] else LastPart(p[..|p| - 1]) + [p[|p| - 1]]
  }

  /** `path.Base`. */
  function BaseName(e: Entry): string {
    if e.path == [] then "."
    else
      var trimmed := TrimSlashes(e.path);
      if trimmed == [] then "/" else LastPart(trimmed)
  }

  function Slashes(m: nat): string {
    seq(m, _ => '/')
  }

  lemma {:induction false} TrimsSlashes(p: string, m: nat)
    requires p == [] || p[|p| - 1] != '/'
    ensures TrimSlashes(p + Slashes(m)) == p
  {
    if m == 0 {
      assert p + Slashes(0) == p;
    } else {
      assert (p + Slashes(m))[..|p + Slashes(m)| - 1] == p + Slashes(m - 1);
      TrimsSlashes(p, m - 1);
    }
  }

  lemma {:induction false} LastPartIs(d: string, n: string)
    requires '/' !in n && (d == [] || d[|d| - 1] == '/')
    ensures LastPart(d + n) == n
  {
    if n == [] {
      assert d + n == d;
    } else {
      var k := |n| - 1;
      assert (d + n)[..|d + n| - 1] == d + n[..k] && (d + n)[|d + n| - 1] == n[k];
      assert n[k] in n && forall c :: c in n[..k] ==> c in n;
      LastPartIs(d, n[..k]);
      assert n[..k] + [n[k]] == n;
    }
  }

  /** The name of a path is what stands behind its last slash, when slashes at its end are left
      aside; `d` is empty or a directory with its slash. */
  lemma NameOfPath(d: string, n: string, m: nat, e: Entry)
    requires e.path == d + n + Slashes(m) && n != [] && '/' !in n && (d == [] || d[|d| - 1] == '/')
    ensures BaseName(e) == n
  {
    assert n[|n| - 1] in n && (d + n)[|d + n| - 1] == n[|n| - 1];
    TrimsSlashes(d + n, m);
    LastPartIs(d, n);
  }

  /** The two paths without such a part. */
  lemma NamelessPaths(m: nat, e: Entry)
    requires e.path == Slashes(m)
    ensures BaseName(e) == if m == 0 then "." else "/"
  {
    TrimsSlashes([], m);
    assert [] + Slashes(m) == Slashes(m);
  }

  datatype Lookup = Missing | Found(entry: Entry)

  /** The last entry of a name: what the index has to say. */
  function Last(es: seq<Entry>, name: string): Lookup {
    if es == [] then Missing
    else if BaseName(es[|es| - 1]) == name then Found(es[|es| - 1])
    else Last(es[..|es| - 1], name)
  }

  predicate SameFile(a: Entry, b: Entry) {
    a.size == b.size && a.md5 == b.md5
  }

  /** An entry that the other list does not have, or has with another size or hash. */
  predicate Differs(e: Entry, o: Lookup) {
    o.Missing? || !SameFile(e, o.entry)
  }

  /** `Diff`: the entries that the other list does not have alike. */
  function Changes(es: seq<Entry>, old': seq<Entry>): seq<Entry> {
    if es == [] then []
    else
      var e := es[|es| - 1];
      Changes(es[..|es| - 1], old') + (if Differs(e, Last(old', BaseName(e))) then [e] else [])
  }

  /** The entries of `es` whose name `p` does not have. */
  function Unnamed(p: seq<Entry>, es: seq<Entry>): seq<Entry> {
    if es == [] then []
    else
      var e := es[|es| - 1];
      Unnamed(p, es[..|es| - 1]) + (if Last(p, BaseName(e)).Missing? then [e] else [])
  }

  /** `MergeOld`. */
  function Merged(p: seq<Entry>, old': seq<Entry>): seq<Entry> {
    p + Unnamed(p, old')
  }

  lemma {:induction false} LastOfConcat(a: seq<Entry>, b: seq<Entry>, name: string)
    ensures Last(a + b, name) == if Last(b, name).Found? then Last(b, name) else Last(a, name)
  {
    if b == [] {
      assert a + b == a;
    } else {
      assert (a + b)[..|a + b| - 1] == a + b[..|b| - 1];
      LastOfConcat(a, b[..|b| - 1], name);
    }
  }

  lemma {:induction false} LastOfUnnamed(p: seq<Entry>, es: seq<Entry>, name: string)
    ensures Last(Unnamed(p, es), name) == if Last(p, name).Missing? then Last(es, name) else Missing
  {
    if es != [] {
      var n := |es| - 1;
      LastOfUnnamed(p, es[..n], name);
      var kept := if Last(p, BaseName(es[n])).Missing? then [es[n]] else [];
      LastOfConcat(Unnamed(p, es[..n]), kept, name);
      assert kept != [] ==> kept[..0] == [];
    }
  }

  /** Looking up a name in a merged list gives the last entry of the newer list if it has one,
      and otherwise that of the older. */
  lemma MergeLookup(p: seq<Entry>, old': seq<Entry>, name: string)
    ensures Last(Merged(p, old'), name) == if Last(p, name).Found? then Last(p, name) else Last(old', name)
  {
    LastOfUnnamed(p, old', name);
    LastOfConcat(p, Unnamed(p, old'), name);
  }

  /** The last entry of a name that differs from the older list, if any does. */
  function LastChange(es: seq<Entry>, old': seq<Entry>, name: string): Lookup {
    if es == [] then Missing
    else
      var e := es[|es| - 1];
      if BaseName(e) == name && Differs(e, Last(old', name)) then Found(e)
      else LastChange(es[..|es| - 1], old', name)
  }

  lemma {:induction false} LastOfChanges(es: seq<Entry>, old': seq<Entry>, name: string)
    ensures Last(Changes(es, old'), name) == LastChange(es, old', name)
  {
    if es != [] {
      var n := |es| - 1;
      LastOfChanges(es[..n], old', name);
      var kept := if Differs(es[n], Last(old', BaseName(es[n]))) then [es[n]] else [];
      LastOfConcat(Changes(es[..n], old'), kept, name);
      assert kept != [] ==> kept[..0] == [];
    }
  }

  ghost predicate Agrees(a: Lookup, b: Lookup) {
    a.Found? && b.Found? && a.entry.size == b.entry.size && a.entry.md5 == b.entry.md5
  }

  /** The last entry of the name is like that of the older list, but an entry before it is not. */
  ghost predicate Shadowed(p: seq<Entry>, old': seq<Entry>, name: string) {
    && Last(p, name).Found? && !Differs(Last(p, name).entry, Last(old', name))
    && exists i :: 0 <= i < |p| && BaseName(p[i]) == name && Differs(p[i], Last(old', name))
  }

  lemma {:induction false} LastChangeDiffers(es: seq<Entry>, old': seq<Entry>, name: string)
    ensures var c := LastChange(es, old', name);
      && (c.Found? ==> BaseName(c.entry) == name && Differs(c.entry, Last(old', name)))
      && (c.Found? <==> exists i :: 0 <= i < |es| && BaseName(es[i]) == name && Differs(es[i], Last(old', name)))
  {
    if es != [] {
      var n := |es| - 1;
      LastChangeDiffers(es[..n], old', name);
      assert forall i :: 0 <= i < n ==> es[..n][i] == es[i];
    }
  }

  /** Applying the differences to the older list brings a name of the newer list up to date, in
      size and hash, exactly unless an earlier duplicate of it shadows its last entry. */
  lemma DiffThenMerge(p: seq<Entry>, old': seq<Entry>, name: string)
    requires Last(p, name).Found?
    ensures Agrees(Last(Merged(Changes(p, old'), old'), name), Last(p, name)) <==> !Shadowed(p, old', name)
  {
    MergeLookup(Changes(p, old'), old', name);
    LastOfChanges(p, old', name);
    LastChangeDiffers(p, old', name);
    NewestChange(p, old', name);
  }

  /** Such a duplicate: the older list has the last of two entries, and merging brings back the
      first. */
  lemma ShadowedDuplicate()
    ensures var p := [Entry("x", 1, []), Entry("x", 2, [])];
      && Shadowed(p, p[1..], "x")
      && !Agrees(Last(Merged(Changes(p, p[1..]), p[1..]), "x"), Last(p, "x"))
  {
    var first, last := Entry("x", 1, []), Entry("x", 2, []);
    var p := [first, last];
    assert BaseName(first) == BaseName(last) == "x" by {
      assert LastPart([]) == [] && LastPart("x") == "x" && TrimSlashes("x") == "x";
    }
    hide BaseName, Changes, Merged;
    assert p[1..] == [last] && Last(p[1..], "x") == Last(p, "x") == Found(last);
    assert BaseName(p[0]) == "x" && Differs(p[0], Found(last));
    DiffThenMerge(p, p[1..], "x");
  }

  /** If the last entry of a name differs, it is the last that does. */
  lemma {:induction false} NewestChange(es: seq<Entry>, old': seq<Entry>, name: string)
    ensures var l := Last(es, name);
      l.Found? && Differs(l.entry, Last(old', name)) ==> LastChange(es, old', name) == l
  {
    if es != [] {
      NewestChange(es[..|es| - 1], old', name);
    }
  }

  predicate DistinctNames(es: seq<Entry>) {
    forall i, j :: 0 <= i < j < |es| ==> BaseName(es[i]) != BaseName(es[j])
  }

  lemma {:induction false} NoDuplicateChange(es: seq<Entry>, old': seq<Entry>, name: string)
    requires DistinctNames(es)
    ensures LastChange(es, old', name).Found? ==> LastChange(es, old', name) == Last(es, name)
    ensures (forall i :: 0 <= i < |es| ==> BaseName(es[i]) != name) ==> Last(es, name).Missing?
    ensures LastChange(es, old', name).Found? ==> exists i :: 0 <= i < |es| && BaseName(es[i]) == name
  {
    if es != [] {
      var n := |es| - 1;
      NoDuplicateChange(es[..n], old', name);
      if BaseName(es[n]) == name {
        assert forall i :: 0 <= i < n ==> BaseName(es[..n][i]) != name;
      }
    }
  }

  /** When names are distinct, merging the differences over the older list agrees with the newer
      one in size and hash on all of its names. */
  lemma DistinctDiffThenMerge(p: seq<Entry>, old': seq<Entry>, name: string)
    requires DistinctNames(p) && Last(p, name).Found?
    ensures Agrees(Last(Merged(Changes(p, old'), old'), name), Last(p, name))
  {
    DiffThenMerge(p, old', name);
    NoDuplicateChange(p, old', name);
    LastChangeDiffers(p, old', name);
  }

  // ----- Entry by entry

  /** Looking a name up finds its last entry, and nothing only if there is none. */
  lemma {:induction false} LastIsLast(es: seq<Entry>, name: string)
    ensures match Last(es, name)
      case Missing => forall i :: 0 <= i < |es| ==> BaseName(es[i]) != name
      case Found(e) =>
        exists i :: 0 <= i < |es| && es[i] == e && BaseName(e) == name && NoneBehind(es, i, name)
  {
    if es != [] {
      var n := |es| - 1;
      LastIsLast(es[..n], name);
      assert forall i :: 0 <= i < n ==> es[..n][i] == es[i];
    }
  }

  predicate NoneBehind(es: seq<Entry>, i: int, name: string) {
    forall j :: 0 <= j < |es| && i < j ==> BaseName(es[j]) != name
  }

  /** How many of the first `n` entries are to be kept. */
  function Count(es: seq<Entry>, keep: Entry -> bool, n: nat): nat
    requires n <= |es|
  {
    if n == 0 then 0 else Count(es, keep, n - 1) + if keep(es[n - 1]) then 1 else 0
  }

  /** `kept` has the entries that are to be kept, each behind as many as are kept before it. */
  ghost predicate KeptInOrder(kept: seq<Entry>, es: seq<Entry>, keep: Entry -> bool, n: nat)
    requires n <= |es|
  {
    && |kept| == Count(es, keep, n)
    && forall i :: 0 <= i < n && keep(es[i]) ==> Count(es, keep, i) < |kept| && kept[Count(es, keep, i)] == es[i]
  }

  lemma KeptOneMore(kept: seq<Entry>, es: seq<Entry>, keep: Entry -> bool, n: nat)
    requires n < |es| && KeptInOrder(kept, es, keep, n)
    ensures KeptInOrder(kept + if keep(es[n]) then [es[n]] else [], es, keep, n + 1)
  {
  }

  /** What a list lacks, or has with another size or hash. */
  function Lacks(old': seq<Entry>): Entry -> bool {
    (e: Entry) => match Last(old', BaseName(e))
      case Missing => true
      case Found(o) => e.size != o.size || e.md5 != o.md5
  }

  lemma NothingKept(es: seq<Entry>, keep: Entry -> bool)
    ensures KeptInOrder([], es, keep, 0)
  {
  }

  /** The differences are the entries that the older list lacks or has with another size or
      hash, in their order. */
  lemma {:induction false} ChangesInOrder(es: seq<Entry>, old': seq<Entry>, n: nat)
    requires n <= |es|
    ensures KeptInOrder(Changes(es[..n], old'), es, Lacks(old'), n)
  {
    hide KeptInOrder, Changes, Lacks;
    ChangesMore(es, old', n);
    if n > 0 {
      ChangesInOrder(es, old', n - 1);
      KeptOneMore(Changes(es[..n - 1], old'), es, Lacks(old'), n - 1);
    } else {
      NothingKept(es, Lacks(old'));
    }
  }

  lemma ChangesMore(es: seq<Entry>, old': seq<Entry>, n: nat)
    requires n <= |es|
    ensures n == 0 ==> Changes(es[..n], old') == []
    ensures n > 0 ==>
      Changes(es[..n], old') == Changes(es[..n - 1], old') + if Lacks(old')(es[n - 1]) then [es[n - 1]] else []
  {
    hide Last, BaseName;
    if n > 0 {
      assert es[..n][..n - 1] == es[..n - 1];
    }
  }

  /** What has a name that a list does not have. */
  function Unknown(p: seq<Entry>): Entry -> bool {
    (e: Entry) => Last(p, BaseName(e)).Missing?
  }

  /** A merged list goes on with the older entries whose names the newer list does not have, in
      their order. */
  lemma {:induction false} OlderInOrder(p: seq<Entry>, es: seq<Entry>, n: nat)
    requires n <= |es|
    ensures |p| <= |Merged(p, es[..n])| && Merged(p, es[..n])[..|p|] == p
    ensures KeptInOrder(Merged(p, es[..n])[|p|..], es, Unknown(p), n)
  {
    assert Merged(p, es[..n])[|p|..] == Unnamed(p, es[..n]);
    assert n > 0 ==> Merged(p, es[..n - 1])[|p|..] == Unnamed(p, es[..n - 1]);
    hide KeptInOrder, Unnamed, Unknown;
    UnnamedMore(p, es, n);
    if n > 0 {
      OlderInOrder(p, es, n - 1);
      KeptOneMore(Unnamed(p, es[..n - 1]), es, Unknown(p), n - 1);
    } else {
      NothingKept(es, Unknown(p));
    }
  }

  lemma UnnamedMore(p: seq<Entry>, es: seq<Entry>, n: nat)
    requires n <= |es|
    ensures n == 0 ==> Unnamed(p, es[..n]) == []
    ensures n > 0 ==>
      Unnamed(p, es[..n]) == Unnamed(p, es[..n - 1]) + if Unknown(p)(es[n - 1]) then [es[n - 1]] else []
  {
    hide Last, BaseName;
    if n > 0 {
      assert es[..n][..n - 1] == es[..n - 1];
    }
  }

  /** Two lists with one file in different directories: it is one entry of the index, the newer
      entry replaces the older in a merge, and it is no difference unless size or hash differ. */
  lemma DirectoriesDoNotMatter(d: string, d': string, n: string, e: Entry, f: Entry)
    requires n != [] && '/' !in n && e.path == d + "/" + n && f.path == d' + "/" + n
    ensures Last([e, f], n) == Found(f)
    ensures Merged([e], [f]) == [e]
    ensures Changes([e], [f]) == if e.size == f.size && e.md5 == f.md5 then [] else [e]
  {
    assert e.path == d + "/" + n + Slashes(0) && f.path == d' + "/" + n + Slashes(0);
    NameOfPath(d + "/", n, 0, e);
    NameOfPath(d' + "/", n, 0, f);
    hide BaseName;
    assert [e, f][..1] == [e] && [f][..0] == [] && [e][..0] == [];
    assert Last([e], n) == Found(e) && Unnamed([e], []) == [] && Unnamed([e], [f]) == [];
  }

  class PatchList {
    var Entries: seq<Entry>
    var EntryMap: map<string, Entry>

    /** A list whose index has not been filled. */
    constructor (entries: seq<Entry>)
      ensures Entries == entries && EntryMap == map[]
    {
      Entries, EntryMap := entries, map[];
    }

    static ghost predicate Indexes(m: map<string, Entry>, es: seq<Entry>) {
      forall name :: Last(es, name) == if name in m then Found(m[name]) else Missing
    }

    ghost predicate Valid()
      reads this
    {
      Indexes(EntryMap, Entries)
    }

    /** Indexes the entries; the last of a name wins. */
    method FillMap()
      modifies this`EntryMap
      ensures Valid()
    {
      EntryMap := map[];
      for i := 0 to |Entries|
        invariant Indexes(EntryMap, Entries[..i])
      {
        assert Entries[..i + 1][..i] == Entries[..i];
        EntryMap := EntryMap[BaseName(Entries[i]) := Entries[i]];
      }
      assert Entries[..|Entries|] == Entries;
    }

    method Diff(po: PatchList?) returns (pn: PatchList)
      requires po != null ==> po.Valid()
      ensures po == null ==> pn == this
      ensures po != null ==> fresh(pn) && pn.Valid() && pn.Entries == Changes(Entries, po.Entries)
    {
      if po == null {
        return this;
      }
      pn := new PatchList([]);
      for i := 0 to |Entries|
        invariant fresh(pn) && pn.Entries == Changes(Entries[..i], po.Entries)
      {
        var e := Entries[i];
        assert Entries[..i + 1][..i] == Entries[..i];
        IndexSays(po.EntryMap, po.Entries, BaseName(e));
        if BaseName(e) !in po.EntryMap || e.size != po.EntryMap[BaseName(e)].size
          || e.md5 != po.EntryMap[BaseName(e)].md5
        {
          pn.Entries := pn.Entries + [e];
        }
      }
      assert Entries[..|Entries|] == Entries;
      pn.FillMap();
    }

    static lemma IndexSays(m: map<string, Entry>, es: seq<Entry>, name: string)
      requires Indexes(m, es)
      ensures Last(es, name) == if name in m then Found(m[name]) else Missing
    {
    }

    method MergeOld(po: PatchList?) returns (pn: PatchList)
      requires Valid()
      ensures po == null ==> pn == this
      ensures po != null ==> fresh(pn) && pn.Valid() && pn.Entries == Merged(Entries, po.Entries)
    {
      if po == null {
        return this;
      }
      hide BaseName, Indexes, Last;
      pn := new PatchList(Entries);
      for i := 0 to |po.Entries|
        invariant fresh(pn) && pn.Entries == Entries + Unnamed(Entries, po.Entries[..i])
      {
        var e := po.Entries[i];
        assert po.Entries[..i + 1][..i] == po.Entries[..i];
        IndexSays(EntryMap, Entries, BaseName(e));
        if BaseName(e) !in EntryMap {
          pn.Entries := pn.Entries + [e];
        }
      }
      assert po.Entries[..|po.Entries|] == po.Entries;
      pn.FillMap();
    }

    method Append(po: PatchList)
      modifies this
      ensures Valid() && Entries == old(Entries) + old(po.Entries)
    {
      Entries := Entries + po.Entries;
      FillMap();
    }
  }
}
