/** The string area: the sizing pass and the emitting pass of the writer agree on it, and
    every pointer leads to the text of its own entry. */
module TextArea {
  import opened TextFormat

  lemma {:induction false} AreaGrows(es: seq<Entry>, m: nat, n: nat)
    requires m <= n <= |es|
    ensures Area(es, m) <= Area(es, n)
    decreases n
  {
    hide Spelling, Fresh;
    if m < n {
      AreaGrows(es, m, n - 1);
    }
  }

  /** Every pointer is the offset at which the text of its own entry is emitted, in its own
      character width and aligned to four bytes. */
  lemma {:induction false} SlotHoldsText(es: seq<Entry>, i: nat, n: nat)
    requires i < n <= |es| && es[i].status != Plain
    ensures Slot(es, i) % 4 == 0
    ensures var s := Spelling(es[i].text, es[i].status);
      && Slot(es, i) + |s| <= |Area(es, n)|
      && Area(es, n)[Slot(es, i)..Slot(es, i) + |s|] == s
    decreases i
  {
    hide Spelling, Area, Slot;
    if Fresh(es, i) {
      AreaGrows(es, i + 1, n);
      OwnSlot(es, i);
      assert Area(es, i + 1) == Area(es, n)[..|Area(es, i + 1)|];
    } else {
      ReusedSlot(es, i);
      SlotHoldsText(es, Latest(es, i, es[i].text), n);
    }
  }

  lemma OwnSlot(es: seq<Entry>, i: nat)
    requires i < |es| && Fresh(es, i)
    ensures Area(es, i + 1) == Area(es, i) + Spelling(es[i].text, es[i].status)
    ensures Slot(es, i) == |Area(es, i)|
  {
    hide Spelling, Fresh;
  }

  lemma ReusedSlot(es: seq<Entry>, i: nat)
    requires i < |es| && es[i].status != Plain && !Fresh(es, i)
    ensures Slot(es, i) == Slot(es, Latest(es, i, es[i].text))
  {
  }

  function Pointer(es: seq<Entry>, i: nat): (p: nat)
    requires Writable(es) && i < |es| && es[i].status != Plain
    ensures EntryBytes(es) + POINTER_BASE <= p < 0xffff_ffff
  {
    SlotHoldsText(es, i, |es|);
    RoundUp16(Rel0Size(es));
    Slot(es, i) + EntryBytes(es) + POINTER_BASE
  }

  function RelocatedEntry(es: seq<Entry>, i: nat): Entry
    requires Writable(es) && i < |es|
  {
    if es[i].status == Plain then es[i] else Relocate(es[i], Pointer(es, i))
  }

  /** The entries as writing leaves them. */
  function Relocated(es: seq<Entry>): (r: seq<Entry>)
    requires Writable(es)
    ensures |r| == |es|
    ensures forall i :: 0 <= i < |es| ==> r[i] == RelocatedEntry(es, i)
  {
    seq(|es|, i requires 0 <= i < |es| => RelocatedEntry(es, i))
  }

  /** What decides the strings of a file: the entries but for their words. */
  ghost predicate SameTexts(es: seq<Entry>, fs: seq<Entry>) {
    && |es| == |fs|
    && forall i :: 0 <= i < |es| ==>
      es[i].text == fs[i].text && es[i].status == fs[i].status && |es[i].value| == |fs[i].value|
  }

  lemma {:induction false} LatestOfSame(es: seq<Entry>, fs: seq<Entry>, n: nat, t: text)
    requires SameTexts(es, fs) && n <= |es|
    ensures Latest(es, n, t) == Latest(fs, n, t)
  {
    if n > 0 {
      LatestOfSame(es, fs, n - 1, t);
    }
  }

  lemma {:induction false} AreaOfSame(es: seq<Entry>, fs: seq<Entry>, n: nat)
    requires SameTexts(es, fs) && n <= |es|
    ensures Area(es, n) == Area(fs, n) && Count(es, n) == Count(fs, n)
  {
    if n > 0 {
      hide Spelling;
      AreaOfSame(es, fs, n - 1);
      LatestOfSame(es, fs, n - 1, es[n - 1].text);
    }
  }

  lemma {:induction false} SlotOfSame(es: seq<Entry>, fs: seq<Entry>, i: nat)
    requires SameTexts(es, fs) && i < |es| && es[i].status != Plain
    ensures Slot(es, i) == Slot(fs, i)
    decreases i
  {
    LatestOfSame(es, fs, i, es[i].text);
    AreaOfSame(es, fs, i);
    if !Fresh(es, i) {
      SlotOfSame(es, fs, Latest(es, i, es[i].text));
    }
  }

  /** Writing again changes nothing: pointers do not depend on the words they replace. */
  lemma RelocatedTwice(es: seq<Entry>)
    requires Writable(es)
    ensures Writable(Relocated(es)) && Relocated(Relocated(es)) == Relocated(es)
  {
    hide Area, Slot, Count, RoundUp;
    var rs := Relocated(es);
    AreaOfSame(es, rs, |es|);
    forall i | 0 <= i < |es|
      ensures RelocatedEntry(rs, i) == rs[i]
    {
      if es[i].status != Plain {
        SlotOfSame(es, rs, i);
      }
    }
  }
}
