/** Which entries of a text file share a string once it is written. */
module TextSharing {
  import opened TextFormat
  import opened TextArea

  /** Equal texts, with no entry from the one to the other that has the text in another status:
      such an entry would get a string of its own, and later ones could share no other. */
  ghost predicate Shares(es: seq<Entry>, i: nat, j: nat)
    requires i <= j < |es|
  {
    && es[i].text == es[j].text
    && forall k :: i <= k <= j && es[k].status != Plain && es[k].text == es[j].text ==> es[k].status == es[j].status
  }

  /** The entry whose string entry `i` points to. */
  function Owner(es: seq<Entry>, i: nat): (k: nat)
    requires i < |es| && es[i].status != Plain
    ensures k <= i && Fresh(es, k) && es[k].text == es[i].text && es[k].status == es[i].status
    decreases i
  {
    if Fresh(es, i) then i else Owner(es, Latest(es, i, es[i].text))
  }

  lemma {:induction false} SlotOfOwner(es: seq<Entry>, i: nat)
    requires i < |es| && es[i].status != Plain
    ensures Slot(es, i) == |Area(es, Owner(es, i))|
    decreases i
  {
    hide Area;
    if !Fresh(es, i) {
      SlotOfOwner(es, Latest(es, i, es[i].text));
    }
  }

  /** No two strings of their own start at one place. */
  lemma OwnersAreApart(es: seq<Entry>, i: nat, j: nat)
    requires i < j < |es| && Fresh(es, i) && Fresh(es, j)
    ensures |Area(es, i)| < |Area(es, j)|
  {
    AreaGrows(es, i + 1, j);
    assert |Spelling(es[i].text, es[i].status)| > 0;
    hide Spelling, Fresh;
  }

  lemma {:induction false} LatestIsLast(es: seq<Entry>, n: nat, t: text)
    requires n <= |es|
    ensures forall k :: Latest(es, n, t) < k < n && es[k].status != Plain ==> es[k].text != t
  {
    if n > 0 {
      LatestIsLast(es, n - 1, t);
    }
  }

  lemma {:induction false} OwnerDecides(es: seq<Entry>, i: nat, j: nat)
    requires i <= j < |es| && es[i].status != Plain && es[j].status != Plain
    ensures Owner(es, i) == Owner(es, j) <==> Shares(es, i, j)
    decreases j
  {
    var k := Latest(es, j, es[j].text);
    LatestIsLast(es, j, es[j].text);
    hide Latest;
    if i < j && i <= k && !Fresh(es, j) {
      OwnerDecides(es, i, k);
    }
  }

  /** Writing gives two text entries one pointer exactly if they share a string in this sense; so
      entries whose texts differ, after any edit, never have one. */
  lemma SharedPointers(es: seq<Entry>, i: nat, j: nat)
    requires Writable(es) && i <= j < |es| && es[i].status != Plain && es[j].status != Plain
    ensures Pointer(es, i) == Pointer(es, j) <==> Shares(es, i, j)
  {
    hide Area, Slot, Writable, Shares, Fresh;
    OwnerDecides(es, i, j);
    SlotOfOwner(es, i);
    SlotOfOwner(es, j);
    if Owner(es, i) < Owner(es, j) {
      OwnersAreApart(es, Owner(es, i), Owner(es, j));
    } else if Owner(es, j) < Owner(es, i) {
      OwnersAreApart(es, Owner(es, j), Owner(es, i));
    }
  }
}
