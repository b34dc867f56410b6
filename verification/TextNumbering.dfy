/** Which entries of a text file are identifiers, strings and pairs, told from the words of its
    entries alone: by counting the texts of a run that 0xffffffff begins and 0x14 ends. */
module TextNumbering {
  import opened Bytes
  import opened TextFormat
  import opened TextReading
  import opened TextTheorems

  /** One word, other than the one that begins a run. */
  predicate PointsToText(e: Entry) {
    |e.value| == 1 && e.value[0] != 0xffffffff
  }

  /** Entry `j` has first word `w`. */
  predicate Marks(es: seq<Entry>, j: int, w: u32) {
    0 <= j < |es| && es[j].value != [] && es[j].value[0] == w
  }

  /** The run that entry `b` begins lasts to before entry `n`: `b` has 0xffffffff, no entry from
      there on has 0x14, and every 0xffffffff before `b` has been ended by a 0x14. */
  ghost predicate RunFrom(es: seq<Entry>, b: int, n: int) {
    && 0 <= b < n <= |es| && Marks(es, b, 0xffffffff)
    && (forall j :: b <= j < n ==> !Marks(es, j, 0x14))
    && forall c :: 0 <= c < b && Marks(es, c, 0xffffffff) ==> exists d :: c < d < b && Marks(es, d, 0x14)
  }

  /** The texts of a run before entry `n`. */
  function TextsIn(es: seq<Entry>, b: int, n: int): set<int> {
    set j | b < j < n && 0 <= j < |es| && PointsToText(es[j])
  }

  /** Entry `i` is the text with number `k`, counted from 0, of the run that `b` begins. */
  ghost predicate Numbered(es: seq<Entry>, b: int, i: int, k: int) {
    && 0 <= i < |es| && PointsToText(es[i])
    && RunFrom(es, b, i + 1) && |TextsIn(es, b, i)| == k
  }

  /** The status that its number calls for: in a run the texts are identifiers and strings by
      turns, and outside of one they are identifiers. */
  ghost predicate StatusByNumber(es: seq<Entry>, i: nat)
    requires i < |es|
  {
    && (es[i].status == Plain <==> !PointsToText(es[i]))
    && (forall b, k :: Numbered(es, b, i, k) ==> es[i].status == if k % 2 == 0 then Identifier else String)
    && (PointsToText(es[i]) && (forall b, k :: !Numbered(es, b, i, k)) ==> es[i].status == Identifier)
  }

  /** The pairs that they call for: numbers 2m and 2m + 1 of a run, in the order of the file. */
  ghost predicate PairsByNumber(es: seq<Entry>, ps: seq<Pair>) {
    && (forall p <- ps :: PairOf(es, p))
    && (forall b, i, j, k, l :: Numbered(es, b, i, k) && Numbered(es, b, j, l) && k % 2 == 0 && l == k + 1 ==>
      Pair(es[i].text, es[j].text, i, j) in ps)
    && forall x, y :: 0 <= x < y < |ps| ==> ps[x].stringIndex < ps[y].stringIndex
  }

  ghost predicate PairOf(es: seq<Entry>, p: Pair) {
    && p.identifierIndex < |es| && p.stringIndex < |es|
    && p.identifier == es[p.identifierIndex].text && p.str == es[p.stringIndex].text
    && exists b, k, l ::
      Numbered(es, b, p.identifierIndex, k) && Numbered(es, b, p.stringIndex, l) && k % 2 == 0 && l == k + 1
  }

  // ----- The run that is open before an entry

  /** Where the run that is open before entry `n` begins, or -1. */
  function Begin(es: seq<Entry>, n: nat): (b: int)
    requires n <= |es|
    ensures -1 <= b < n
  {
    if n == 0 || Marks(es, n - 1, 0x14) then -1
    else if Begin(es, n - 1) >= 0 then Begin(es, n - 1)
    else if Marks(es, n - 1, 0xffffffff) then n - 1
    else -1
  }

  lemma {:induction false} BeginIsRun(es: seq<Entry>, n: nat)
    requires n <= |es|
    ensures Begin(es, n) >= 0 ==> RunFrom(es, Begin(es, n), n)
    ensures Begin(es, n) < 0 ==>
      forall c :: 0 <= c < n && Marks(es, c, 0xffffffff) ==> exists d :: c < d < n && Marks(es, d, 0x14)
  {
    if n > 0 {
      BeginIsRun(es, n - 1);
      if Begin(es, n) < 0 {
        forall c | 0 <= c < n && Marks(es, c, 0xffffffff)
          ensures exists d :: c < d < n && Marks(es, d, 0x14)
        {
          if Begin(es, n - 1) < 0 && c < n - 1 {
            var d :| c < d < n - 1 && Marks(es, d, 0x14);
            assert c < d < n;
          } else {
            assert c < n - 1 < n && Marks(es, n - 1, 0x14);
          }
        }
      }
    }
  }

  lemma RunIsBegin(es: seq<Entry>, b: int, n: nat)
    requires n <= |es| && RunFrom(es, b, n)
    ensures Begin(es, n) == b
  {
    BeginIsRun(es, n);
  }

  /** One more entry in a run. */
  lemma TextsMore(es: seq<Entry>, b: int, n: nat)
    requires -1 <= b < n < |es|
    ensures |TextsIn(es, b, n + 1)| == |TextsIn(es, b, n)| + if PointsToText(es[n]) then 1 else 0
  {
    if PointsToText(es[n]) {
      assert TextsIn(es, b, n + 1) == TextsIn(es, b, n) + {n as int};
    } else {
      assert TextsIn(es, b, n + 1) == TextsIn(es, b, n);
    }
  }

  lemma NoTextsYet(es: seq<Entry>, b: int)
    ensures |TextsIn(es, b, b + 1)| == 0
  {
    assert TextsIn(es, b, b + 1) == {};
  }

  lemma NumberedIsBegin(es: seq<Entry>, b: int, i: int, k: int)
    requires Numbered(es, b, i, k)
    ensures b == Begin(es, i + 1) == Begin(es, i) >= 0 && k == |TextsIn(es, b, i)|
  {
    RunIsBegin(es, b, i + 1);
  }

  // ----- Reading agrees

  /** What the reader makes of an entry. */
  function ModeAfter(mode: Mode, e: Entry, i: nat): Mode
    requires e.value != []
  {
    var entered := Enter(mode, e.value[0]);
    if PointsToText(e) then AfterText(entered, e.text, i) else entered
  }

  /** The mode before entry `n` says whether a run is open, and whether its last text has an odd
      number of texts up to it. */
  ghost predicate Agrees(es: seq<Entry>, n: nat, mode: Mode)
    requires n <= |es|
  {
    var b := Begin(es, n);
    && mode.pairMode == (b >= 0)
    && if b >= 0 && |TextsIn(es, b, n)| % 2 == 1 then
         && mode.pending.Waiting? && LastText(es, b, n, mode.pending.index)
         && mode.pending.identifier == es[mode.pending.index].text
       else mode.pending == NoPair
  }

  ghost predicate LastText(es: seq<Entry>, b: int, n: nat, i: nat) {
    && b < i < n && i < |es| && PointsToText(es[i])
    && |TextsIn(es, b, n)| == |TextsIn(es, b, i)| + 1
  }

  lemma ModeStep(es: seq<Entry>, n: nat, mode: Mode)
    requires n < |es| && es[n].value != [] && Agrees(es, n, mode)
    ensures Agrees(es, n + 1, ModeAfter(mode, es[n], n))
  {
    var b := Begin(es, n);
    hide TextsIn;
    if b >= 0 {
      TextsMore(es, b, n);
    } else {
      NoTextsYet(es, n);
    }
  }

  /** The number of entry `n`, by the mode before it. */
  lemma ModeNumbers(es: seq<Entry>, n: nat, mode: Mode)
    requires n < |es| && es[n].value != [] && Agrees(es, n, mode) && PointsToText(es[n])
    ensures var b, entered := Begin(es, n), Enter(mode, es[n].value[0]);
      if Marks(es, n, 0x14) || b < 0 then !entered.pending.Waiting? && forall c, k :: !Numbered(es, c, n, k)
      else
        && (forall c, k :: Numbered(es, c, n, k) <==> c == b && k == |TextsIn(es, b, n)|)
        && (entered.pending.Waiting? <==> |TextsIn(es, b, n)| % 2 == 1)
  {
    var b := Begin(es, n);
    BeginIsRun(es, n + 1);
    forall c, k | Numbered(es, c, n, k)
      ensures c == b == Begin(es, n + 1) && k == |TextsIn(es, b, n)| && b >= 0 && !Marks(es, n, 0x14)
    {
      NumberedIsBegin(es, c, n, k);
    }
  }

  /** The pairs whose strings are among the first `n` entries. */
  ghost predicate PairsUpTo(es: seq<Entry>, n: nat, ps: seq<Pair>) {
    && (forall p <- ps :: PairOf(es, p) && p.stringIndex < n)
    && AllPaired(es, n, ps)
    && forall x, y :: 0 <= x < y < |ps| ==> ps[x].stringIndex < ps[y].stringIndex
  }

  ghost predicate AllPaired(es: seq<Entry>, n: nat, ps: seq<Pair>) {
    forall b, i, j, k, l :: Numbered(es, b, i, k) && Numbered(es, b, j, l) && k % 2 == 0 && l == k + 1 && j < n ==>
      Pair(es[i].text, es[j].text, i, j) in ps
  }

  lemma TextsGrow(es: seq<Entry>, b: int, i: int, j: int)
    requires b < i < j && 0 <= i < |es| && PointsToText(es[i])
    ensures |TextsIn(es, b, i)| < |TextsIn(es, b, j)|
  {
    assert i !in TextsIn(es, b, i) && TextsIn(es, b, i) + {i} <= TextsIn(es, b, j);
    SubsetSize(TextsIn(es, b, i) + {i}, TextsIn(es, b, j));
  }

  lemma SubsetSize(a: set<int>, b: set<int>)
    requires a <= b
    ensures |a| <= |b|
  {
    assert b == a + (b - a);
  }

  /** Two texts of a run with one number are one. */
  lemma NumbersDiffer(es: seq<Entry>, b: int, i: int, j: int, k: int)
    requires Numbered(es, b, i, k) && Numbered(es, b, j, k)
    ensures i == j
  {
    hide TextsIn;
    if i < j {
      TextsGrow(es, b, i, j);
    } else if j < i {
      TextsGrow(es, b, j, i);
    }
  }

  /** The text that waits has the number before that of the next one. */
  lemma WaitingNumber(es: seq<Entry>, n: nat, mode: Mode)
    requires n <= |es| && Agrees(es, n, mode) && mode.pending.Waiting?
    ensures var b, i := Begin(es, n), mode.pending.index;
      i < n && Numbered(es, b, i, |TextsIn(es, b, n)| - 1) && mode.pending.identifier == es[i].text
  {
    var b, i := Begin(es, n), mode.pending.index;
    BeginIsRun(es, n);
    hide TextsIn;
    assert RunFrom(es, b, i + 1);
  }

  /** One more entry, which completes a pair. */
  lemma PairStep(es: seq<Entry>, n: nat, ps: seq<Pair>, mode: Mode)
    requires n < |es| && PairsUpTo(es, n, ps) && Agrees(es, n, mode)
    requires es[n].value != [] && PointsToText(es[n]) && Enter(mode, es[n].value[0]).pending.Waiting?
    ensures var w := Enter(mode, es[n].value[0]).pending;
      PairsUpTo(es, n + 1, ps + [Pair(w.identifier, es[n].text, w.index, n)])
  {
    var b, m := Begin(es, n), |TextsIn(es, Begin(es, n), n)|;
    ModeNumbers(es, n, mode);
    WaitingNumber(es, n, mode);
    hide TextsIn, RunFrom, Agrees, Begin, Numbered;
    var w := mode.pending;
    var p := Pair(w.identifier, es[n].text, w.index, n);
    assert PairOf(es, p) by {
      var k := m - 1;
      assert Numbered(es, b, w.index, k) && Numbered(es, b, n, m) && k % 2 == 0;
    }
    assert AllPaired(es, n + 1, ps + [p]) by {
      hide PairOf;
      PairedStep(es, n, ps, p, b, m);
    }
    hide AllPaired, PairOf;
  }

  lemma PairedStep(es: seq<Entry>, n: nat, ps: seq<Pair>, p: Pair, b: int, m: int)
    requires n < |es| && AllPaired(es, n, ps) && p.identifierIndex < |es|
    requires p == Pair(es[p.identifierIndex].text, es[n].text, p.identifierIndex, n)
    requires Numbered(es, b, p.identifierIndex, m - 1)
    requires forall c, k :: Numbered(es, c, n, k) ==> c == b && k == m
    ensures AllPaired(es, n + 1, ps + [p])
  {
    hide TextsIn, RunFrom;
    forall c, i, j, k, l | Numbered(es, c, i, k) && Numbered(es, c, j, l) && k % 2 == 0 && l == k + 1 && j < n + 1
      ensures Pair(es[i].text, es[j].text, i, j) in ps + [p]
    {
      if j == n {
        NumbersDiffer(es, b, i, p.identifierIndex, k);
      } else {
        assert Pair(es[i].text, es[j].text, i, j) in ps;
      }
    }
  }

  /** One more entry, which completes none. */
  lemma NoPairStep(es: seq<Entry>, n: nat, ps: seq<Pair>, mode: Mode)
    requires n < |es| && PairsUpTo(es, n, ps) && Agrees(es, n, mode)
    requires es[n].value != [] && !(PointsToText(es[n]) && Enter(mode, es[n].value[0]).pending.Waiting?)
    ensures PairsUpTo(es, n + 1, ps)
  {
    if PointsToText(es[n]) {
      ModeNumbers(es, n, mode);
    }
    hide TextsIn, RunFrom, Agrees, Begin;
    assert AllPaired(es, n + 1, ps);
  }

  /** What reading an entry does, by the mode in which it is read. */
  lemma EntryRead(source: Source, st: State, n: nat)
    requires n > 0
    ensures var next := ReadEntry(source, st, n);
      var i := |st.entries|;
      && |next.entries| == i + 1
      && var e := next.entries[i];
        && e.value != []
        && var entered := Enter(st.mode, e.value[0]);
          && next.mode == ModeAfter(st.mode, e, i)
          && (e.status == Plain <==> !PointsToText(e))
          && (PointsToText(e) ==> e.status == if entered.pending.Waiting? then String else Identifier)
          && next.pairs == if PointsToText(e) && entered.pending.Waiting? then
               st.pairs + [Pair(entered.pending.identifier, e.text, entered.pending.index, i)]
             else st.pairs
  {
    hide ReadString, Section, AfterText;
  }

  lemma StatusStep(es: seq<Entry>, n: nat, mode: Mode)
    requires n < |es| && es[n].value != [] && Agrees(es, n, mode)
    requires es[n].status == Plain <==> !PointsToText(es[n])
    requires PointsToText(es[n]) ==>
      es[n].status == if Enter(mode, es[n].value[0]).pending.Waiting? then String else Identifier
    ensures StatusByNumber(es, n)
  {
    if PointsToText(es[n]) {
      ModeNumbers(es, n, mode);
      hide TextsIn, RunFrom, Begin, Agrees, Enter, Numbered;
      var b := Begin(es, n);
      if !(Marks(es, n, 0x14) || b < 0) {
        assert Numbered(es, b, n, |TextsIn(es, b, n)|);
      }
    } else {
      hide TextsIn, RunFrom, Begin, Agrees, Enter;
    }
  }

  /** What has been read up to entry `n` is what the numbers call for. */
  lemma {:induction false} ReadByNumber(source: Source, lengths: seq<nat>, n: nat)
    requires n <= |lengths| && forall k :: 0 <= k < |lengths| ==> lengths[k] > 0
    ensures var es := ReadEntries(source, lengths, |lengths|).entries;
      var st := ReadEntries(source, lengths, n);
      && Agrees(es, n, st.mode) && PairsUpTo(es, n, st.pairs)
      && forall i :: 0 <= i < n ==> StatusByNumber(es, i)
  {
    hide Agrees, PairsUpTo, StatusByNumber, ReadEntry, ModeAfter, Enter;
    var es := ReadEntries(source, lengths, |lengths|).entries;
    if n == 0 {
      NothingRead(es);
    } else {
      ReadByNumber(source, lengths, n - 1);
      var st := ReadEntries(source, lengths, n - 1);
      EntryRead(source, st, lengths[n - 1]);
      ReadAt(source, lengths, |lengths|, n - 1);
      ModeStep(es, n - 1, st.mode);
      StatusStep(es, n - 1, st.mode);
      if PointsToText(es[n - 1]) && Enter(st.mode, es[n - 1].value[0]).pending.Waiting? {
        PairStep(es, n - 1, st.pairs, st.mode);
      } else {
        NoPairStep(es, n - 1, st.pairs, st.mode);
      }
    }
  }

  lemma NothingRead(es: seq<Entry>)
    ensures Agrees(es, 0, INITIAL.mode) && PairsUpTo(es, 0, INITIAL.pairs)
  {
  }

  /** Whatever file is read: every entry has the status, and the file the pairs, that the
      numbers of its texts call for. */
  lemma FilesReadByNumber(data: seq<byte>)
    requires ParseFile(data).Parsed?
    ensures var st := ParseFile(data).st;
      && (forall i :: 0 <= i < |st.entries| ==> StatusByNumber(st.entries, i))
      && PairsByNumber(st.entries, st.pairs)
  {
    hide ParseFile, ReadEntries, StatusByNumber, PairOf, Numbered, Agrees;
    var source, lengths := ReadFrom(data);
    ReadByNumber(source, lengths, |lengths|);
    AllUpTo(ParseFile(data).st.entries, ParseFile(data).st.pairs);
  }

  lemma AllUpTo(es: seq<Entry>, ps: seq<Pair>)
    requires PairsUpTo(es, |es|, ps)
    ensures PairsByNumber(es, ps)
  {
    hide TextsIn, RunFrom, PairOf;
  }
}
