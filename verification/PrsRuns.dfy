/** Whole runs of a PRS reader: any interleaving of reads and seeks gives what the same calls
    give on a plain file that holds the content. */
module PrsRuns {
  import opened Bytes
  import opened PrsFormat
  import opened PrsContent
  import PrsReader

  datatype Call = Read(length: nat) | Seek(offset: int, whence: int)

  /** One call on the reader: the bytes it delivers and the view it leaves. */
  datatype Reply = Reply(bytes: seq<byte>, view: View) | Crash

  function ReaderCall(e: Expansion, size: nat, v: View, call: Call): Reply
    requires v.position <= |Served(e, size)|
  {
    match call
    case Read(length) =>
      (match ReadStep(e, size, v, length)
       case Returned(n, next, _) => Reply(Served(e, size)[v.position..v.position + n], next)
       case Crashed => Crash)
    case Seek(offset, whence) =>
      match SeekStep(e, size, v, offset, whence)
      case Returned(_, next, _) => Reply([], next)
      case Crashed => Crash
  }

  datatype Run = Run(bytes: seq<seq<byte>>, view: View) | Broken

  /** A run of the reader. */
  function ReaderRun(e: Expansion, size: nat, v: View, calls: seq<Call>): Run
    requires Consistent(e, size, v)
    decreases |calls|
  {
    if calls == [] then Run([], v)
    else
      CallKeepsConsistency(e, size, v, calls[0]);
      match ReaderCall(e, size, v, calls[0])
      case Crash => Broken
      case Reply(bytes, next) =>
        match ReaderRun(e, size, next, calls[1..])
        case Broken => Broken
        case Run(rest, last) => Run([bytes] + rest, last)
  }

  lemma CallKeepsConsistency(e: Expansion, size: nat, v: View, call: Call)
    requires Consistent(e, size, v)
    ensures match ReaderCall(e, size, v, call)
      case Crash => true
      case Reply(_, next) => Consistent(e, size, next)
  {
    hide ReadStep, SeekStep, Consistent, Served;
    match call
    case Read(length) => ReadKeepsConsistency(e, size, v, length);
    case Seek(offset, whence) => SeekKeepsConsistency(e, size, v, offset, whence);
  }

  lemma ReadKeepsConsistency(e: Expansion, size: nat, v: View, length: nat)
    requires Consistent(e, size, v)
    ensures var r := ReadStep(e, size, v, length); r.Returned? ==> Consistent(e, size, r.view)
  {
  }

  lemma SeekKeepsConsistency(e: Expansion, size: nat, v: View, offset: int, whence: int)
    requires Consistent(e, size, v)
    ensures var r := SeekStep(e, size, v, offset, whence); r.Returned? ==> Consistent(e, size, r.view)
  {
  }

  /** A plain file of `content`: only a position, which a seek moves anywhere inside. */
  function PlainCall(content: seq<byte>, size: nat, position: nat, call: Call): (r: (seq<byte>, nat))
    requires position <= |content|
    ensures r.1 <= |content|
  {
    match call
    case Read(length) =>
      var n := Min(length, |content| - position);
      (content[position..position + n], position + n)
    case Seek(offset, whence) =>
      var target := Target(size, position, offset, whence);
      ([], if target < 0 then 0 else Min(target, |content|))
  }

  function PlainRun(content: seq<byte>, size: nat, position: nat, calls: seq<Call>): (r: (seq<seq<byte>>, nat))
    requires position <= |content|
    ensures r.1 <= |content|
    decreases |calls|
  {
    if calls == [] then ([], position)
    else
      var (bytes, next) := PlainCall(content, size, position, calls[0]);
      var (rest, last) := PlainRun(content, size, next, calls[1..]);
      ([bytes] + rest, last)
  }

  /** How much of the content a call asks for. */
  function Demand(size: nat, position: nat, call: Call): int {
    match call
    case Read(length) => Min(position + length, size)
    case Seek(offset, whence) => Min(Target(size, position, offset, whence), size)
  }

  /** Some call of the run on the plain file asks for bytes behind a bad reference. */
  predicate RunsIntoBadReference(e: Expansion, size: nat, position: nat, calls: seq<Call>)
    requires position <= |Served(e, size)|
    decreases |calls|
  {
    && calls != []
    && e.ending.Invalid?
    && (|| Demand(size, position, calls[0]) > |e.out|
        || RunsIntoBadReference(e, size, PlainCall(Served(e, size), size, position, calls[0]).1, calls[1..]))
  }

  lemma CallIsPlain(e: Expansion, size: nat, v: View, call: Call)
    requires Consistent(e, size, v)
    ensures match ReaderCall(e, size, v, call)
      case Crash => e.ending.Invalid? && Demand(size, v.position, call) > |e.out|
      case Reply(bytes, next) =>
        && !(e.ending.Invalid? && Demand(size, v.position, call) > |e.out|)
        && PlainCall(Served(e, size), size, v.position, call) == (bytes, next.position)
  {
    hide ReadStep, SeekStep, Consistent, Served, Target;
    match call
    case Read(length) => ReadIsPlain(e, size, v, length);
    case Seek(offset, whence) => SeekIsPlain(e, size, v, offset, whence);
  }

  lemma ReadIsPlain(e: Expansion, size: nat, v: View, length: nat)
    requires Consistent(e, size, v)
    ensures var bad := e.ending.Invalid? && Min(v.position + length, size) > |e.out|;
      match ReadStep(e, size, v, length)
      case Crashed => bad
      case Returned(n, next, _) =>
        && !bad && n == Min(length, |Served(e, size)| - v.position) && next.position == v.position + n
  {
  }

  lemma SeekIsPlain(e: Expansion, size: nat, v: View, offset: int, whence: int)
    requires Consistent(e, size, v)
    ensures var target := Target(size, v.position, offset, whence);
      var bad := e.ending.Invalid? && Min(target, size) > |e.out|;
      match SeekStep(e, size, v, offset, whence)
      case Crashed => bad
      case Returned(_, next, _) =>
        && !bad && next.position == (if target < 0 then 0 else Min(target, |Served(e, size)|))
  {
  }

  /** For every run: the reader crashes exactly when a call asks for bytes behind a bad
      reference, and otherwise delivers what a plain file of the content delivers. */
  lemma {:induction false} RunIsPlain(e: Expansion, size: nat, v: View, calls: seq<Call>)
    requires Consistent(e, size, v)
    ensures match ReaderRun(e, size, v, calls)
      case Broken => RunsIntoBadReference(e, size, v.position, calls)
      case Run(bytes, last) =>
        && !RunsIntoBadReference(e, size, v.position, calls)
        && PlainRun(Served(e, size), size, v.position, calls) == (bytes, last.position)
    decreases |calls|
  {
    if calls != [] {
      hide PlainCall, ReaderCall, Served, Consistent, Demand;
      CallIsPlain(e, size, v, calls[0]);
      CallKeepsConsistency(e, size, v, calls[0]);
      var reply := ReaderCall(e, size, v, calls[0]);
      if reply.Reply? {
        RunIsPlain(e, size, reply.view, calls[1..]);
      }
    }
  }

  /** Any calls on the reader are such a run: unless it crashes, it delivers what a plain file of
      the content delivers, and stands where that does. */
  method Perform(r: PrsReader.Reader, calls: seq<Call>) returns (run: Run)
    requires r.Anchored() && r.Valid()
    modifies r, r.buffer
    ensures run == ReaderRun(r.whole, r.size, old(r.View()), calls)
    ensures match run
      case Broken => RunsIntoBadReference(r.whole, r.size, old(r.position), calls)
      case Run(bytes, last) =>
        && r.Valid() && r.View() == last
        && !RunsIntoBadReference(r.whole, r.size, old(r.position), calls)
        && PlainRun(Served(r.whole, r.size), r.size, old(r.position), calls) == (bytes, r.position)
    decreases |calls|
  {
    hide PlainRun, RunsIntoBadReference, Served, SeekStep, ReadStep, Consistent, PrsReader.Reader.InStep;
    r.ValidView();
    RunIsPlain(r.whole, r.size, r.View(), calls);
    if calls == [] {
      return Run([], r.View());
    }
    CallKeepsConsistency(r.whole, r.size, r.View(), calls[0]);
    var bytes: seq<byte> := [];
    match calls[0] {
      case Read(length) =>
        var p := new byte[length](_ => 0);
        var outcome := r.Read(p);
        if outcome.Crashed? {
          return Broken;
        }
        ReadStaysWithin(r.whole, r.size, old(r.View()), length);
        bytes := p[..outcome.n];
      case Seek(offset, whence) =>
        var outcome := r.Seek(offset, whence);
        if outcome.Crashed? {
          return Broken;
        }
    }
    run := Perform(r, calls[1..]);
    if run.Run? {
      run := Run([bytes] + run.bytes, run.view);
    }
  }

  lemma ReadStaysWithin(e: Expansion, size: nat, v: View, length: nat)
    requires v.position <= |Served(e, size)|
    ensures ReadStep(e, size, v, length).Returned? ==> ReadStep(e, size, v, length).n <= length
  {
  }

  function Concat(chunks: seq<seq<byte>>): seq<byte> {
    if chunks == [] then [] else chunks[0] + Concat(chunks[1..])
  }

  function Lengths(calls: seq<Call>): nat
    requires forall c <- calls :: c.Read?
  {
    if calls == [] then 0 else calls[0].length + Lengths(calls[1..])
  }

  lemma {:induction false} PlainReadsConcatenate(content: seq<byte>, size: nat, position: nat, calls: seq<Call>)
    requires position <= |content|
    requires forall c <- calls :: c.Read?
    ensures var end := Min(position + Lengths(calls), |content|);
      var (bytes, last) := PlainRun(content, size, position, calls);
      last == end && Concat(bytes) == content[position..end]
    decreases |calls|
  {
    if calls != [] {
      var (bytes, next) := PlainCall(content, size, position, calls[0]);
      PlainReadsConcatenate(content, size, next, calls[1..]);
      var (rest, last) := PlainRun(content, size, next, calls[1..]);
      assert Concat([bytes] + rest) == bytes + Concat(rest);
    }
  }

  /** Reads of any sizes from a fresh reader deliver, one after the other, the content up to
      the sum of the sizes, when no reference is bad. */
  lemma ReadsDeliverContent(e: Expansion, size: nat, calls: seq<Call>)
    requires e.ending != Invalid
    requires forall c <- calls :: c.Read?
    ensures var run := ReaderRun(e, size, View(0, NoError), calls);
      && run.Run?
      && Concat(run.bytes) == Served(e, size)[..Min(Lengths(calls), |Served(e, size)|)]
  {
    RunIsPlain(e, size, View(0, NoError), calls);
    PlainReadsConcatenate(Served(e, size), size, 0, calls);
  }

  /** After any run, a read delivers what it would from a fresh reader moved to the same
      position. */
  lemma ReadAsFresh(e: Expansion, size: nat, calls: seq<Call>, length: nat)
    requires ReaderRun(e, size, View(0, NoError), calls + [Read(length)]).Run?
    ensures var run := ReaderRun(e, size, View(0, NoError), calls + [Read(length)]);
      var before := PlainRun(Served(e, size), size, 0, calls).1;
      var anew := ReaderRun(e, size, View(0, NoError), [Seek(before, 0), Read(length)]);
      && before <= |Served(e, size)|
      && |run.bytes| == |calls| + 1
      && anew.Run? && |anew.bytes| == 2 && anew.bytes[1] == run.bytes[|calls|] && anew.view.position == run.view.position
  {
    var call := Read(length);
    RunIsPlain(e, size, View(0, NoError), calls + [call]);
    PlainRunAppend(e, size, 0, calls, call);
    var before := PlainRun(Served(e, size), size, 0, calls).1;
    SeekThenCall(e, size, before, call);
    RunIsPlain(e, size, View(0, NoError), [Seek(before, 0), call]);
  }

  /** On a plain file, and on a reader that has reached it before, a position can be sought. */
  lemma SeekThenCall(e: Expansion, size: nat, position: nat, call: Call)
    requires position <= |Served(e, size)|
    ensures var last := PlainCall(Served(e, size), size, position, call);
      PlainRun(Served(e, size), size, 0, [Seek(position, 0), call]) == ([[], last.0], last.1)
    ensures RunsIntoBadReference(e, size, 0, [Seek(position, 0), call])
      ==> e.ending.Invalid? && Demand(size, position, call) > |e.out|
  {
    var calls := [Seek(position, 0), call];
    assert calls[1..] == [call];
    SingleCall(e, size, position, call);
    var last := PlainCall(Served(e, size), size, position, call);
    assert [[]] + [last.0] == [[], last.0];
  }

  lemma SingleCall(e: Expansion, size: nat, position: nat, call: Call)
    requires position <= |Served(e, size)|
    ensures var last := PlainCall(Served(e, size), size, position, call);
      PlainRun(Served(e, size), size, position, [call]) == ([last.0], last.1)
    ensures RunsIntoBadReference(e, size, position, [call])
      <==> e.ending.Invalid? && Demand(size, position, call) > |e.out|
  {
    assert [call][1..] == [];
    var last := PlainCall(Served(e, size), size, position, call);
    assert [last.0] + [] == [last.0];
    assert !RunsIntoBadReference(e, size, last.1, []);
  }

  /** The last call of a run starts where the calls before it end. */
  lemma {:induction false} PlainRunAppend(e: Expansion, size: nat, position: nat, calls: seq<Call>, call: Call)
    requires position <= |Served(e, size)|
    ensures var content := Served(e, size);
      var before := PlainRun(content, size, position, calls);
      var last := PlainCall(content, size, before.1, call);
      && |before.0| == |calls|
      && PlainRun(content, size, position, calls + [call]) == (before.0 + [last.0], last.1)
    ensures !RunsIntoBadReference(e, size, position, calls + [call]) ==>
      !(e.ending.Invalid? && Demand(size, PlainRun(Served(e, size), size, position, calls).1, call) > |e.out|)
    decreases |calls|
  {
    hide PlainCall, Served, Demand;
    var content := Served(e, size);
    if calls == [] {
      assert [] + [call] == [call] && [call][1..] == [];
      var (bytes, next) := PlainCall(content, size, position, call);
      assert [bytes] + [] == [] + [bytes];
    } else {
      var (bytes, next) := PlainCall(content, size, position, calls[0]);
      assert (calls + [call])[1..] == calls[1..] + [call];
      PlainRunAppend(e, size, next, calls[1..], call);
      var (rest, end) := PlainRun(content, size, next, calls[1..]);
      var last := PlainCall(content, size, end, call);
      assert ([bytes] + rest) + [last.0] == [bytes] + (rest + [last.0]);
    }
  }

  /** What a read reports, exactly: an error if it delivers nothing, or too little of a content
      that ends before its size; and no error otherwise.  Reading nothing reports an error at the
      size, or when the data has run out before. */
  lemma ReadErrors(e: Expansion, size: nat, v: View, length: nat)
    requires Consistent(e, size, v)
    ensures match ReadStep(e, size, v, length)
      case Crashed => e.ending.Invalid?
      case Returned(n, next, err) =>
        && n == Min(length, |Served(e, size)| - v.position) && next.position == v.position + n
        && err == if length > 0 then
                    if n == 0 || (n < length && |Served(e, size)| < size) then UnexpectedEOF else NoError
                  else if v.position == size || v.err == EOF then UnexpectedEOF
                  else NoError
  {
  }

  /** Seeking to `target` from the start, from the position, or from the end: it lands there
      without error exactly when the content reaches that far, however the stream ends. */
  lemma SeekLands(e: Expansion, size: nat, v: View, target: nat)
    requires Consistent(e, size, v)
    ensures Lands(SeekStep(e, size, v, target, 0), target) <==> target <= |Served(e, size)|
    ensures Lands(SeekStep(e, size, v, target - v.position, 1), target) <==> target <= |Served(e, size)|
    ensures Lands(SeekStep(e, size, v, target - size, 2), target) <==> target <= |Served(e, size)|
  {
  }

  predicate Lands(r: Outcome, target: nat) {
    r.Returned? && r.err == NoError && r.n == r.view.position == target
  }

  /** So does the plain file that runs are compared with: a target behind its end leaves it at
      the end, and one before the start at the start. */
  lemma PlainSeekLands(content: seq<byte>, size: nat, position: nat, target: int)
    requires position <= |content|
    ensures var at := if target < 0 then 0 else if target > |content| then |content| else target;
      && PlainCall(content, size, position, Seek(target, 0)) == ([], at)
      && PlainCall(content, size, position, Seek(target - position, 1)) == ([], at)
      && PlainCall(content, size, position, Seek(target - size, 2)) == ([], at)
  {
  }
}
