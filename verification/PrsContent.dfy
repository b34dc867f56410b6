/** What a PRS reader serves: a plain content of known size, and the effect of each operation
    on the reader's position and sticky error. */
module PrsContent {
  import opened Bytes
  import opened PrsFormat

  /** `PrsEOF` says that the compressed stream was terminated, and is never shown to callers;
      `EOF` that the data ran out or that the content has been read to its size, and callers
      get it as `UnexpectedEOF`. */
  datatype Error = NoError | PrsEOF | EOF | UnexpectedEOF

  /** The position of a reader in its content, and its sticky error. */
  datatype View = View(position: nat, err: Error)

  /** The content: the expansion cut at `size`, zero-padded when the stream was terminated. */
  function Served(e: Expansion, size: nat): (f: seq<byte>)
    ensures |f| <= size
    ensures e.ending.Terminated? ==> |f| == size
  {
    if |e.out| >= size then e.out[..size]
    else if e.ending.Terminated? then e.out + Zeros(size - |e.out|)
    else e.out
  }

  /** The content byte by byte. */
  function ContentByte(e: Expansion, k: nat): byte {
    if k < |e.out| then e.out[k] else 0
  }

  lemma ServedByByte(e: Expansion, size: nat, start: nat, s: seq<byte>)
    requires start + |s| <= |Served(e, size)|
    requires forall k :: 0 <= k < |s| ==> s[k] == ContentByte(e, start + k)
    ensures s == Served(e, size)[start..start + |s|]
  {
  }

  /** `n` bytes delivered and an error, or an index out of range. */
  datatype Outcome = Returned(n: nat, view: View, err: Error) | Crashed

  /** The states a reader of the content can be in. */
  ghost predicate Consistent(e: Expansion, size: nat, v: View) {
    && v.position <= |Served(e, size)|
    && match v.err
       case NoError => v.position <= |e.out|
       case PrsEOF => e.ending.Terminated? && |e.out| <= v.position
       case EOF => v.position == |Served(e, size)| && (v.position == size || e.ending.Truncated?)
       case UnexpectedEOF => false
  }

  /** One `Read` into a buffer of `length` bytes. */
  function ReadStep(e: Expansion, size: nat, v: View, length: nat): Outcome
    requires v.position <= |Served(e, size)|
  {
    var n := Min(length, |Served(e, size)| - v.position);
    if v.position == size then
      Returned(0, View(v.position, EOF), UnexpectedEOF)
    else if v.err != NoError then
      Returned(n, View(v.position + n, v.err), if v.err == EOF then UnexpectedEOF else NoError)
    else if Min(v.position + length, size) <= |e.out| then
      Returned(n, View(v.position + n, NoError), NoError)
    else
      match e.ending
      case Terminated => Returned(n, View(v.position + n, PrsEOF), NoError)
      case Truncated => Returned(n, View(v.position + n, EOF), UnexpectedEOF)
      case Invalid => Crashed
  }

  /** How far one `Read` got from `v`: `lo` bytes of the expansion before it met `e`. */
  ghost predicate Stopped(ex: Expansion, size: nat, v: View, length: nat, lo: nat, e: Error) {
    && lo <= length
    && if v.position == size then lo == 0 && e == EOF
       else if v.err != NoError then lo == 0 && e == v.err
       else match e
         case NoError => v.position + lo == Min(v.position + length, size) <= |ex.out|
         case EOF => lo < length && v.position + lo == |ex.out| < size && ex.ending.Truncated?
         case PrsEOF => lo < length && v.position + lo == |ex.out| < size && ex.ending.Terminated?
         case UnexpectedEOF => false
  }

  /** From where it stopped, `Read` pads the content of a terminated stream. */
  lemma StoppedIsReadStep(ex: Expansion, size: nat, v: View, length: nat, lo: nat, e: Error)
    requires Consistent(ex, size, v) && Stopped(ex, size, v, length, lo, e)
    ensures var n := if e == PrsEOF then lo + Min(size - v.position - lo, length - lo) else lo;
      && ReadStep(ex, size, v, length)
         == Returned(n, View(v.position + n, e), if e == EOF then UnexpectedEOF else NoError)
      && Consistent(ex, size, View(v.position + n, e))
  {
  }

  /** The target of a `Seek`. */
  function Target(size: nat, position: nat, offset: int, whence: int): int {
    if whence == 1 then offset + position else if whence == 2 then offset + size else offset
  }

  /** Reading forward to `target`, or to the first error. */
  function Forward(e: Expansion, size: nat, v: View, target: int): Outcome
    requires v.position <= |Served(e, size)|
  {
    if target <= v.position then
      Returned(v.position, v, NoError)
    else if v.err == NoError && e.ending.Invalid? && Min(target, size) > |e.out| then
      Crashed
    else if target <= |Served(e, size)| then
      Returned(target, View(target, if v.err == NoError && target > |e.out| then PrsEOF else v.err), NoError)
    else
      Returned(|Served(e, size)|, View(|Served(e, size)|, EOF), UnexpectedEOF)
  }

  /** One `Seek`: rewind when the target lies behind, then read forward. */
  function SeekStep(e: Expansion, size: nat, v: View, offset: int, whence: int): Outcome
    requires v.position <= |Served(e, size)|
  {
    var target := Target(size, v.position, offset, whence);
    Forward(e, size, if target < v.position then View(0, NoError) else v, target)
  }

  /** Reading part of the way towards a target. */
  lemma ForwardByReading(e: Expansion, size: nat, v: View, target: int, length: nat)
    requires Consistent(e, size, v) && 0 < length <= target - v.position
    ensures match ReadStep(e, size, v, length)
      case Crashed => Forward(e, size, v, target) == Crashed
      case Returned(n, next, NoError) =>
        0 < n <= length && next.position == v.position + n && Consistent(e, size, next)
        && Forward(e, size, v, target) == Forward(e, size, next, target)
      case Returned(n, next, err) =>
        v.position <= next.position && Forward(e, size, v, target) == Returned(next.position, next, err)
  {
  }

  lemma ForwardFromTarget(e: Expansion, size: nat, v: View, target: int)
    requires v.position <= |Served(e, size)|
    ensures target <= v.position ==> Forward(e, size, v, target) == Returned(v.position, v, NoError)
  {
  }
}
