/** The bounded, chunked and seekable PRS reader.  It keeps a window of its output that slides
    over a fixed buffer, and agrees with the expansion that keeps everything. */
module PrsReader {
  import opened Bytes
  import opened PrsFormat
  import opened PrsContent

  const BUFFER_SIZE := 0x80000
  const BUFFER_THRESHOLD := 0x80000 - 0x400
  const BUFFER_LOOKBEHIND := 0x2000

  /** How one step of the decoder ends.  `Crash` is an index out of range: a reference to
      before the start of the output. */
  datatype Step = Done | Eof | EndOfStream | Crash

  class Reader {
    const data: seq<byte>         // what the underlying reader delivers
    const size: nat               // how long the content is said to be
    var readerPosition: nat
    var controlPos: nat
    var controlByte: byte
    const buffer: array<byte>
    var byteBuffer: byte
    var outputBufferPosition: nat
    var outputPosition: nat
    var position: nat
    var err: Error
    ghost var history: seq<byte>  // everything decompressed since the start
    ghost const whole: Expansion  // what an unbounded decoder makes of `data`

    /** Where the decoder stands in `data`. */
    function Cursor(): PrsFormat.Cursor
      reads this
      requires 1 <= controlPos <= 8
    {
      PrsFormat.Cursor(readerPosition, LowBits(controlPos - 1, controlByte))
    }

    function View(): PrsContent.View
      reads this
    {
      PrsContent.View(position, err)
    }

    /** `whole` is the expansion of the input.  Both are constant, and so is this. */
    ghost predicate Anchored() {
      whole == Expand(data, START, [])
    }

    predicate BitsValid()
      reads this
    {
      1 <= controlPos <= 8 && readerPosition <= |data|
    }

    /** The buffer holds the end of the history: all of it, or more than a copy can reach. */
    ghost predicate Window()
      reads this, buffer
    {
      && buffer.Length == BUFFER_SIZE
      && outputPosition <= outputBufferPosition <= BUFFER_SIZE
      && outputBufferPosition <= |history|
      && (outputBufferPosition == |history| || BUFFER_LOOKBEHIND <= outputBufferPosition)
      && forall k :: 0 <= k < outputBufferPosition ==>
        buffer[k] == history[|history| - outputBufferPosition + k]
    }

    /** The machine will go on to write what the expansion of its whole input has yet to. */
    ghost predicate InStep()
      reads this, buffer
    {
      && BitsValid() && Window()
      && outputBufferPosition <= BUFFER_THRESHOLD
      && outputBufferPosition - outputPosition <= MAX_COPY
      && Expand(data, Cursor(), history) == whole
      && position + outputBufferPosition == |history| + outputPosition
    }

    /** After an error the decoder stands still until it is rewound, and only its view counts. */
    ghost predicate Valid()
      reads this, buffer
    {
      && BitsValid() && buffer.Length == BUFFER_SIZE
      && Consistent(whole, size, View())
      && (err == NoError ==> InStep())
    }

    constructor (data: seq<byte>, size: nat)
      ensures this.data == data && this.size == size && fresh(buffer)
      ensures Anchored() && Valid() && View() == PrsContent.View(0, NoError)
    {
      this.data, this.size := data, size;
      readerPosition := 0;
      controlPos, controlByte := 1, 0;
      buffer := new byte[BUFFER_SIZE](_ => 0);
      byteBuffer := 0;
      outputBufferPosition, outputPosition, position := 0, 0, 0;
      err := NoError;
      history := [];
      whole := Expand(data, START, []);
    }

    method ReadByte() returns (ret: byte, ok: bool)
      requires readerPosition <= |data|
      modifies this`readerPosition, this`byteBuffer
      ensures ok == (old(readerPosition) < |data|)
      ensures readerPosition == if ok then old(readerPosition) + 1 else |data|
      ensures ok ==> ret == data[old(readerPosition)]
    {
      ok := readerPosition < |data|;
      if ok {
        byteBuffer := data[readerPosition];
        readerPosition := readerPosition + 1;
      }
      ret := byteBuffer;
    }

    method ConsumeControlStream() returns (ret: bool, ok: bool)
      requires BitsValid()
      modifies this`readerPosition, this`byteBuffer, this`controlPos, this`controlByte
      ensures BitsValid()
      ensures match TakeBit(data, old(Cursor()))
        case Bit(flag, next) => ok && ret == flag && Cursor() == next
        case NoBit => !ok && readerPosition == |data|
    {
      ok := true;
      controlPos := controlPos - 1;
      if controlPos == 0 {
        controlByte, ok := ReadByte();
        controlPos := 8;
      }
      ret := controlByte % 2 == 1;
      controlByte := controlByte / 2;
    }
  
    method QueueOutput(b: byte, flush: bool)
      requires Window() && outputBufferPosition < BUFFER_SIZE
      requires flush ==> outputBufferPosition - outputPosition < MAX_COPY
      modifies this`outputBufferPosition, this`outputPosition, this`history, buffer
      ensures Window() && history == old(history) + [b]
      ensures outputBufferPosition - outputPosition == old(outputBufferPosition - outputPosition) + 1
      ensures if flush then outputBufferPosition <= BUFFER_THRESHOLD
        else outputPosition == old(outputPosition)
    {
      buffer[outputBufferPosition] := b;
      outputBufferPosition := outputBufferPosition + 1;
      history := history + [b];
      if flush {
        FlushOutput();
      }
    }

    /** Slides the window back to the start of the buffer once the buffer is nearly full.  Any
        byte that a later copy can name is still in it. */
    method FlushOutput()
      requires Window() && outputBufferPosition - outputPosition <= MAX_COPY
      modifies this`outputBufferPosition, this`outputPosition, buffer
      ensures Window() && outputBufferPosition <= BUFFER_THRESHOLD
      ensures outputBufferPosition - outputPosition == old(outputBufferPosition - outputPosition)
    {
      if outputBufferPosition > BUFFER_THRESHOLD {
        var diff := outputBufferPosition - BUFFER_LOOKBEHIND;
        forall k | 0 <= k < BUFFER_LOOKBEHIND {
          buffer[k] := buffer[diff + k];
        }
        outputPosition := outputPosition - diff;
        outputBufferPosition := BUFFER_LOOKBEHIND;
      }
    }

    /** Repeats `size` bytes from `-offset` bytes back, one at a time. */
    method CopyFromWindow(offset: int, size: nat) returns (r: Step)
      requires Window() && outputBufferPosition <= BUFFER_THRESHOLD
      requires outputPosition == outputBufferPosition
      requires -MAX_OFFSET <= offset < 0 && 0 < size <= MAX_COPY
      modifies this`outputBufferPosition, this`outputPosition, this`history, buffer
      ensures if -|old(history)| <= offset then
          && r == Done && history == CopyOut(old(history), offset, size)
          && Window() && outputBufferPosition <= BUFFER_THRESHOLD
          && outputBufferPosition - outputPosition == size
        else r == Crash
    {
      var bufferPos := outputBufferPosition;
      ghost var before := history;
      for i := 0 to size
        invariant Window() && outputBufferPosition == bufferPos + i
        invariant outputPosition == bufferPos
        invariant i > 0 ==> -|before| <= offset
        invariant history == if i == 0 then before else CopyOut(before, offset, i)
      {
        var b: byte := 0;
        var pos := offset + i + bufferPos;
        if pos < outputBufferPosition {
          if pos < 0 {
            return Crash;  // index out of range
          }
          b := buffer[pos];
        }
        QueueOutput(b, false);
      }
      FlushOutput();
      r := Done;
    }

    /** The rest of a long or extended copy.  A zero word ends the stream. */
    method ReadLongCopy() returns (r: Step, offset: int, size: nat)
      requires BitsValid()
      modifies this`readerPosition, this`byteBuffer
      ensures BitsValid()
      ensures match NextLong(data, old(Cursor()))
        case OutOfData => r == Eof
        case End(_) => r == EndOfStream
        case Next(t, next) => r == Done && Cursor() == next && t.offset == offset && t.size == size
    {
      var b, lsb, msb: byte;
      var ok: bool;
      size := 0;
      lsb, ok := ReadByte();
      msb, ok := ReadByte();
      var word := msb as int * 0x100 + lsb;
      offset := word;
      if !ok {
        return Eof, offset, size;
      }
      if word == 0 {
        return EndOfStream, offset, size;
      }
      size := lsb % 8;
      offset := word / 8 - 0x2000;
      if size == 0 {
        b, ok := ReadByte();
        size := b as int + 10;
      } else {
        size := size + 2;
      }
      r := if ok then Done else Eof;
    }

    /** The rest of a short copy.  A failing control bit goes unnoticed here; the byte after
        it cannot be read either. */
    method ReadShortCopy() returns (r: Step, offset: int, size: nat)
      requires BitsValid()
      modifies this`readerPosition, this`byteBuffer, this`controlPos, this`controlByte
      ensures BitsValid()
      ensures match NextShort(data, old(Cursor()))
        case OutOfData => r == Eof
        case End(_) => r == EndOfStream
        case Next(t, next) => r == Done && Cursor() == next && t.offset == offset && t.size == size
    {
      size := 0;
      ghost var first := TakeBit(data, Cursor());
      for i := 0 to 2
        invariant BitsValid()
        invariant i == 0 ==> Cursor() == old(Cursor()) && size == 0
        invariant i == 1 ==> if first.Bit? then Cursor() == first.next && size == (if first.flag then 1 else 0)
          else readerPosition == |data|
        invariant i == 2 && first.Bit? ==>
          match TakeBit(data, first.next)
          case Bit(low, next) => Cursor() == next &&
            size == (if first.flag then 2 else 0) + (if low then 1 else 0)
          case NoBit => readerPosition == |data|
        invariant i == 2 && first.NoBit? ==> readerPosition == |data|
      {
        size := size * 2;
        var flag, ok := ConsumeControlStream();
        if flag {
          size := size + 1;
        }
      }
      size := size + 2;
      var b, ok := ReadByte();
      offset := b as int - 0x100;
      r := if ok then Done else Eof;
    }

    /** The decoder has dealt with what it scanned as the expansion does. */
    ghost predicate Followed(scan: Scan, before: seq<byte>, r: Step)
      reads this, buffer
    {
      && BitsValid()
      && (r != Crash ==> Window() && outputBufferPosition <= BUFFER_THRESHOLD)
      && (r == Eof || r == EndOfStream ==> history == before && outputPosition == outputBufferPosition)
      && match scan
         case OutOfData => r == Eof
         case End(_) => r == EndOfStream
         case Next(t, next) =>
           if Reaches(t, |before|) then
             && r == Done && Cursor() == next && history == Apply(before, t)
             && outputBufferPosition - outputPosition == |history| - |before|
           else r == Crash
    }

    /** Runs one operation of the compressed stream, as the expansion would on the history. */
    method Decompress() returns (r: Step)
      requires BitsValid() && Window() && outputBufferPosition <= BUFFER_THRESHOLD
      requires outputPosition == outputBufferPosition
      modifies this`readerPosition, this`byteBuffer, this`controlPos, this`controlByte
      modifies this`outputBufferPosition, this`outputPosition, this`history, buffer
      ensures Followed(NextToken(data, old(Cursor())), old(history), r)
    {
      var flag, ok := ConsumeControlStream();
      if ok && flag {
        var b, got := ReadByte();
        if !got {
          return Eof;
        }
        QueueOutput(b, true);
        r := Done;
      } else if ok {
        r := DecompressCopy();
      } else {
        r := Eof;
      }
    }

    /** The copying half of `Decompress`. */
    method DecompressCopy() returns (r: Step)
      requires BitsValid() && Window() && outputBufferPosition <= BUFFER_THRESHOLD
      requires outputPosition == outputBufferPosition
      modifies this`readerPosition, this`byteBuffer, this`controlPos, this`controlByte
      modifies this`outputBufferPosition, this`outputPosition, this`history, buffer
      ensures Followed(NextCopy(data, old(Cursor())), old(history), r)
    {
      hide NextCopy, CopyOut;
      var offset, size;
      r, offset, size := ReadCopy();
      if r == Done {
        r := CopyFromWindow(offset, size);
      }
    }

    /** Reads a copy of any kind. */
    method ReadCopy() returns (r: Step, offset: int, size: nat)
      requires BitsValid()
      modifies this`readerPosition, this`byteBuffer, this`controlPos, this`controlByte
      ensures BitsValid()
      ensures match NextCopy(data, old(Cursor()))
        case OutOfData => r == Eof
        case End(_) => r == EndOfStream
        case Next(t, next) => r == Done && Cursor() == next && t.offset == offset && t.size == size
    {
      var flag, ok := ConsumeControlStream();
      if ok && flag {
        r, offset, size := ReadLongCopy();
      } else if ok {
        r, offset, size := ReadShortCopy();
      } else {
        r, offset, size := Eof, 0, 0;
      }
    }
  
    /** The pending output is the next part of the expansion. */
    lemma PendingIsServed()
      requires InStep()
      ensures position + outputBufferPosition - outputPosition <= |whole.out|
      ensures forall k :: outputPosition <= k < outputBufferPosition ==>
        buffer[k] == whole.out[position + k - outputPosition]
    {
      ExpandExtends(data, Cursor(), history);
      assert forall k :: 0 <= k < |history| ==> whole.out[..|history|][k] == history[k];
    }

    /** The expansion has come to its end, and all of it has been delivered. */
    ghost predicate Exhausted(ending: Ending)
      reads this, buffer
    {
      && BitsValid() && buffer.Length == BUFFER_SIZE && err == NoError
      && whole == Expansion(history, ending) && position == |history|
    }

    /** `Decompress` when nothing is pending: it queues at least one byte, or the expansion is
        at its end. */
    method Refill() returns (step: Step)
      requires Valid() && err == NoError && outputPosition == outputBufferPosition
      modifies this`readerPosition, this`byteBuffer, this`controlPos, this`controlByte
      modifies this`outputBufferPosition, this`outputPosition, this`history, buffer
      ensures match step
        case Done => Valid() && outputPosition < outputBufferPosition
        case Eof => Exhausted(Truncated)
        case EndOfStream => Exhausted(Terminated)
        case Crash => whole == Expansion(old(history), Invalid)
    {
      step := Decompress();
    }

    /** `p` holds the content from `start` to the position in its first `lo` bytes, and is as
        it was `before` behind them. */
    ghost predicate Filled(p: array<byte>, lo: nat, start: nat, before: seq<byte>)
      reads this, p
    {
      && lo <= p.Length == |before|
      && position == start + lo
      && (forall k :: 0 <= k < lo ==> p[k] == ContentByte(whole, start + k))
      && forall k :: lo <= k < p.Length ==> p[k] == before[k]
    }

    lemma FilledIsServed(p: array<byte>, n: nat, start: nat, before: seq<byte>)
      requires Filled(p, n, start, before) && start + n <= |Served(whole, size)|
      ensures p[..n] == Served(whole, size)[start..start + n] && p[n..] == before[n..]
    {
      ServedByByte(whole, size, start, p[..n]);
    }

    /** Moves pending output to `p[lo..hi]`. */
    method Deliver(p: array<byte>, lo: nat, hi: nat, ghost start: nat, ghost before: seq<byte>)
        returns (read: nat)
      requires InStep() && outputPosition < outputBufferPosition
      requires lo < hi <= p.Length && p != buffer && Filled(p, lo, start, before)
      modifies this`outputPosition, this`position, p
      ensures InStep() && 0 < read <= hi - lo && position <= |whole.out|
      ensures Filled(p, lo + read, start, before)
    {
      hide Expand, LowBits;
      PendingIsServed();
      read := Min(hi - lo, outputBufferPosition - outputPosition);
      forall k | lo <= k < lo + read {
        p[k] := buffer[outputPosition + k - lo];
      }
      outputPosition := outputPosition + read;
      position := position + read;
    }

    /** One round of `Read`: decompress if nothing is pending, cut `p` to what the content has
        left, and move what is pending. */
    method Advance(p: array<byte>, lo: nat, hi: nat, ghost start: nat, ghost before: seq<byte>)
        returns (lo': nat, hi': nat, step: Step)
      requires Valid() && err == NoError && position < size
      requires lo < hi <= p.Length && p != buffer && Filled(p, lo, start, before)
      modifies this, buffer, p
      ensures err == NoError && Filled(p, lo', start, before)
      ensures step == Done ==> Valid() && lo < lo' <= hi' <= hi
      ensures step != Done ==> lo' == lo && hi' == hi && position == old(position)
      ensures hi' == hi || hi' - lo' == size - position
      ensures step == Eof ==> Exhausted(Truncated)
      ensures step == EndOfStream ==> Exhausted(Terminated)
      ensures step == Crash ==> whole.ending == Invalid && |whole.out| == position
    {
      lo', hi', step := lo, hi, Done;
      if outputBufferPosition <= outputPosition {
        step := Refill();
        if step != Done {
          return;
        }
      }
      if hi - lo > size - position {
        hi' := lo + (size - position);
      }
      var read := Deliver(p, lo, hi', start, before);
      lo' := lo + read;
    }

    /** Decompresses into `p` until it is full, the content is complete, or there is an error.
        What is left to fill of `p` is its part from `lo` to `hi`. */
    method Decode(p: array<byte>) returns (lo: nat, hi: nat, step: Step)
      requires Valid() && err == NoError && position < size && p != buffer
      modifies this, buffer, p
      ensures err == NoError && lo <= hi <= p.Length && (step != Done ==> lo < hi && position < size)
      ensures Filled(p, lo, old(position), old(p[..]))
      ensures hi == p.Length || hi - lo == size - position
      ensures match step
        case Done => Valid() && position == Min(old(position) + p.Length, size)
        case Eof => Exhausted(Truncated)
        case EndOfStream => Exhausted(Terminated)
        case Crash => whole.ending == Invalid && |whole.out| == position
    {
      lo, hi, step := 0, p.Length, Done;
      while lo < hi
        invariant lo <= hi <= p.Length && Valid() && err == NoError && step == Done
        invariant Filled(p, lo, old(position), old(p[..]))
        invariant lo < hi ==> position < size
        invariant hi == p.Length || hi - lo == size - position
        decreases hi - lo
      {
        lo, hi, step := Advance(p, lo, hi, old(position), old(p[..]));
        if step != Done || position >= size {
          break;
        }
      }
    }

    /** Zeros in place of what the stream does not hold. */
    method Pad(p: array<byte>, lo: nat, hi: nat, ghost start: nat, ghost before: seq<byte>)
        returns (read: nat)
      requires whole.ending == Terminated && |whole.out| <= position <= size
      requires lo <= hi <= p.Length && p != buffer && Filled(p, lo, start, before)
      modifies this`position, p
      ensures read == Min(size - old(position), hi - lo) && Filled(p, lo + read, start, before)
    {
      read := Min(size - position, hi - lo);
      forall k | lo <= k < lo + read {
        p[k] := 0;
      }
      position := position + read;
    }

    /** The end of `Read`: the error sticks, and a terminated stream reads on as zeros. */
    method Finish(p: array<byte>, lo: nat, hi: nat, ending: Error, ghost start: nat, ghost before: seq<byte>)
        returns (n: nat, e: Error)
      requires lo <= hi <= p.Length && p != buffer && Filled(p, lo, start, before)
      requires ending == PrsEOF ==> whole.ending == Terminated && |whole.out| <= position < size
      requires ending == NoError ==> InStep()
      modifies this`err, this`position, p
      ensures ending == NoError ==> InStep()
      ensures err == ending && Filled(p, n, start, before)
      ensures n == if ending == PrsEOF then lo + Min(size - old(position), hi - lo) else lo
      ensures e == if ending == EOF then UnexpectedEOF else if ending == PrsEOF then NoError else ending
    {
      hide Expand, LowBits;
      n, e := lo, ending;
      err := e;
      if e == EOF {
        e := UnexpectedEOF;
      } else if e == PrsEOF {
        e := EOF;
      }
      if e == EOF && position < size {
        var read := Pad(p, lo, hi, start, before);
        n := n + read;
        e := NoError;
      }
    }

    /** `Read` up to its first error: none of it happens when there is one already. */
    method Fill(p: array<byte>) returns (lo: nat, hi: nat, e: Error, crashed: bool)
      requires Valid() && p != buffer
      modifies this, buffer, p
      ensures lo <= hi <= p.Length && Filled(p, lo, old(position), old(p[..]))
      ensures e == PrsEOF ==> hi == p.Length || hi - lo == size - position
      ensures crashed ==> ReadStep(whole, size, old(View()), p.Length) == Crashed
      ensures !crashed ==> BitsValid() && buffer.Length == BUFFER_SIZE && (e == NoError ==> InStep())
      ensures !crashed ==> Stopped(whole, size, old(View()), p.Length, lo, e)
    {
      lo, hi, crashed := 0, p.Length, false;
      e := err;
      if position >= size {
        e := EOF;
      }
      if hi > 0 && e == NoError {
        var step;
        lo, hi, step := Decode(p);
        match step {
          case Done =>
          case Eof => e := EOF;
          case EndOfStream => e := PrsEOF;
          case Crash => crashed := true;
        }
      }
    }

    /** Reads into `p`: the next bytes of the content, and the error that the state calls for. */
    method Read(p: array<byte>) returns (r: Outcome)
      requires Valid() && p != buffer
      modifies this, buffer, p
      ensures r == ReadStep(whole, size, old(View()), p.Length)
      ensures r.Returned? ==>
        && Valid() && View() == r.view
        && p[..r.n] == Served(whole, size)[old(position)..old(position) + r.n]
        && p[r.n..] == old(p[r.n..])
    {
      hide ReadStep, Served, ContentByte, Consistent, Stopped, InStep;
      ValidView();
      var lo, hi, e, crashed := Fill(p);
      if crashed {
        return Crashed;
      }
      var n: nat;
      n, e := Finish(p, lo, hi, e, old(position), old(p[..]));
      StoppedIsReadStep(whole, size, old(View()), p.Length, lo, err);
      FilledIsServed(p, n, old(position), old(p[..]));
      r := Returned(n, View(), e);
    }
  
    /** Back to the start of the data.  The control byte is left stale: it is spent. */
    method Rewind()
      requires Anchored() && buffer.Length == BUFFER_SIZE
      modifies this
      ensures Valid() && View() == PrsContent.View(0, NoError)
    {
      readerPosition := 0;
      controlPos := 1;
      outputBufferPosition := 0;
      outputPosition := 0;
      position := 0;
      err := NoError;
      history := [];
    }

    /** Moves to a position of the content, decompressing everything before it again when it
        lies behind. */
    method Seek(offset: int, whence: int) returns (r: Outcome)
      requires Anchored() && Valid()
      modifies this, buffer
      ensures r == SeekStep(whole, size, old(View()), offset, whence)
      ensures r.Returned? ==> Valid() && View() == r.view
    {
      var target := offset;
      if whence == 1 {
        target := target + position;
      } else if whence == 2 {
        target := target + size;
      }
      if target < position {
        Rewind();
      }
      r := ReadForward(target);
    }

    lemma ValidView()
      requires Valid()
      ensures Consistent(whole, size, View()) && position <= |Served(whole, size)|
    {
    }

    /** Reads and drops chunks of at most 0x1000 bytes up to a target. */
    method ReadForward(target: int) returns (r: Outcome)
      requires Valid()
      modifies this, buffer
      ensures r == Forward(whole, size, old(View()), target)
      ensures r.Returned? ==> Valid() && View() == r.view
    {
      hide Forward, ReadStep, Served, Consistent, Valid;
      ValidView();
      var e := NoError;
      while target > position && e == NoError
        invariant Valid() && position <= |Served(whole, size)|
        invariant if e == NoError then Forward(whole, size, old(View()), target) == Forward(whole, size, View(), target)
          else Forward(whole, size, old(View()), target) == Returned(position, View(), e)
        decreases target - position, e == NoError
      {
        var diff := Min(target - position, 0x1000);
        var p := new byte[diff](_ => 0);
        ValidView();
        ForwardByReading(whole, size, View(), target, diff);
        var read := Read(p);
        if read.Crashed? {
          return Crashed;
        }
        ValidView();
        e := read.err;
      }
      ForwardFromTarget(whole, size, View(), target);
      r := Returned(position, View(), e);
    }
  }
}
