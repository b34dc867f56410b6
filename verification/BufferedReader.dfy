/** A buffered reader that can seek without losing its buffer, against the plain file. */
module BufferedReader {
  import opened Bytes

  datatype Outcome = Moved(n: nat) | SeekError

  /** The underlying file.  A read delivers as many bytes as it likes, at least one. */
  class File {
    const content: seq<byte>
    var position: nat

    constructor (content: seq<byte>)
      ensures this.content == content && position == 0
    {
      this.content := content;
      position := 0;
    }

    method Read(want: nat) returns (chunk: seq<byte>, eof: bool)
      requires want > 0
      modifies this`position
      ensures eof == (old(position) >= |content|)
      ensures eof ==> chunk == [] && position == old(position)
      ensures !eof ==> 0 < |chunk| <= want && old(position) + |chunk| == position <= |content|
      ensures !eof ==> chunk == content[old(position)..position]
    {
      chunk, eof := [], position >= |content|;
      if !eof {
        assert 1 <= want && position + 1 <= |content|;
        var n: nat :| 1 <= n <= want && position + n <= |content|;
        chunk, position := content[position..position + n], position + n;
      }
    }

    /** Moves anywhere at or behind the start; otherwise an error, and the position stays. */
    method Seek(offset: int, whence: int) returns (r: Outcome)
      modifies this`position
      ensures var target := Target(old(position), |content|, offset, whence);
        if target >= 0 then r == Moved(target) && position == target
        else r == SeekError && position == old(position)
    {
      var target := Target(position, |content|, offset, whence);
      if target < 0 {
        return SeekError;
      }
      position := target;
      r := Moved(position);
    }
  }

  function Target(position: nat, length: nat, offset: int, whence: int): int {
    if whence == 1 then position + offset else if whence == 2 then length + offset else offset
  }

  /** The buffer of the standard library in front of a file: a read takes from it, and fills it
      with one read when it is empty; large reads go past it. */
  class Buffer {
    const file: File
    const size: nat
    var buffered: seq<byte>

    constructor (file: File, size: nat)
      requires size > 0
      ensures this.file == file && this.size == size && buffered == []
    {
      this.file, this.size, buffered := file, size, [];
    }

    /** What is buffered is what the file has just delivered. */
    ghost predicate Valid()
      reads this, file
    {
      && size > 0
      && |buffered| <= file.position
      && (buffered != [] ==> file.position <= |file.content|)
      && (buffered != [] ==> buffered == file.content[file.position - |buffered|..file.position])
    }

    method Read(want: nat) returns (chunk: seq<byte>, eof: bool)
      requires Valid()
      modifies this`buffered, file`position
      ensures Valid()
      ensures file.position - |buffered| == old(file.position - |buffered|) + |chunk|
      ensures |chunk| <= want
      ensures var p := old(file.position - |buffered|);
        && (eof ==> chunk == [] && p >= |file.content|)
        && (!eof && want > 0 ==> 0 < |chunk| && p + |chunk| <= |file.content| && chunk == file.content[p..p + |chunk|])
      ensures old(buffered) != [] ==>
        !eof && |chunk| == Min(want, |old(buffered)|) && |buffered| == |old(buffered)| - |chunk|
    {
      eof := false;
      if want == 0 {
        return [], false;
      }
      if buffered == [] {
        if want >= size {
          chunk, eof := file.Read(want);
          return;
        }
        buffered, eof := file.Read(size);
        if eof {
          return [], true;
        }
      }
      var n := Min(want, |buffered|);
      chunk, buffered := buffered[..n], buffered[n..];
    }

    /** Drops what is buffered. */
    method Reset()
      requires size > 0
      modifies this`buffered
      ensures buffered == [] && Valid()
    {
      buffered := [];
    }
  }

  // ----- What callers see

  datatype Call = Read(want: nat) | Seek(offset: int, whence: int)

  /** The bytes of a read with whether it met the end, or where a seek says it has moved. */
  datatype Reply = Bytes(chunk: seq<byte>, eof: bool) | At(position: nat)

  /** A reply that the plain file could give at `position`, which is left for `next`. */
  predicate Plain(content: seq<byte>, position: nat, call: Call, reply: Reply, next: nat) {
    match call
    case Read(want) =>
      && reply.Bytes? && |reply.chunk| <= want && next == position + |reply.chunk|
      && (reply.eof ==> reply.chunk == [] && position >= |content|)
      && (!reply.eof && want > 0 ==> 0 < |reply.chunk| && next <= |content| && reply.chunk == content[position..next])
    case Seek(offset, whence) =>
      && reply.At? && reply.position == next
      && next == Target(position, |content|, offset, whence)
  }

  /** A run of calls with their replies, every one of which the plain file could have given. */
  predicate PlainRun(content: seq<byte>, position: nat, calls: seq<Call>, replies: seq<Reply>, end: nat)
    decreases |calls|
  {
    if calls == [] then replies == [] && end == position
    else
      && replies != []
      && var next := if replies[0].Bytes? then position + |replies[0].chunk| else replies[0].position;
        Plain(content, position, calls[0], replies[0], next)
        && PlainRun(content, next, calls[1..], replies[1..], end)
  }

  predicate SeeksBeforeStart(content: seq<byte>, position: nat, call: Call) {
    call.Seek? && Target(position, |content|, call.offset, call.whence) < 0
  }

  function Delivered(replies: seq<Reply>): seq<byte> {
    if replies == [] then []
    else (if replies[0].Bytes? then replies[0].chunk else []) + Delivered(replies[1..])
  }

  /** Where a seek leads: from the start, from the position, and from the end. */
  lemma PlainSeek(content: seq<byte>, position: nat, target: nat, next: nat)
    ensures Plain(content, position, Seek(target, 0), At(next), next) <==> next == target
    ensures Plain(content, position, Seek(target - position, 1), At(next), next) <==> next == target
    ensures Plain(content, position, Seek(target - |content|, 2), At(next), next) <==> next == target
  {
  }

  lemma FirstRead(content: seq<byte>, position: nat, calls: seq<Call>, replies: seq<Reply>, end: nat)
    requires position <= |content| && calls != [] && calls[0].Read? && PlainRun(content, position, calls, replies, end)
    ensures replies != [] && replies[0].Bytes?
    ensures var next := position + |replies[0].chunk|;
      && next <= |content| && replies[0].chunk == content[position..next]
      && (replies[0].eof ==> next == |content|)
      && PlainRun(content, next, calls[1..], replies[1..], end)
  {
  }

  /** However reads are cut, what they deliver is the file between where they start and end; and
      if the last one meets the end, it is all the rest of the file. */
  lemma {:induction false} ReadsDeliverFile(content: seq<byte>, position: nat, calls: seq<Call>, replies: seq<Reply>,
                                            end: nat)
    requires position <= |content| && PlainRun(content, position, calls, replies, end)
    requires forall c <- calls :: c.Read?
    ensures |calls| == |replies| && position <= end <= |content| && Delivered(replies) == content[position..end]
    ensures replies != [] && replies[|replies| - 1].Bytes? && replies[|replies| - 1].eof ==> end == |content|
    decreases |calls|
  {
    if calls != [] {
      hide PlainRun;
      FirstRead(content, position, calls, replies, end);
      var next := position + |replies[0].chunk|;
      ReadsDeliverFile(content, next, calls[1..], replies[1..], end);
      assert content[position..end] == content[position..next] + content[next..end];
    }
  }

  lemma NoSeeks(content: seq<byte>, position: nat, calls: seq<Call>, k: nat)
    requires forall c <- calls :: c.Read?
    ensures k < |calls| ==> !SeeksBeforeStart(content, position, calls[k])
  {
    if k < |calls| {
      assert calls[k] in calls;
    }
  }

  class BufReader {
    const reader: File
    const breader: Buffer
    var position: nat

    constructor (reader: File, size: nat)
      requires size > 0
      ensures this.reader == reader && fresh(breader) && position == 0
      ensures reader.position == 0 ==> InStep()
    {
      this.reader := reader;
      breader := new Buffer(reader, size);
      position := 0;
    }

    /** The logical position is that of the file less what is buffered. */
    ghost predicate InStep()
      reads this, breader, reader
    {
      breader.file == reader && breader.Valid() && position + |breader.buffered| == reader.position
    }

    /** Delivers the bytes of the file at the logical position: some if there are any. */
    method Read(want: nat) returns (chunk: seq<byte>, eof: bool)
      requires InStep()
      modifies this, breader`buffered, reader`position
      ensures InStep() && Plain(reader.content, old(position), Call.Read(want), Bytes(chunk, eof), position)
    {
      chunk, eof := breader.Read(want);
      position := position + |chunk|;
    }

    /** Moves the logical position as seeking in the plain file would.  A target within the
        buffer is reached by reading.  After a seek to before the start the logical position is
        zero, and from then on wrong unless the file is at its start. */
    method Seek(offset: int, whence: int) returns (r: Outcome)
      requires InStep() && 0 <= whence <= 2
      modifies this, breader`buffered, reader`position
      ensures var target := Target(old(position), |reader.content|, offset, whence);
        if target >= 0 then
          && InStep() && r == Moved(position)
          && Plain(reader.content, old(position), Call.Seek(offset, whence), At(position), position)
        else
          && r == SeekError && position == 0 && reader.position == old(reader.position)
          && (InStep() <==> reader.position == 0)
    {
      var relative := -1;
      if whence == 1 {
        relative := offset;
      } else if whence == 0 {
        relative := offset - position;
      }
      if relative == 0 {
        r := Moved(position);
      } else if relative >= 0 && relative < |breader.buffered| {
        Skip(relative);
        r := Moved(position);
      } else {
        if whence == 1 {
          r := reader.Seek(position + offset, 0);
        } else {
          r := reader.Seek(offset, whence);
        }
        position := if r.Moved? then r.n else 0;
        breader.Reset();
      }
    }

    /** Serves calls up to the first seek to before the start.  All of their replies are those of
        the plain file, in one run, which stands `at` its end before such a seek. */
    method Serve(calls: seq<Call>) returns (replies: seq<Reply>, ghost at: nat)
      requires InStep() && forall c <- calls :: c.Seek? ==> 0 <= c.whence <= 2
      modifies this, breader`buffered, reader`position
      ensures |replies| <= |calls| && PlainRun(reader.content, old(position), calls[..|replies|], replies, at)
      ensures |replies| == |calls| ==> InStep() && position == at
      ensures |replies| < |calls| ==> position == 0 && SeeksBeforeStart(reader.content, at, calls[|replies|])
      decreases |calls|
    {
      replies, at := [], position;
      if calls == [] {
        return;
      }
      var reply;
      match calls[0] {
        case Read(want) =>
          var chunk, eof := Read(want);
          reply := Bytes(chunk, eof);
        case Seek(offset, whence) =>
          var moved := Seek(offset, whence);
          if moved.SeekError? {
            return;
          }
          reply := At(moved.n);
      }
      var rest;
      rest, at := Serve(calls[1..]);
      replies := [reply] + rest;
      assert calls[..|replies|][1..] == calls[1..][..|rest|];
    }

    /** Reads, however they are cut, deliver the file from where they start to where they end. */
    method ServeReads(calls: seq<Call>) returns (replies: seq<Reply>)
      requires InStep() && position <= |reader.content| && forall c <- calls :: c.Read?
      modifies this, breader`buffered, reader`position
      ensures InStep() && |replies| == |calls| && old(position) <= position <= |reader.content|
      ensures Delivered(replies) == reader.content[old(position)..position]
    {
      ghost var at;
      replies, at := Serve(calls);
      NoSeeks(reader.content, at, calls, |replies|);
      assert calls[..|calls|] == calls;
      ReadsDeliverFile(reader.content, old(position), calls, replies, at);
    }

    /** Reads and drops bytes that are buffered, at most 0x100 at a time. */
    method Skip(relative: nat)
      requires InStep() && relative < |breader.buffered|
      modifies this, breader`buffered, reader`position
      ensures InStep() && position == old(position) + relative
    {
      var left := relative;
      while left > 0
        invariant InStep() && position + left == old(position) + relative && 0 <= left < |breader.buffered|
      {
        var diff := Min(left, 0x100);
        ghost var before := breader.buffered;
        var chunk, eof := breader.Read(diff);
        position := position + |chunk|;
        left := left - |chunk|;
        assert |chunk| == diff;
      }
    }
  }
}
