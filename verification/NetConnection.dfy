/** A connection: packets over a byte stream that delivers and accepts as much as it likes at
    a time, under a cipher for each direction. */
module NetConnection {
  import opened Bytes
  import opened NetWire

  /** The byte stream.  How much one call moves is not determined. */
  class Stream {
    var incoming: seq<byte>  // what the peer has sent and is yet to be read
    var outgoing: seq<byte>  // what has been written

    constructor (incoming: seq<byte>)
      ensures this.incoming == incoming && outgoing == []
    {
      this.incoming, outgoing := incoming, [];
    }

    /** Reads at least one byte, or reports the end. */
    method Read(want: nat) returns (chunk: seq<byte>, ok: bool)
      requires want > 0
      modifies this`incoming
      ensures old(incoming) == chunk + incoming
      ensures if ok then 0 < |chunk| <= want else chunk == [] == incoming
    {
      chunk, ok := [], incoming != [];
      if ok {
        assert 1 <= want && 1 <= |incoming|;
        var n: nat :| 1 <= n <= want && n <= |incoming|;
        chunk, incoming := incoming[..n], incoming[n..];
      }
    }

    /** Writes at least one byte, or fails at some point. */
    method Write(data: seq<byte>) returns (n: nat, ok: bool)
      requires data != []
      modifies this`outgoing
      ensures n <= |data| && outgoing == old(outgoing) + data[..n]
      ensures ok ==> n > 0
    {
      n :| 0 <= n <= |data|;
      ok := *;
      ok := ok && n > 0;
      outgoing := outgoing + data[..n];
    }
  }

  datatype ReadResult = Read(packet: Packet) | ReadError(why: Failure)

  datatype Key = None | Some(bytes: seq<byte>)

  class Connection {
    const ks: KeyStream
    const stream: Stream
    var icipher: Cipher
    var ocipher: Cipher

    constructor (ks: KeyStream, stream: Stream)
      ensures this.ks == ks && this.stream == stream && icipher == Clear && ocipher == Clear
    {
      this.ks, this.stream := ks, stream;
      icipher, ocipher := Clear, Clear;
    }

    /** Both directions start over under one key, or in the clear.  RC4 refuses keys of other
        lengths, and then the ciphers are not to be relied on. */
    method SetCipher(key: Key) returns (ok: bool)
      modifies this`icipher, this`ocipher
      ensures ok <==> key.None? || 1 <= |key.bytes| <= 256
      ensures ok ==> icipher == ocipher == if key.None? then Clear else Keyed(key.bytes, 0)
    {
      ok := true;
      if key.None? {
        icipher := Clear;
        ocipher := Clear;
      } else if |key.bytes| < 1 || |key.bytes| > 256 {
        ok := false;
        icipher := *;
        ocipher := *;
      } else {
        icipher := Keyed(key.bytes, 0);
        ocipher := Keyed(key.bytes, 0);
      }
    }

    /** Reads exactly `want` bytes, in as many steps as it takes, unless the stream ends. */
    method ReadFull(want: nat) returns (data: seq<byte>, ok: bool)
      modifies stream`incoming
      ensures old(stream.incoming) == data + stream.incoming
      ensures if ok then |data| == want else |data| < want && stream.incoming == []
    {
      data, ok := [], true;
      while |data| < want
        invariant |data| <= want && old(stream.incoming) == data + stream.incoming
        decreases want - |data|
      {
        var chunk;
        chunk, ok := stream.Read(want - |data|);
        if !ok {
          return;
        }
        data := data + chunk;
      }
    }

    /** Reads one packet, however the stream cuts it up. */
    method ReadPacket() returns (r: ReadResult)
      modifies this`icipher, stream`incoming
      ensures match Receive(ks, old(icipher), old(stream.incoming))
        case Got(p, rest, cipher) => r == Read(p) && stream.incoming == rest && icipher == cipher
        case Failed(why) => r == ReadError(why)
    {
      ghost var s, c := stream.incoming, icipher;
      var header, ok := ReadFull(8);
      if !ok {
        return ReadError(Closed);
      }
      assert header == s[..8] && stream.incoming == s[8..];
      header := XorKeyStream(ks, icipher, header);
      icipher := Advance(icipher, 8);
      var size := Word32(header[..4]);
      if size < 8 || size > MAX_PACKET_SIZE {
        return ReadError(InvalidSize);
      }
      var data;
      data, ok := ReadFull(size - 8);
      if !ok {
        return ReadError(Closed);
      }
      BodyAt(s, data, stream.incoming, size);
      data := XorKeyStream(ks, icipher, data);
      icipher := Advance(icipher, |data|);
      r := Read(Packet(Word16(header[4..6]), Word16(header[6..8]), data));
    }

    static lemma BodyAt(s: seq<byte>, data: seq<byte>, rest: seq<byte>, size: nat)
      requires |s| >= 8 && s[8..] == data + rest && |data| + 8 == size
      ensures size <= |s| && data == s[8..size] && rest == s[size..]
    {
      assert s[size..] == s[8..][|data|..];
      assert s[8..size] == s[8..][..|data|];
    }

    /** Writes one packet, however much of it the stream takes at a time. */
    method WritePacket(p: Packet) returns (ok: bool)
      modifies this`ocipher, stream`outgoing
      ensures ocipher == AfterPacket(old(ocipher), p)
      ensures ok ==> stream.outgoing == old(stream.outgoing) + Sent(ks, old(ocipher), p)
      ensures old(stream.outgoing) <= stream.outgoing
      ensures stream.outgoing <= old(stream.outgoing) + Sent(ks, old(ocipher), p)
    {
      var data := Frame(p);
      data := XorKeyStream(ks, ocipher, data);
      ocipher := Advance(ocipher, |data|);
      ghost var all := old(stream.outgoing) + data;
      while |data| > 0
        invariant stream.outgoing + data == all && old(stream.outgoing) <= stream.outgoing
        invariant ocipher == AfterPacket(old(ocipher), p)
        decreases |data|
      {
        var n;
        n, ok := stream.Write(data);
        assert data == data[..n] + data[n..];
        data := data[n..];
        if !ok {
          return;
        }
      }
      assert data == [];
      ok := true;
    }
  }
}
