/** Reading back what was written: the container, the words, the strings and the pairs. */
module TextRoundTrip {
  import opened Bytes
  import opened TextFormat
  import opened TextReading

  // ----- Strings

  predicate SingleByte(t: text) {
    forall k :: 0 <= k < |t| ==> 0 < t[k] < 0x80
  }

  predicate DoubleByte(t: text) {
    forall k :: 0 <= k < |t| ==> 0 < t[k] < 0x1_0000
  }

  /** Texts that come back from their own character width. */
  predicate Readable(t: text, status: Status) {
    if status.String? then DoubleByte(t) else SingleByte(t)
  }

  function CharSize(status: Status): nat {
    if status.String? then 2 else 1
  }

  lemma {:induction false} ReadIdentifier(t: text, rest: seq<byte>)
    requires SingleByte(t)
    ensures ReadString(1, Utf8All(t) + [0] + rest) == t
  {
    var s := Utf8All(t) + [0] + rest;
    if t != [] {
      ReadIdentifier(t[1..], rest);
      assert s == [t[0]] + (Utf8All(t[1..]) + [0] + rest);
      assert s[1..] == Utf8All(t[1..]) + [0] + rest;
    }
  }

  lemma {:induction false} ReadWide(t: text, rest: seq<byte>)
    requires DoubleByte(t)
    ensures ReadString(2, Utf16All(t) + [0, 0] + rest) == t
  {
    var s := Utf16All(t) + [0, 0] + rest;
    if t != [] {
      ReadWide(t[1..], rest);
      assert s == LE16(t[0]) + (Utf16All(t[1..]) + [0, 0] + rest);
      assert s[2..] == Utf16All(t[1..]) + [0, 0] + rest;
    }
  }

  /** A spelling reads back as its text if and only if the text is readable in its width. */
  lemma StringRoundTrip(t: text, status: Status, rest: seq<byte>)
    requires status != Plain
    ensures ReadString(CharSize(status), Spelling(t, status) + rest) == t <==> Readable(t, status)
  {
    var c := Characters(t, status);
    var s := Spelling(t, status) + rest;
    assert s == c + (s[|c|..]);
    if status.String? {
      if DoubleByte(t) { ReadWide(t, s[|c|..]); }
      WideReadsOnlyWide(s);
    } else {
      if SingleByte(t) { ReadIdentifier(t, s[|c|..]); }
      else { UnreadableIdentifier(t, s[|c|..]); }
    }
  }

  lemma {:induction false} WideReadsOnlyWide(s: seq<byte>)
    ensures DoubleByte(ReadString(2, s))
    decreases |s|
  {
    if s != [] && Unit(2, s) != 0 {
      WideReadsOnlyWide(s[Min(2, |s|)..]);
    }
  }

  lemma {:induction false} NoZeroIsRead(s: seq<byte>)
    ensures forall k :: 0 <= k < |ReadString(1, s)| ==> ReadString(1, s)[k] != 0
    decreases |s|
  {
    if s != [] && Unit(1, s) != 0 {
      NoZeroIsRead(s[1..]);
    }
  }

  lemma {:induction false} BytesAreRead(s: seq<byte>, rest: seq<byte>)
    requires forall k :: 0 <= k < |s| ==> s[k] != 0
    ensures |ReadString(1, s + [0] + rest)| == |s|
  {
    if s != [] {
      BytesAreRead(s[1..], rest);
      assert (s + [0] + rest)[1..] == s[1..] + [0] + rest;
    }
  }

  lemma {:induction false} Utf8Length(t: text)
    ensures |Utf8All(t)| >= |t|
    ensures (exists k :: 0 <= k < |t| && t[k] >= 0x80) ==> |Utf8All(t)| > |t|
    ensures (forall k :: 0 <= k < |t| ==> t[k] != 0) ==>
      forall k :: 0 <= k < |Utf8All(t)| ==> Utf8All(t)[k] != 0
  {
    if t != [] {
      Utf8Length(t[1..]);
      if k :| 0 < k < |t| && t[k] >= 0x80 {
        assert t[1..][k - 1] == t[k];
      }
    }
  }

  /** An identifier that is not plain ASCII comes back as something else: shorter at a zero,
      longer at an encoding of several bytes. */
  lemma UnreadableIdentifier(t: text, rest: seq<byte>)
    requires !SingleByte(t)
    ensures ReadString(1, Utf8All(t) + [0] + rest) != t
  {
    if exists k :: 0 <= k < |t| && t[k] == 0 {
      NoZeroIsRead(Utf8All(t) + [0] + rest);
    } else {
      Utf8Length(t);
      BytesAreRead(Utf8All(t), rest);
    }
  }

  // ----- The container

  lemma TagOfChunk(before: seq<byte>, tag: seq<byte>, body: seq<byte>, after: seq<byte>)
    requires |tag| == 4 && |body| < 0x1_0000_0000
    ensures TagAt(before + Chunk(tag, body) + after, |before|) == Tag(tag, |body|, body)
  {
    var data := before + Chunk(tag, body) + after;
    var p := |before|;
    assert data[p..p + 4] == tag;
    assert data[p + 4..p + 8] == LE32(|body|);
    Word32RoundTrip(|body|);
    assert data == (before + tag + LE32(|body|)) + body + after;
    hide Chunk, LE32;
    assert data[p + 8..p + 8 + |body|] == body;
  }

  lemma WordOfWords(before: seq<byte>, w: u32, after: seq<byte>, k: nat)
    requires |before| == 4 * k
    ensures WordAt(before + LE32(w) + after, k) == w
  {
    var s := before + LE32(w) + after;
    assert s[4 * k..4 * k + 4] == LE32(w);
    Word32RoundTrip(w);
  }

  lemma HeaderWords(r: nat, n: nat)
    requires r + n + 0x40 < 0x1_0000_0000
    ensures WordAt(Header(r, n), 0) == 1
    ensures WordAt(Header(r, n), 1) == 0x20
    ensures WordAt(Header(r, n), 3) == r + 0x20
  {
    hide LE32;
    var h := Header(r, n);
    assert h == [] + LE32(1) + (LE32(0x20) + LE32(r) + LE32(r + 0x20) + LE32(n) + LE32(0));
    WordOfWords([], 1, LE32(0x20) + LE32(r) + LE32(r + 0x20) + LE32(n) + LE32(0), 0);
    assert h == LE32(1) + LE32(0x20) + (LE32(r) + LE32(r + 0x20) + LE32(n) + LE32(0));
    WordOfWords(LE32(1), 0x20, LE32(r) + LE32(r + 0x20) + LE32(n) + LE32(0), 1);
    assert h == (LE32(1) + LE32(0x20) + LE32(r)) + LE32(r + 0x20) + (LE32(n) + LE32(0));
    WordOfWords(LE32(1) + LE32(0x20) + LE32(r), r + 0x20, LE32(n) + LE32(0), 3);
  }

  /** The header of a container leads to its chunks, and their sizes to its end. */
  lemma ContainerRead(rel: seq<byte>, nof: seq<byte>)
    requires RoundUp(|rel| + 8, 16) + RoundUp(|nof| + 8, 16) + 0x40 < 0x1_0000_0000
    ensures var data := Container(rel, nof);
      var r, n := RoundUp(|rel| + 8, 16), RoundUp(|nof| + 8, 16);
      && |data| >= 8
      && |rel| + 8 <= r && |nof| + 8 <= n && r + n + 0x40 < 0x1_0000_0000
      && TagAt(data, 0) == Tag(NIFL, 0x18, Header(r, n))
      && TagAt(data, 0x20) == Tag(REL0, |rel|, rel)
      && TagAt(data, r + 0x20) == Tag(NOF0, |nof|, nof)
      && TagAt(data, r + 0x20 + n).name == NEND
  {
    ContainerShape(rel, nof);
    var h := Header(RoundUp(|rel| + 8, 16), RoundUp(|nof| + 8, 16));
    hide *;
    PiecesRead(h, rel, nof, LE32(0) + LE32(0));
  }

  lemma ContainerShape(rel: seq<byte>, nof: seq<byte>)
    requires RoundUp(|rel| + 8, 16) + RoundUp(|nof| + 8, 16) + 0x40 < 0x1_0000_0000
    ensures var r, n := RoundUp(|rel| + 8, 16), RoundUp(|nof| + 8, 16);
      && |rel| + 8 <= r && |nof| + 8 <= n && r + n + 0x40 < 0x1_0000_0000
      && Container(rel, nof) == Chunk(NIFL, Header(r, n)) + Padded(Chunk(REL0, rel))
        + Padded(Chunk(NOF0, nof)) + Chunk(NEND, LE32(0) + LE32(0))
      && |Header(r, n)| == 0x18 && |Chunk(NIFL, Header(r, n))| == 0x20
      && |Padded(Chunk(REL0, rel))| == r && |Padded(Chunk(NOF0, nof))| == n
      && |Container(rel, nof)| >= 8
  {
    RoundUp16(|rel| + 8);
    RoundUp16(|nof| + 8);
    hide LE32, Padded, RoundUp;
  }

  lemma PiecesRead(h: seq<byte>, rel: seq<byte>, nof: seq<byte>, e: seq<byte>)
    requires |h| < 0x1_0000_0000 && |rel| < 0x1_0000_0000 && |nof| < 0x1_0000_0000 && |e| < 0x1_0000_0000
    ensures var head, end := Chunk(NIFL, h), Chunk(NEND, e);
      var pr, pn := Padded(Chunk(REL0, rel)), Padded(Chunk(NOF0, nof));
      var data := head + pr + pn + end;
      && TagAt(data, 0) == Tag(NIFL, |h|, h)
      && TagAt(data, |head|) == Tag(REL0, |rel|, rel)
      && TagAt(data, |head| + |pr|) == Tag(NOF0, |nof|, nof)
      && TagAt(data, |head| + |pr| + |pn|).name == NEND
  {
    hide TagAt, Chunk, Padded;
    var head, end := Chunk(NIFL, h), Chunk(NEND, e);
    var pr, pn := Padded(Chunk(REL0, rel)), Padded(Chunk(NOF0, nof));
    FirstChunk(h, pr + pn + end);
    assert head + pr + pn + end == head + (pr + pn + end);
    MiddleChunk(head, REL0, rel, pn + end);
    assert head + pr + pn + end == head + pr + (pn + end);
    MiddleChunk(head + pr, NOF0, nof, end);
    LastChunk(head + pr + pn, e);
  }

  lemma FirstChunk(body: seq<byte>, after: seq<byte>)
    requires |body| < 0x1_0000_0000
    ensures TagAt(Chunk(NIFL, body) + after, 0) == Tag(NIFL, |body|, body)
  {
    TagOfChunk([], NIFL, body, after);
    assert [] + Chunk(NIFL, body) == Chunk(NIFL, body);
  }

  lemma MiddleChunk(before: seq<byte>, tag: seq<byte>, body: seq<byte>, after: seq<byte>)
    requires |tag| == 4 && |body| < 0x1_0000_0000
    ensures TagAt(before + Padded(Chunk(tag, body)) + after, |before|) == Tag(tag, |body|, body)
  {
    var c := Chunk(tag, body);
    var p := Padded(c);
    hide Chunk, Padded, TagAt;
    assert p == c + p[|c|..];
    assert before + p + after == before + c + (p[|c|..] + after);
    TagOfChunk(before, tag, body, p[|c|..] + after);
  }

  lemma LastChunk(before: seq<byte>, body: seq<byte>)
    requires |body| < 0x1_0000_0000
    ensures TagAt(before + Chunk(NEND, body), |before|).name == NEND
  {
    TagOfChunk(before, NEND, body, []);
    assert before + Chunk(NEND, body) + [] == before + Chunk(NEND, body);
  }
}
