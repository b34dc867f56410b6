/** What the output of a stream is, byte by byte: told from the values, offsets and sizes of its
    tokens, and from where in the output each of them begins. */
module PrsOutput {
  import opened Bytes
  import opened PrsFormat
  import opened PrsContent
  import opened PrsLayout

  /** How many bytes a token writes. */
  function Width(t: Token): nat {
    if t.Literal? then 1 else t.size
  }

  /** Where in the output token `i` begins. */
  function Start(ts: seq<Token>, i: nat): nat
    requires i <= |ts|
  {
    if i == 0 then 0 else Start(ts, i - 1) + Width(ts[i - 1])
  }

  /** Copy `i` refers to bytes that have been written. */
  ghost predicate Refers(ts: seq<Token>, i: nat)
    requires i < |ts|
  {
    !ts[i].Literal? ==> 0 < -ts[i].offset <= Start(ts, i)
  }

  /** `out` is what the first `n` tokens write: each literal its value where it begins, and each
      copy, at every one of its places, the byte that lies `-offset` before that place. */
  ghost predicate WrittenBy(out: seq<byte>, ts: seq<Token>, n: nat)
    requires n <= |ts|
  {
    && |out| == Start(ts, n)
    && (forall i :: 0 <= i < n ==> Refers(ts, i))
    && forall i :: 0 <= i < n ==> WrittenAt(out, ts[i], Start(ts, i))
  }

  ghost predicate WrittenAt(out: seq<byte>, t: Token, start: nat) {
    if t.Literal? then start < |out| && out[start] == t.value
    else forall k :: start <= k < start + t.size ==> CopiedAt(out, k, t.offset)
  }

  ghost predicate CopiedAt(out: seq<byte>, k: int, offset: int) {
    0 <= k + offset < k < |out| && out[k] == out[k + offset]
  }

  lemma ApplyWrites(out: seq<byte>, t: Token)
    requires Reaches(t, |out|)
    ensures var r := Apply(out, t);
      && |r| == |out| + Width(t) && r[..|out|] == out
      && WrittenAt(r, t, |out|)
  {
  }

  lemma {:induction false} StartsGrow(ts: seq<Token>, i: nat, n: nat)
    requires i < n <= |ts|
    ensures Start(ts, i) + Width(ts[i]) <= Start(ts, n)
  {
    if i < n - 1 {
      StartsGrow(ts, i, n - 1);
    }
  }

  /** One more token. */
  lemma WrittenStep(out: seq<byte>, ts: seq<Token>, n: nat)
    requires n < |ts| && WrittenBy(out, ts, n) && Reaches(ts[n], |out|)
    ensures WrittenBy(Apply(out, ts[n]), ts, n + 1)
  {
    var t, r := ts[n], Apply(out, ts[n]);
    ApplyWrites(out, t);
    hide Apply;
    assert Start(ts, n + 1) == |out| + Width(t);
    forall i | 0 <= i < n + 1
      ensures Refers(ts, i)
      ensures WrittenAt(r, ts[i], Start(ts, i))
    {
      if i < n {
        StartsGrow(ts, i, n);
        StaysWritten(out, r, ts[i], Start(ts, i));
      }
    }
  }

  lemma StaysWritten(out: seq<byte>, r: seq<byte>, t: Token, start: nat)
    requires WrittenAt(out, t, start) && |out| <= |r| && r[..|out|] == out
    ensures WrittenAt(r, t, start)
  {
    assert forall k :: 0 <= k < |out| ==> r[k] == r[..|out|][k];
    if !t.Literal? {
      forall k | start <= k < start + t.size
        ensures CopiedAt(r, k, t.offset)
      {
        assert CopiedAt(out, k, t.offset);
      }
    }
  }

  /** How far a list of tokens can be written: to its end, or to the first copy that refers to
      before the start of the output. */
  ghost predicate WritesUpTo(ts: seq<Token>, n: nat) {
    && n <= |ts|
    && (forall i :: 0 <= i < n ==> Refers(ts, i))
    && (n < |ts| ==> !Refers(ts, n))
  }

  /** There is always such a length. */
  lemma {:induction false} SomeLength(ts: seq<Token>, i: nat) returns (n: nat)
    requires i <= |ts| && forall j :: 0 <= j < i ==> Refers(ts, j)
    ensures i <= n && WritesUpTo(ts, n)
    decreases |ts| - i
  {
    if i < |ts| && Refers(ts, i) {
      n := SomeLength(ts, i + 1);
    } else {
      n := i;
    }
  }

  /** From token `i` on, expanding goes on to what all tokens write. */
  lemma {:induction false} ExpandWrites(data: seq<byte>, c: Cursor, out: seq<byte>, ts: seq<Token>, i: nat, n: nat)
    requires c.pos <= |data| && i <= |ts| && ReadTokens(data, c).tokens == ts[i..]
    requires WritesUpTo(ts, n) && i <= n && WrittenBy(out, ts, i)
    ensures var e := Expand(data, c, out);
      && WrittenBy(e.out, ts, n)
      && e.ending == if n < |ts| then Invalid else if ReadTokens(data, c).terminated then Terminated else Truncated
    decreases |data| - c.pos
  {
    hide WrittenBy;
    WrittenLength(out, ts, i);
    var scan := NextToken(data, c);
    if scan.Next? {
      assert ts[i] == scan.token && ts[i..][1..] == ts[i + 1..];
      if i < n {
        assert Refers(ts, i);
        WrittenStep(out, ts, i);
        ExpandWrites(data, scan.next, Apply(out, scan.token), ts, i + 1, n);
      }
    }
  }

  lemma WrittenLength(out: seq<byte>, ts: seq<Token>, n: nat)
    requires n <= |ts| && WrittenBy(out, ts, n)
    ensures |out| == Start(ts, n)
  {
  }

  /** For every stream: its tokens are written, up to the first bad reference if there is one. */
  lemma StreamWrites(data: seq<byte>, n: nat)
    requires WritesUpTo(ReadTokens(data, START).tokens, n)
    ensures var r := ReadTokens(data, START);
      var e := Expand(data, START, []);
      && WrittenBy(e.out, r.tokens, n)
      && e.ending == if n < |r.tokens| then Invalid else if r.terminated then Terminated else Truncated
  {
    var ts := ReadTokens(data, START).tokens;
    assert ts[0..] == ts;
    ExpandWrites(data, START, [], ts, 0, n);
  }

  /** The layout of any encodable tokens is expanded to what they write; it is terminated if and
      only if every copy refers to bytes that have been written. */
  lemma LayoutWrites(ts: seq<Token>, suffix: seq<byte>, pad: seq<bool>, n: nat)
    requires (forall t <- ts :: t.Encodable()) && WritesUpTo(ts, n)
    ensures var e := Expand(Layout(ts, pad) + suffix, START, []);
      && WrittenBy(e.out, ts, n)
      && e.ending == if n < |ts| then Invalid else Terminated
  {
    LayoutRoundTrip(ts, suffix, pad);
    StreamWrites(Layout(ts, pad) + suffix, n);
  }

  /** Literals alone are expanded to their values. */
  lemma LiteralsWrite(values: seq<byte>, suffix: seq<byte>, pad: seq<bool>)
    ensures var ts := seq(|values|, i requires 0 <= i < |values| => Literal(values[i]));
      && (forall t <- ts :: t.Encodable())
      && Expand(Layout(ts, pad) + suffix, START, []) == Expansion(values, Terminated)
  {
    var ts := seq(|values|, i requires 0 <= i < |values| => Literal(values[i]));
    LayoutWrites(ts, suffix, pad, |ts|);
    var out := Expand(Layout(ts, pad) + suffix, START, []).out;
    forall i | 0 <= i <= |ts|
      ensures Start(ts, i) == i
    {
      LiteralStart(ts, i);
    }
    forall i | 0 <= i < |ts|
      ensures out[i] == values[i]
    {
      assert WrittenAt(out, ts[i], Start(ts, i)) && Start(ts, i) == i;
    }
  }

  lemma {:induction false} LiteralStart(ts: seq<Token>, i: nat)
    requires i <= |ts| && forall j :: 0 <= j < |ts| ==> ts[j].Literal?
    ensures Start(ts, i) == i
  {
    if i > 0 {
      LiteralStart(ts, i - 1);
    }
  }

  /** The content of a reader, byte by byte: the output, then zeros up to the size if the stream
      was terminated, and nothing more if it was not. */
  lemma ContentBytes(e: Expansion, size: nat)
    ensures var content := Served(e, size);
      && |content| == (if e.ending.Terminated? || size <= |e.out| then size else |e.out|)
      && forall k :: 0 <= k < |content| ==> content[k] == if k < |e.out| then e.out[k] else 0
  {
  }

  /** The bits of a byte are consumed from the lowest to the highest. */
  lemma {:induction false} BitOrder(n: nat, b: byte, k: nat)
    requires k < n
    ensures LowBits(n, b)[k] <==> b / Power2(k) % 2 == 1
  {
    if k > 0 {
      BitOrder(n - 1, b / 2, k - 1);
      DivideTwice(b, Power2(k - 1));
    }
  }
}
