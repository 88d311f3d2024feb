/** The decoding half of nghttp2_hd_huffman.c: octets through the generated table, in one or many pieces. */
module HuffmanDecoder {
  import opened BitStrings
  import opened HuffmanTree
  import opened HuffmanTable
  import opened HuffmanCodec

  datatype DecodeRv = Consumed(n: nat) | HeaderComp

  function High(b: byte): Nibble {
    b / 16
  }

  function Low(b: byte): Nibble {
    b % 16
  }

  function OctetNibbles(src: seq<byte>): (ks: seq<Nibble>)
    ensures |ks| == 2 * |src|
  {
    if src == [] then [] else [High(src[0]), Low(src[0])] + OctetNibbles(src[1..])
  }

  lemma {:induction false} RunConcat(table: seq<Row>, r: Run, a: seq<Nibble>, b: seq<Nibble>)
    requires Closed(table) && Inside(table, r)
    ensures RunTable(table, r, a + b) == RunTable(table, RunTable(table, r, a), b)
    decreases |a|
  {
    if a == [] {
      assert a + b == b;
    } else {
      assert (a + b)[1..] == a[1..] + b;
      RunConcat(table, RunNibble(table, r, a[0]), a[1..], b);
    }
  }

  lemma {:induction false} NibblesSnoc(src: seq<byte>, b: byte)
    ensures OctetNibbles(src + [b]) == OctetNibbles(src) + [High(b), Low(b)]
  {
    if src == [] {
      assert src + [b] == [b];
      assert OctetNibbles([b]) == [High(b), Low(b)] + OctetNibbles([]);
    } else {
      assert (src + [b])[1..] == src[1..] + [b];
      NibblesSnoc(src[1..], b);
    }
  }

  lemma {:induction false} FailedStays(table: seq<Row>, out: seq<nat>, ks: seq<Nibble>)
    requires Closed(table)
    ensures RunTable(table, Failed(out), ks) == Failed(out)
    decreases |ks|
  {
    if ks != [] {
      FailedStays(table, out, ks[1..]);
    }
  }

  // What a run would have emitted before, put in front of what it emits.
  function After(out: seq<nat>, r: Run): Run {
    match r
    case Running(state, o, accepted) => Running(state, out + o, accepted)
    case Failed(o) => Failed(out + o)
  }

  lemma {:induction false} RunAfter(table: seq<Row>, out: seq<nat>, r: Run, ks: seq<Nibble>)
    requires Closed(table) && Inside(table, r)
    ensures RunTable(table, After(out, r), ks) == After(out, RunTable(table, r, ks))
    decreases |ks|
  {
    if ks != [] {
      if r.Running? {
        var e := table[r.state][ks[0]];
        assert out + (r.out + [e.sym]) == out + r.out + [e.sym];
        assert out + (r.out + []) == out + r.out + [];
      }
      RunAfter(table, out, RunNibble(table, r, ks[0]), ks[1..]);
    }
  }

  lemma RunNothing(table: seq<Row>, r: Run)
    requires Closed(table) && Inside(table, r)
    ensures RunTable(table, r, OctetNibbles([])) == r
  {
  }

  lemma RunTwo(table: seq<Row>, r: Run, a: Nibble, b: Nibble)
    requires Closed(table) && Inside(table, r)
    ensures RunTable(table, r, [a, b]) == RunNibble(table, RunNibble(table, r, a), b)
  {
    var r1 := RunNibble(table, r, a);
    assert [a, b][1..] == [b];
    assert RunTable(table, r1, [b]) == RunTable(table, RunNibble(table, r1, b), []);
  }

  // The rows two lookups away are there.
  lemma RowsThere(table: seq<Row>, state: nat)
    requires Closed(table) && state < |table|
    ensures |table[state]| == 16
    ensures forall k :: 0 <= k < 16 ==> table[state][k].state < |table| && |table[table[state][k].state]| == 16
  {
  }

  // One octet further in the input, and what a failure there means for all of it.
  lemma OctetStep(table: seq<Row>, start: Run, src: seq<byte>, i: nat)
    requires Closed(table) && Inside(table, start) && i < |src|
    ensures var r := RunTable(table, start, OctetNibbles(src[..i]));
            var r' := RunTable(table, start, OctetNibbles(src[..i + 1]));
            r' == RunNibble(table, RunNibble(table, r, High(src[i])), Low(src[i])) &&
            (r'.Failed? ==> RunTable(table, start, OctetNibbles(src)) == r')
    ensures var r := RunTable(table, start, OctetNibbles(src[..i]));
            r.Running? ==> r.state < |table| && |table[r.state]| == 16 && forall k :: 0 <= k < 16 ==>
              table[r.state][k].state < |table| && |table[table[r.state][k].state]| == 16
  {
    hide RunTable, OctetNibbles, Closed, RunNibble, High, Low;
    var soFar, rest := OctetNibbles(src[..i]), OctetNibbles(src[i + 1..]);
    var two: seq<Nibble> := [High(src[i]), Low(src[i])];
    assert src[..i + 1] == src[..i] + [src[i]];
    NibblesSnoc(src[..i], src[i]);
    RunConcat(table, start, soFar, two);
    var r := RunTable(table, start, soFar);
    if r.Running? {
      RowsThere(table, r.state);
    }
    RunTwo(table, r, two[0], two[1]);
    assert src == src[..i] + [src[i]] + src[i + 1..];
    NibblesAround(src[..i], src[i], src[i + 1..]);
    RunConcat(table, start, soFar + two, rest);
    var r' := RunTable(table, start, soFar + two);
    if r'.Failed? {
      FailedStays(table, r'.out, rest);
    }
  }

  lemma {:induction false} OutputBound(table: seq<Row>, r: Run, ks: seq<Nibble>)
    requires Closed(table) && Inside(table, r)
    ensures |RunTable(table, r, ks).out| <= |r.out| + |ks|
    decreases |ks|
  {
    if ks != [] {
      OutputBound(table, RunNibble(table, r, ks[0]), ks[1..]);
    }
  }

  class DecodeContext {
    var state: nat
    var accept: bool

    constructor ()
      ensures state == 0 && accept
    {
      state, accept := 0, true;
    }

    /** Each octet is looked up as two nibbles. The answer, the bytes appended to the output and the state
        kept for the next piece are those of the table run over all nibbles of the input. */
    method Decode(table: seq<Row>, src: seq<byte>, final: bool) returns (rv: DecodeRv, out: seq<nat>)
      requires Closed(table) && state < |table|
      modifies this
      ensures state < |table| && |out| <= 2 * |src|
      ensures var r := RunTable(table, Running(old(state), [], old(accept)), OctetNibbles(src));
              if r.Failed? then rv == HeaderComp && out == r.out
              else r == Running(state, out, accept) && rv == if final && !accept then HeaderComp else Consumed(|src|)
    {
      ghost var start := Running(state, [], accept);
      hide RunTable, OctetNibbles, Closed;
      out := [];
      OutputBound(table, start, OctetNibbles(src));
      RunNothing(table, start);
      for i := 0 to |src|
        invariant state < |table|
        invariant RunTable(table, start, OctetNibbles(src[..i])) == Running(state, out, accept)
      {
        OctetStep(table, start, src, i);
        var t := table[state][High(src[i])];
        if t.flags & FAIL != 0 {
          return HeaderComp, out;
        }
        if t.flags & SYM != 0 {
          out := out + [t.sym];
        }
        t := table[t.state][Low(src[i])];
        if t.flags & FAIL != 0 {
          return HeaderComp, out;
        }
        if t.flags & SYM != 0 {
          out := out + [t.sym];
        }
        state := t.state;
        accept := t.flags & ACCEPTED != 0;
      }
      assert src[..|src|] == src;
      if final && !accept {
        return HeaderComp, out;
      }
      return Consumed(|src|), out;
    }
  }

  lemma {:induction false} NibblesConcat(a: seq<byte>, b: seq<byte>)
    ensures OctetNibbles(a + b) == OctetNibbles(a) + OctetNibbles(b)
  {
    if a == [] {
      assert a + b == b;
    } else {
      assert (a + b)[1..] == a[1..] + b;
      NibblesConcat(a[1..], b);
    }
  }

  lemma NibblesAround(a: seq<byte>, b: byte, c: seq<byte>)
    ensures OctetNibbles(a + [b] + c) == OctetNibbles(a) + [High(b), Low(b)] + OctetNibbles(c)
  {
    hide OctetNibbles, High, Low;
    NibblesConcat(a + [b], c);
    NibblesSnoc(a, b);
  }

  /** Decoding a message piece by piece, keeping only state and acceptance in between, is decoding it whole. */
  lemma PiecesAreWhole(table: seq<Row>, state: nat, accept: bool, a: seq<byte>, b: seq<byte>)
    requires Closed(table) && state < |table|
    ensures var r := RunTable(table, Running(state, [], accept), OctetNibbles(a));
            Inside(table, r) &&
            RunTable(table, Running(state, [], accept), OctetNibbles(a + b)) ==
              if r.Failed? then r else After(r.out, RunTable(table, Running(r.state, [], r.accepted), OctetNibbles(b)))
  {
    var start := Running(state, [], accept);
    var r := RunTable(table, start, OctetNibbles(a));
    NibblesConcat(a, b);
    RunConcat(table, start, OctetNibbles(a), OctetNibbles(b));
    if r.Failed? {
      FailedStays(table, r.out, OctetNibbles(b));
    } else {
      assert After(r.out, Running(r.state, [], r.accepted)) == r;
      RunAfter(table, r.out, Running(r.state, [], r.accepted), OctetNibbles(b));
    }
  }

  lemma TwoNibbles(a: Nibble, b: Nibble, ks: seq<Nibble>)
    ensures NibbleBits([a, b] + ks) == BitsOf(a, 4) + BitsOf(b, 4) + NibbleBits(ks)
  {
    hide BitsOf;
    assert ([a, b] + ks)[1..] == [b] + ks && ([b] + ks)[1..] == ks;
  }

  function Joined(pieces: seq<seq<byte>>): seq<byte> {
    if pieces == [] then [] else pieces[0] + Joined(pieces[1..])
  }

  // What decoding piece after piece appends to one buffer.
  function PiecesOutput(table: seq<Row>, state: nat, accept: bool, pieces: seq<seq<byte>>): seq<nat>
    requires Closed(table) && state < |table|
    decreases |pieces|
  {
    if pieces == [] then []
    else
      var r := RunTable(table, Running(state, [], accept), OctetNibbles(pieces[0]));
      PiecesAreWhole(table, state, accept, pieces[0], []);
      if r.Failed? then r.out else r.out + PiecesOutput(table, r.state, r.accepted, pieces[1..])
  }

  /** However a message arrives, decoding it appends at most two octets for each of its own: the room that is
      allocated for it, and one for the terminator. */
  lemma {:induction false} PiecesFit(table: seq<Row>, state: nat, accept: bool, pieces: seq<seq<byte>>)
    requires Closed(table) && state < |table|
    ensures |PiecesOutput(table, state, accept, pieces)| <= 2 * |Joined(pieces)|
    decreases |pieces|
  {
    if pieces != [] {
      var start := Running(state, [], accept);
      OutputBound(table, start, OctetNibbles(pieces[0]));
      PiecesAreWhole(table, state, accept, pieces[0], []);
      var r := RunTable(table, start, OctetNibbles(pieces[0]));
      if r.Running? {
        PiecesFit(table, r.state, r.accepted, pieces[1..]);
      }
    }
  }

  lemma {:induction false} OctetBitsAreNibbleBits(src: seq<byte>)
    ensures NibbleBits(OctetNibbles(src)) == OctetBits(src)
  {
    hide ByteBits, BitsOf, High, Low;
    if src != [] {
      var b := src[0];
      OctetBitsAreNibbleBits(src[1..]);
      HighLow(b);
      hide NibbleBits;
      TwoNibbles(High(b), Low(b), OctetNibbles(src[1..]));
    }
  }

  lemma HighLow(b: byte)
    ensures ByteBits(b) == BitsOf(High(b), 4) + BitsOf(Low(b), 4)
  {
    var hi, lo := BitsOf(High(b), 4), BitsOf(Low(b), 4);
    Sixteen();
    Octet();
    ValueOfBits(High(b), 4);
    ValueOfBits(Low(b), 4);
    ValueConcat(hi, lo);
    BitsOfValue(hi + lo);
  }

  /** A final piece that starts a message decodes to s exactly when its bits are the codes of the text s
      followed by zero to seven ones. */
  lemma DecodesExactlyTheEncodings(book: Book, table: seq<Row>, src: seq<byte>, s: seq<nat>)
    requires Good(book) && Full(TreeOf(book)) && IsTable(TreeOf(book), table)
    ensures Closed(table) && |table| > 0
    ensures (var r := RunTable(table, START, OctetNibbles(src)); r.Running? && r.accepted && r.out == s)
      <==> Text(TreeOf(book), Codes(book), s) && Spells(Codes(book), OctetBits(src), s)
  {
    hide Good, Full, IsTable, Text, Spells;
    OctetBitsAreNibbleBits(src);
    AcceptsExactlyTheEncodings(book, table, OctetNibbles(src), s);
  }
}
