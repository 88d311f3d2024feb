/** A code list that the generator and the codec accept: all that is proved of good lists is proved of something. */
module HuffmanExample {
  import opened BitStrings
  import opened HuffmanTree
  import opened HuffmanTable
  import opened HuffmanCodec

  // Eight bits for the symbols up to 254, nine for the last octet and for EOS, which is all ones.
  function BitsFor(s: nat): (bits: Bits)
    ensures |bits| == if s < 255 then 8 else 9
  {
    if s < 255 then BitsOf(s, 8) else if s == 255 then Ones(8) + [false] else Ones(8) + [true]
  }

  function Example(): (book: Book)
    ensures |book| == 257 && forall s: nat :: s < 257 ==> book[s] == Code(s, BitsFor(s))
  {
    seq(257, (s: nat) => Code(s, BitsFor(s)))
  }

  lemma {:induction false} OnesValue(n: nat)
    ensures Value(Ones(n)) == Pow2(n) - 1
  {
    if n > 0 {
      OnesValue(n - 1);
      assert Ones(n)[1..] == Ones(n - 1);
    }
  }

  lemma EightOnes()
    ensures Value(Ones(8)) == 255 && BitsOf(255, 8) == Ones(8)
  {
    Octet();
    OnesValue(8);
    BitsOfValue(Ones(8));
  }

  // The first eight bits tell which symbol it is, up to the last octet and EOS.
  lemma FirstEight(s: nat)
    requires s < 257
    ensures BitsFor(s)[..8] == BitsOf(if s < 255 then s else 255, 8)
    ensures Value(BitsFor(s)[..8]) == if s < 255 then s else 255
  {
    EightOnes();
    Octet();
    if s < 255 {
      ValueOfBits(s, 8);
    }
  }

  lemma SameStart(a: Bits, b: Bits)
    requires |a| >= 8 && |b| >= 8
    ensures a <= b ==> a[..8] == b[..8]
  {
  }

  lemma ExamplePrefixFree()
    ensures PrefixFree(Example())
  {
    var book := Example();
    forall i: nat, j: nat | i < |book| && j < |book| && i != j
      ensures !(book[i].bits <= book[j].bits)
    {
      FirstEight(i);
      FirstEight(j);
      SameStart(book[i].bits, book[j].bits);
      if i >= 255 && j >= 255 {
        assert book[i].bits[8] != book[j].bits[8];
      }
    }
  }

  // Which symbol a bit string of at least eight bits runs into.
  lemma MeetsLong(w: Bits)
    requires |w| >= 8
    ensures Meets(Example(), w)
  {
    var book, v := Example(), Value(w[..8]);
    Octet();
    BitsOfValue(w[..8]);
    EightOnes();
    if v < 255 {
      assert book[v].bits <= w;
    } else if |w| == 8 {
      assert w <= book[255].bits;
    } else {
      var s := if w[8] then 256 else 255;
      assert book[s].bits == w[..9];
      assert book[s].bits <= w;
    }
  }

  lemma ExampleComplete()
    ensures Complete(Example())
  {
    var book := Example();
    forall w: Bits
      ensures Meets(book, w)
    {
      if |w| >= 8 {
        MeetsLong(w);
      } else {
        var long := w + Zeros(8 - |w|);
        MeetsLong(long);
        var i :| 0 <= i < |book| && (book[i].bits <= long || long <= book[i].bits);
        assert w <= book[i].bits;
      }
    }
  }

  /** The list is good, and has every symbol. */
  lemma ExampleIsGood()
    ensures Good(Example()) && AllSymbols(Example())
  {
    var book := Example();
    ExamplePrefixFree();
    ExampleComplete();
    assert book[256].sym == EOS && AllOnes(book[256].bits) && |book[256].bits| >= 8;
    forall s: nat | s <= 256
      ensures HasSym(book, s)
    {
      assert book[s].sym == s;
    }
  }

  /** The first bit of a code is the highest of its octet, and ones fill the last one: a code 00011, that of the
      letter a in appendix B of RFC 7541, is sent as the octet 0x1f. */
  lemma WireExample(code: nat -> Bits)
    requires code(97) == [false, false, false, true, true]
    ensures Padded(code, [97]) == OctetBits([0x1f])
  {
    assert Encode(code, [97]) == code(97) + Encode(code, []);
    assert Padded(code, [97]) == code(97) + Ones(3);
    LastBits();
    assert OctetBits([0x1f]) == ByteBits(0x1f) + OctetBits([]);
  }

  lemma LastBits()
    ensures ByteBits(0x1f) == [false, false, false, true, true] + Ones(3)
  {
    var bits := [false, false, false, true, true] + Ones(3);
    Octet();
    assert bits[1..] == [false, false, true, true] + Ones(3);
    assert bits[2..] == [false, true, true] + Ones(3);
    assert bits[3..] == Ones(5);
    OnesValue(5);
    assert Value(bits[2..]) == 31 && Value(bits[1..]) == 31 && Value(bits) == 31;
    BitsOfValue(bits);
  }
}
