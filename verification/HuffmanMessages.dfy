/** Encoder, chunked buffer, generated table and decoder together. */
module HuffmanMessages {
  import opened Wrappers
  import opened BitStrings
  import opened HuffmanTree
  import opened HuffmanTable
  import opened ChunkSpec
  import opened Bufs
  import opened HuffmanCodec
  import opened HuffmanCompiler
  import opened HuffmanDecoder
  import opened HuffmanEncoder

  lemma ByteBitsInjective(a: byte, b: byte)
    requires ByteBits(a) == ByteBits(b)
    ensures a == b
  {
    Octet();
    ValueOfBits(a, 8);
    ValueOfBits(b, 8);
  }

  // What begins with the bits of some octets begins with those octets.
  lemma {:induction false} OctetPrefix(before: seq<byte>, rest: Bits, after: seq<byte>)
    requires OctetBits(after) == OctetBits(before) + rest
    ensures before <= after && OctetBits(after[|before|..]) == rest
  {
    hide ByteBits;
    OctetLength(before);
    OctetLength(after);
    if before == [] {
      assert after[0..] == after;
    } else {
      var tail := OctetBits(before[1..]) + rest;
      assert OctetBits(after) == ByteBits(before[0]) + tail;
      assert OctetBits(after)[..8] == ByteBits(after[0]) && OctetBits(after)[8..] == OctetBits(after[1..]);
      assert (ByteBits(before[0]) + tail)[..8] == ByteBits(before[0]) && (ByteBits(before[0]) + tail)[8..] == tail;
      ByteBitsInjective(before[0], after[0]);
      OctetPrefix(before[1..], rest, after[1..]);
      assert after[1..][|before[1..]|..] == after[|before|..];
    }
  }

  lemma OctetsCovered(book: Book, src: seq<byte>)
    requires AllSymbols(book)
    ensures Covers(book, src)
  {
  }

  /** The octets a successful encoding appends to a buffer, decoded as one message, are the encoded string. */
  lemma EncodedThenDecoded(book: Book, table: seq<Row>, src: seq<byte>, before: seq<byte>, after: seq<byte>)
    requires Good(book) && Full(TreeOf(book)) && IsTable(TreeOf(book), table)
    requires AllSymbols(book)
    requires OctetBits(after) == OctetBits(before) + Padded(Codes(book), src)
    ensures Closed(table) && |table| > 0 && before <= after
    ensures Decoded(table, OctetNibbles(after[|before|..])) == Some(src)
  {
    hide Good, Full, IsTable, Padded, OctetBits, OctetNibbles, Decoded, Closed, Spells, Text;
    var code := Codes(book);
    OctetPrefix(before, Padded(code, src), after);
    var octets := after[|before|..];
    OctetBitsAreNibbleBits(octets);
    PaddedSpells(code, src);
    OctetsCovered(book, src);
    CoveredText(book, src);
    AcceptsExactlyTheEncodings(book, table, OctetNibbles(octets), src);
  }

  /** The symbol table of a good code list of 257 symbols, none longer than a word, is what the encoder needs. */
  lemma GoodSymTable(book: Book, syms: seq<Sym>)
    requires Good(book) && |syms| == 257
    requires forall i :: 0 <= i < |book| ==> |book[i].bits| <= 32
    requires AllSymbols(book)
    requires forall s: nat :: s <= 256 ==> syms[s] == Sym(|CodeOf(book, s)|, Value(CodeOf(book, s)))
    ensures SymTable(syms, Codes(book))
  {
    forall s: nat | s <= 256
      ensures 1 <= |CodeOf(book, s)| <= 32
    {
      assert HasSym(book, s);
      var j :| 0 <= j < |book| && book[j].sym == s;
      assert book[j] == Code(s, book[j].bits);
      CodeIsUnique(book, s, book[j].bits);
    }
    var i :| 0 <= i < |book| && book[i].sym == EOS && AllOnes(book[i].bits) && |book[i].bits| >= 8;
    assert book[i] == Code(EOS, book[i].bits);
    CodeIsUnique(book, EOS, book[i].bits);
  }

  /** What the generator prints into the C files for a list of 257 symbols: lengths and codes. */
  ghost predicate Printed(book: Book, syms: seq<Sym>) {
    && Good(book) && AllSymbols(book) && |syms| == 257
    && (forall i :: 0 <= i < |book| ==> |book[i].bits| <= 32)
    && forall s: nat :: s <= 256 ==> syms[s] == Sym(|CodeOf(book, s)|, Value(CodeOf(book, s)))
  }

  // The allocator never refuses.
  ghost predicate Generous(mem: Allocator) {
    forall n: nat :: mem.grants(n)
  }

  // A buffer without header offsets, ready for a message.
  method NewBuffer(chunkLength: nat, maxChunk: nat, mem: Allocator) returns (rv: Rv, bufs: Bufs)
    modifies mem`calls
    ensures fresh(bufs) && bufs.mem == mem && (rv == Ok ==> Usable(bufs) && Spelt(bufs) == [])
    ensures rv == Ok ==> fresh(bufs.chain) && fresh(MemoryOf(bufs.chain))
    ensures Generous(mem) ==> (rv == Ok <==> maxChunk > 0)
    ensures Generous(mem) && rv == Ok ==>
      forall bits: nat :: Fits(bufs.Value(), bits) == Some(bits <= 8 * (maxChunk * chunkLength))
  {
    hide OctetBits, Init, Fits, Wf, ChunkSpec.Contents;
    bufs := new Bufs(mem);
    StartState(chunkLength, maxChunk, mem, mem.calls);
    rv := bufs.Init3(chunkLength, maxChunk, 1, 0, mem);
    if rv == Ok {
      SpeltOf(bufs);
      NothingSpelled();
    }
  }

  lemma StartState(chunkLength: nat, maxChunk: nat, mem: Allocator, calls: nat)
    ensures var (rv, st) := Init(chunkLength, maxChunk, 1, 0, mem.grants, calls);
      && (rv == Ok ==> Wf(st) && Contents(st) == [])
      && (Generous(mem) ==> (rv == Ok <==> maxChunk > 0))
      && (Generous(mem) && rv == Ok ==>
            forall bits: nat :: Fits(st, bits) == Some(bits <= 8 * (maxChunk * chunkLength)))
  {
    hide Room, Flat;
    InitWf(chunkLength, maxChunk, 1, 0, mem.grants, calls);
    var (rv, st) := Init(chunkLength, maxChunk, 1, 0, mem.grants, calls);
    if rv == Ok {
      RoomAtStart(st);
    }
  }

  lemma RoomAtStart(st: State)
    requires Wf(st) && st.cur == 0 && st.offset == 0 && st.chunks == [Chunk(0, [], st.chunkLength)]
    ensures Room(st) == st.maxChunk * st.chunkLength
  {
    var w := st.chunkLength;
    assert st.maxChunk * w == w + (st.maxChunk - 1) * w;
  }

  method CopyOut(bufs: Bufs) returns (octets: seq<byte>)
    requires bufs.Valid()
    ensures octets == Contents(bufs.Value())
  {
    var len := bufs.Len();
    var out := new byte[len];
    len := bufs.RemoveCopy(out);
    octets := out[..len];
  }

  // A message is encoded into a new buffer and copied out.
  method Send(book: Book, syms: seq<Sym>, src: seq<byte>, chunkLength: nat, maxChunk: nat, mem: Allocator)
      returns (rv: Rv, octets: seq<byte>)
    requires Printed(book, syms)
    modifies mem`calls
    ensures rv == Ok ==> OctetBits(octets) == Padded(Codes(book), src)
    ensures Generous(mem) ==> (rv == Ok <==> HasRoom(book, src, chunkLength, maxChunk))
  {
    GoodSymTable(book, syms);
    hide OctetBits, Padded, Fits, SymTable, Printed, Usable, Spelt, Generous;
    octets := [];
    var bufs;
    rv, bufs := NewBuffer(chunkLength, maxChunk, mem);
    if rv != Ok {
      return;
    }
    ghost var padded := Padded(Codes(book), src);
    assert [] + padded == padded;
    rv := HuffEncode(bufs, src, syms, Codes(book));
    if rv != Ok {
      return;
    }
    SpeltOf(bufs);
    UsableIsValid(bufs);
    octets := CopyOut(bufs);
  }

  // The padded codes fit into the chunks the buffer may have.
  ghost predicate HasRoom(book: Book, src: seq<byte>, chunkLength: nat, maxChunk: nat) {
    maxChunk > 0 && |Padded(Codes(book), src)| <= 8 * (maxChunk * chunkLength)
  }

  lemma UsableIsValid(bufs: Bufs)
    requires Usable(bufs)
    ensures bufs.Valid()
  {
  }

  lemma NothingSpelled()
    ensures OctetBits([]) == []
  {
  }

  /** The table is generated from a list, a message is encoded into a chunked buffer with the list's symbols, copied
      out and decoded with the table: the message comes back, unless the allocator refuses or it does not fit. */
  method Transfer(book: Book, syms: seq<Sym>, src: seq<byte>, chunkLength: nat, maxChunk: nat, mem: Allocator)
      returns (rv: Rv, answer: DecodeRv, out: seq<nat>)
    requires Printed(book, syms)
    modifies mem`calls
    ensures rv == Ok ==> out == src && answer.Consumed?
    ensures Generous(mem) ==> (rv == Ok <==> HasRoom(book, src, chunkLength, maxChunk))
  {
    hide HasRoom, Generous;
    var lines := Compile(book);
    var table := TableRows(lines);
    var octets;
    rv, octets := Send(book, syms, src, chunkLength, maxChunk, mem);
    answer, out := HeaderComp, [];
    if rv != Ok {
      return;
    }
    Received(book, table, src, octets);
    var context := new DecodeContext();
    answer, out := context.Decode(table, octets, true);
  }

  lemma Received(book: Book, table: seq<Row>, src: seq<byte>, octets: seq<byte>)
    requires Good(book) && AllSymbols(book) && Full(TreeOf(book)) && IsTable(TreeOf(book), table)
    requires OctetBits(octets) == Padded(Codes(book), src)
    ensures Closed(table) && |table| > 0
    ensures var r := RunTable(table, START, OctetNibbles(octets)); r.Running? && r.accepted && r.out == src
  {
    hide Padded, OctetBits;
    NothingSpelled();
    assert [] + Padded(Codes(book), src) == Padded(Codes(book), src);
    EncodedThenDecoded(book, table, src, [], octets);
    assert octets[0..] == octets;
  }
}
