/** The encoding half of nghttp2_hd_huffman.c: codes packed into octets of a chunked buffer. */
module HuffmanEncoder {
  import opened Wrappers
  import opened BitStrings
  import opened ChunkSpec
  import opened Bufs
  import opened HuffmanCodec

  // An entry of huff_sym_table: the code right-aligned in a 32-bit word.
  datatype Sym = Sym(nbits: nat, code: nat)

  ghost predicate Writes(sym: Sym, c: Bits) {
    1 <= |c| <= 32 && sym == Sym(|c|, Value(c))
  }

  ghost predicate Usable(bufs: Bufs)
    reads bufs, bufs.chain, MemoryOf(bufs.chain), bufs.mem
  {
    bufs.Valid() && Wf(bufs.Value())
  }

  // All bits stored so far, the content read as one bit string.
  ghost function Spelt(bufs: Bufs): Bits
    reads bufs, bufs.mem
  {
    OctetBits(Contents(bufs.Value()))
  }

  lemma SpeltOf(bufs: Bufs)
    ensures Spelt(bufs) == OctetBits(Contents(bufs.Value()))
  {
  }

  // Room in the chunk being written.
  ghost function Left(bufs: Bufs): int
    reads bufs
  {
    if bufs.at < |bufs.chunks| then Avail(bufs.chunks[bufs.at]) else 0
  }

  ghost predicate Holds(bufs: Bufs, b: byte)
    reads bufs, bufs.chain, MemoryOf(bufs.chain), bufs.mem
  {
    Usable(bufs) && Left(bufs) > 0 && bufs.Held() == b
  }

  // The bits h wait in the held octet, whose other bits are zero.
  ghost predicate Pending(bufs: Bufs, h: Bits)
    reads bufs, bufs.chain, MemoryOf(bufs.chain), bufs.mem
  {
    |h| < 8 && exists b: byte :: Holds(bufs, b) && ByteBits(b) == h + Zeros(8 - |h|)
  }

  lemma Waits(bufs: Bufs, b: byte, h: Bits)
    requires Holds(bufs, b) && |h| < 8 && ByteBits(b) == h + Zeros(8 - |h|)
    ensures Pending(bufs, h)
  {
  }

  // The bits the buffer can hold in all, if the allocator refuses nothing from here on.
  ghost function Limit(st: State): Option<int> {
    if Wf(st) && Granted(st) then Some(8 * (|Contents(st)| + Room(st))) else None
  }

  lemma LimitPut(st: State, b: byte)
    requires Wf(st) && Avail(st.chunks[st.cur]) > 0
    ensures Limit(st).Some? ==> Limit(Put(st, [b])) == Limit(st)
  {
    hide Room, Flat, Put;
    PutContents(st, [b]);
    if Granted(st) {
      PutRoom(st, [b]);
    }
  }

  // Looking for room keeps the limit, and fails only at it.
  lemma LimitFindRoom(st: State)
    requires Wf(st)
    ensures Limit(st).Some? ==>
      if FindRoom(st).0 == Ok then Limit(FindRoom(st).1) == Limit(st) else Limit(st) == Some(8 * |Contents(st)|)
  {
    hide Room, Flat, MakeRoom, FindRoom, AtBrink;
    OneCheck(st);
    RoomMade(st);
    RoomBound(st);
    if Granted(st) {
      MakeRoomSucceeds(st);
    }
  }

  lemma RoomFound(st: State)
    requires Wf(st)
    ensures var (rv, st') := FindRoom(st);
            st'.offset == st.offset && st'.chunkLength == st.chunkLength && Contents(st') == Contents(st) &&
            (rv == Overrun ==> st.offset == st.chunkLength)
  {
    OneCheck(st);
  }

  // With rv the outcome: sizes stay, on success the limit is the same, a failure means that more bits than that
  // were needed, and an overrun that chunks are no longer than their header offset.
  twostate predicate Limited(bufs: Bufs, rv: Rv, bits: int)
    reads bufs, bufs.mem
  {
    && bufs.offset == old(bufs.offset) && bufs.chunkLength == old(bufs.chunkLength)
    && (rv == Overrun ==> bufs.offset == bufs.chunkLength)
    && (old(Limit(bufs.Value())).Some? ==>
          if rv == Ok then Limit(bufs.Value()) == old(Limit(bufs.Value()))
          else old(Limit(bufs.Value())).value < bits)
  }

  method PushByte(bufs: Bufs, b: byte, slow: bool) returns (rv: Rv)
    requires Usable(bufs) && (!slow ==> Left(bufs) > 0)
    modifies bufs, bufs.chain, MemoryOf(bufs.chain), bufs.mem`calls
    ensures Usable(bufs) && bufs.Grown()
    ensures !slow ==> rv == Ok && Left(bufs) == old(Left(bufs)) - 1
    ensures Spelt(bufs) == if rv == Ok then old(Spelt(bufs)) + ByteBits(b) else old(Spelt(bufs))
    ensures Limited(bufs, rv, |old(Spelt(bufs))| + 1)
  {
    hide OctetBits, ByteBits, Limit;
    OctetLength(Contents(bufs.Value()));
    SnocBits(Contents(bufs.Value()), b);
    if slow {
      AddbStores(bufs.Value(), b);
      LimitFindRoom(bufs.Value());
      if FindRoom(bufs.Value()).0 == Ok {
        LimitPut(FindRoom(bufs.Value()).1, b);
      }
      rv := bufs.Addb(b);
    } else {
      PutContents(bufs.Value(), [b]);
      PutWf(bufs.Value(), [b]);
      LimitPut(bufs.Value(), b);
      bufs.Write([b]);
      rv := Ok;
    }
  }

  lemma SnocBits(bytes: seq<byte>, b: byte)
    ensures OctetBits(bytes + [b]) == OctetBits(bytes) + ByteBits(b)
  {
    OctetsConcat(bytes, [b]);
    assert OctetBits([b]) == ByteBits(b) + OctetBits([]);
  }

  lemma AddbStores(st: State, b: byte)
    requires Wf(st)
    ensures Contents(Addb(st, b).1) == if Addb(st, b).0 == Ok then Contents(st) + [b] else Contents(st)
    ensures Addb(st, b).0 == FindRoom(st).0 && (FindRoom(st).0 == Overrun ==> st.offset == st.chunkLength)
    ensures Addb(st, b).1.offset == st.offset && Addb(st, b).1.chunkLength == st.chunkLength
  {
    OneCheck(st);
    if FindRoom(st).0 == Ok {
      PutContents(FindRoom(st).1, [b]);
    }
  }

  method HoldByte(bufs: Bufs, b: byte, slow: bool) returns (rv: Rv)
    requires Usable(bufs) && (!slow ==> Left(bufs) > 0)
    modifies bufs, bufs.chain, MemoryOf(bufs.chain), bufs.mem`calls
    ensures Usable(bufs) && bufs.Grown()
    ensures !slow ==> rv == Ok && Left(bufs) == old(Left(bufs))
    ensures rv == Ok ==> Holds(bufs, b)
    ensures Spelt(bufs) == old(Spelt(bufs))
    ensures Limited(bufs, rv, |old(Spelt(bufs))| + 1)
  {
    hide Limit, FindRoom, Flat, Wf;
    OctetLength(Contents(bufs.Value()));
    if slow {
      LimitFindRoom(bufs.Value());
      RoomFound(bufs.Value());
      rv := bufs.AddbHold(b);
    } else {
      bufs.Hold1(b);
      rv := Ok;
    }
  }

  // Push the octet of code at a shift.
  method PushShifted(bufs: Bufs, code: nat, shift: nat, slow: bool, ghost w: Bits) returns (rv: Rv)
    requires Usable(bufs) && (!slow ==> Left(bufs) > 0)
    requires |w| == 32 && Value(w) == code && shift <= 24
    modifies bufs, bufs.chain, MemoryOf(bufs.chain), bufs.mem`calls
    ensures Usable(bufs) && bufs.Grown()
    ensures !slow ==> rv == Ok && Left(bufs) == old(Left(bufs)) - 1
    ensures Spelt(bufs) == if rv == Ok then old(Spelt(bufs)) + w[24 - shift..32 - shift] else old(Spelt(bufs))
    ensures Limited(bufs, rv, |old(Spelt(bufs))| + 1)
  {
    ShiftedByte(w, shift);
    rv := PushByte(bufs, code / Pow2(shift) % 256, slow);
  }

  lemma JoinSlices(base: Bits, w: Bits, i: nat, j: nat, k: nat)
    requires i <= j <= k <= |w|
    ensures base + w[i..j] + w[j..k] == base + w[i..k]
  {
  }

  // The bits w[from..end] are to be written; all but the last nbits of them are.
  ghost predicate Progress(bufs: Bufs, base: Bits, w: Bits, from: nat, end: nat, nbits: nat)
    reads bufs, bufs.mem
  {
    24 < end <= 32 == |w| && from + nbits <= end && (end - nbits) % 8 == 0 &&
    Spelt(bufs) == base + w[from..end - nbits]
  }

  // Where the octet at a shift starts in the word.
  lemma Aligned(p: nat, end: nat, nbits: nat, shift: nat)
    requires shift in {0, 8, 16, 24} && shift < nbits <= shift + 8
    requires 24 < end <= 32 && p + nbits == end && p % 8 == 0
    ensures p == 24 - shift
  {
  }

  // One of the three tests: push the octet at this shift if more bits than that are left.
  method PushIfAbove(bufs: Bufs, code: nat, shift: nat, nbitsIn: nat, slow: bool,
                     ghost base: Bits, ghost w: Bits, ghost from: nat, ghost end: nat)
      returns (rv: Rv, nbits: nat)
    requires Usable(bufs) && |w| == 32 && Value(w) == code && shift in {8, 16, 24}
    requires 0 < nbitsIn <= shift + 8 && Progress(bufs, base, w, from, end, nbitsIn)
    requires !slow ==> Left(bufs) >= 1
    modifies bufs, bufs.chain, MemoryOf(bufs.chain), bufs.mem`calls
    ensures Usable(bufs) && bufs.Grown()
    ensures !slow ==> rv == Ok && Left(bufs) == old(Left(bufs)) - if nbitsIn > shift then 1 else 0
    ensures nbits == if nbitsIn > shift && rv == Ok then nbitsIn - 8 else nbitsIn
    ensures Progress(bufs, base, w, from, end, nbits)
    ensures Limited(bufs, rv, |base| + (end - from))
  {
    hide Usable, Spelt, Left, Value, Limit;
    rv, nbits := Ok, nbitsIn;
    if nbitsIn > shift {
      Aligned(end - nbits, end, nbits, shift);
      rv := PushShifted(bufs, code, shift, slow, w);
      if rv == Ok {
        JoinSlices(base, w, from, end - nbits, end - nbits + 8);
        nbits := nbits - 8;
      }
    }
  }

  // The last octet: pushed if all its bits are used, held otherwise.
  method EncodeLast(bufs: Bufs, code: nat, nbits: nat, slow: bool,
                    ghost base: Bits, ghost w: Bits, ghost from: nat, ghost end: nat)
      returns (rv: Rv, rembits: nat, ghost h: Bits)
    requires Usable(bufs) && |w| == 32 && Value(w) == code && 0 < nbits <= 8 && (!slow ==> Left(bufs) >= 1)
    requires Progress(bufs, base, w, from, end, nbits)
    requires forall i :: end <= i < 32 ==> !w[i]
    modifies bufs, bufs.chain, MemoryOf(bufs.chain), bufs.mem`calls
    ensures Usable(bufs) && bufs.Grown()
    ensures !slow ==> rv == Ok
    ensures rv == Ok ==> |h| < 8 && rembits == 8 - |h| && (h != [] ==> Pending(bufs, h))
    ensures rv == Ok ==> Spelt(bufs) + h == base + w[from..end]
    ensures base <= Spelt(bufs)
    ensures Limited(bufs, rv, |base| + (end - from))
  {
    hide Usable, Spelt, Left, Value, ByteBits, Limit, Holds, Pending;
    Aligned(end - nbits, end, nbits, 0);
    JoinSlices(base, w, from, 24, end);
    if nbits == 8 {
      rv := PushShifted(bufs, code, 0, slow, w);
      rembits, h := 8, [];
      assert Spelt(bufs) + h == Spelt(bufs);
      return;
    }
    ShiftedByte(w, 0);
    rv := HoldByte(bufs, code % 256, slow);
    h := w[24..end];
    assert w[24..32] == h + Zeros(8 - nbits);
    rembits := 8 - nbits;
    if rv == Ok {
      Waits(bufs, code % 256, h);
    }
  }

  // The three tests in turn: all octets but the last are pushed.
  method PushWhole(bufs: Bufs, code: nat, nbitsIn: nat, slow: bool,
                   ghost base: Bits, ghost w: Bits, ghost from: nat, ghost end: nat)
      returns (rv: Rv, nbits: nat)
    requires Usable(bufs) && |w| == 32 && Value(w) == code
    requires 0 < nbitsIn && from % 8 == 0 && from + nbitsIn == end && Progress(bufs, base, w, from, end, nbitsIn)
    requires !slow ==> 8 * Left(bufs) >= 32 - from
    modifies bufs, bufs.chain, MemoryOf(bufs.chain), bufs.mem`calls
    ensures Usable(bufs) && bufs.Grown() && Progress(bufs, base, w, from, end, nbits)
    ensures rv == Ok ==> 0 < nbits <= 8
    ensures !slow ==> rv == Ok && Left(bufs) >= 1
    ensures Limited(bufs, rv, |base| + (end - from))
  {
    hide Usable, Spelt, Left, Value, Limit;
    rv, nbits := PushIfAbove(bufs, code, 24, nbitsIn, slow, base, w, from, end);
    if rv != Ok {
      return;
    }
    rv, nbits := PushIfAbove(bufs, code, 16, nbits, slow, base, w, from, end);
    if rv != Ok {
      return;
    }
    rv, nbits := PushIfAbove(bufs, code, 8, nbits, slow, base, w, from, end);
  }

  /** What is left of a code after its first octet, the bits w[from..end]: whole octets are pushed, a last
      partial one is held. */
  method EncodeRest(bufs: Bufs, code: nat, nbitsIn: nat, slow: bool, ghost w: Bits, ghost from: nat, ghost end: nat)
      returns (rv: Rv, rembits: nat, ghost h: Bits)
    requires Usable(bufs) && |w| == 32 && Value(w) == code
    requires 24 < end <= 32 && from % 8 == 0 && from + nbitsIn == end && 0 < nbitsIn
    requires !slow ==> 8 * Left(bufs) >= 32 - from
    requires forall i :: end <= i < 32 ==> !w[i]
    modifies bufs, bufs.chain, MemoryOf(bufs.chain), bufs.mem`calls
    ensures Usable(bufs) && bufs.Grown()
    ensures !slow ==> rv == Ok
    ensures rv == Ok ==> |h| < 8 && rembits == 8 - |h| && (h != [] ==> Pending(bufs, h))
    ensures rv == Ok ==> Spelt(bufs) + h == old(Spelt(bufs)) + w[from..end]
    ensures old(Spelt(bufs)) <= Spelt(bufs)
    ensures Limited(bufs, rv, |old(Spelt(bufs))| + nbitsIn)
  {
    hide Usable, Spelt, Left, Value, Limit;
    var nbits: nat;
    ghost var base := Spelt(bufs);
    h, rembits := [], 8;
    assert base + w[from..from] == base;
    rv, nbits := PushWhole(bufs, code, nbitsIn, slow, base, w, from, end);
    if rv != Ok {
      return;
    }
    rv, rembits, h := EncodeLast(bufs, code, nbits, slow, base, w, from, end);
  }

  // nghttp2_bufs_fast_orb_hold: the bits x join those waiting, which still do not fill the octet.
  method OrHold(bufs: Bufs, b: byte, ghost h: Bits, ghost x: Bits, ghost k: nat)
    requires Usable(bufs) && Pending(bufs, h) && |h| + |x| + k == 8 && k > 0
    requires ByteBits(b) == Zeros(|h|) + x + Zeros(k)
    modifies MemoryOf(bufs.chain)
    ensures Usable(bufs) && Pending(bufs, h + x) && bufs.Grown()
    ensures Spelt(bufs) == old(Spelt(bufs)) && Left(bufs) == old(Left(bufs)) && Limited(bufs, Ok, 0)
  {
    hide ByteBits, OctetBits;
    OrFills(bufs.Held(), b, h, x, k);
    bufs.FastOrbHold(b);
    assert Holds(bufs, bufs.Held());
  }

  // nghttp2_bufs_fast_orb: the bits x fill the octet, which is stored.
  method OrStore(bufs: Bufs, b: byte, ghost h: Bits, ghost x: Bits)
    requires Usable(bufs) && Pending(bufs, h) && |h| + |x| == 8
    requires ByteBits(b) == Zeros(|h|) + x + Zeros(0)
    modifies bufs, bufs.chain, MemoryOf(bufs.chain)
    ensures Usable(bufs) && bufs.Grown()
    ensures Spelt(bufs) == old(Spelt(bufs)) + h + x && Left(bufs) == old(Left(bufs)) - 1 && Limited(bufs, Ok, 0)
  {
    hide ByteBits, OctetBits, Limit;
    LimitPut(bufs.Value(), Or(bufs.Held(), b));
    ghost var filled := Or(bufs.Held(), b);
    OrFills(bufs.Held(), b, h, x, 0);
    assert h + x + Zeros(0) == h + x;
    SnocBits(Contents(bufs.Value()), filled);
    PutContents(bufs.Value(), [filled]);
    PutWf(bufs.Value(), [filled]);
    bufs.FastOrb(b);
    assert Spelt(bufs) == old(Spelt(bufs)) + ByteBits(filled);
    assert old(Spelt(bufs)) + (h + x) == old(Spelt(bufs)) + h + x;
  }

  // The last m bits of a code, moved up to an octet boundary.
  function PadTo(m: nat): (k: nat)
    ensures k <= 7 && (m + k) % 8 == 0 && (32 - m - k) % 8 == 0
  {
    var k := if m % 8 == 0 then 0 else 8 - m % 8;
    assert m + k == 8 * (m / 8 + if m % 8 == 0 then 0 else 1);
    k
  }

  // The 32-bit word of a code shifted left by k, seen as bits: it ends with the code's last bits and k zeros.
  lemma ShiftedWord(c: Bits, r: nat, k: nat) returns (w: Bits)
    requires r < |c| <= 32 && |c| - r + k <= 32
    ensures |w| == 32 && Value(w) == Value(c) * Pow2(k) % Pow2(32)
    ensures w[32 - k - (|c| - r)..32 - k] == c[r..]
    ensures forall i :: 32 - k <= i < 32 ==> !w[i]
  {
    hide Value, Pow2, Zeros;
    var full := Zeros(32) + c + Zeros(k);
    PadValue(32, c, k);
    var n := |full| - 32;
    w := full[n..];
    assert full == full[..n] + w;
    SplitValue(full[..n], w);
  }

  lemma MulOne(v: nat)
    ensures v * Pow2(0) == v
  {
  }

  lemma WordIsSmall(c: Bits)
    requires |c| <= 32
    ensures Value(c) * Pow2(0) % Pow2(32) == Value(c)
  {
    hide Pow2, Value;
    Pow2Sum(|c|, 32 - |c|);
    AtLeastOnce(Pow2(32 - |c|), Pow2(|c|));
    MulOne(Value(c));
    SmallMod(Value(c), Pow2(32));
  }

  lemma SmallMod(v: nat, m: nat)
    requires v < m
    ensures v % m == v
  {
  }

  // The last bits of a code as a piece of a word, and the octets it spans.
  lemma AlignedTail(c: Bits, r: nat) returns (w: Bits, from: nat, end: nat)
    requires 0 < r < |c| <= 32
    ensures |w| == 32 && Value(w) == AlignedCode(Value(c), |c| - r)
    ensures 24 < end <= 32 && from % 8 == 0 && from + (|c| - r) == end && 8 * OctetsFor(|c| - r) == 32 - from
    ensures w[from..end] == c[r..] && forall i :: end <= i < 32 ==> !w[i]
  {
    hide Value, AlignedCode, OctetsFor;
    var k := PadTo(|c| - r);
    w := AlignedWord(c, r);
    OctetsNeeded(|c| - r);
    from, end := 32 - k - (|c| - r), 32 - k;
  }

  // The part of huff_encode_sym behind the first octet.
  method EncodeTail(bufs: Bufs, availIn: nat, taken: nat, sym: Sym, ghost c: Bits)
      returns (rv: Rv, rembits: nat, avail: nat, ghost h: Bits)
    requires Usable(bufs) && availIn == Left(bufs) && Writes(sym, c) && 0 < taken < |c|
    modifies bufs, bufs.chain, MemoryOf(bufs.chain), bufs.mem`calls
    ensures Usable(bufs) && bufs.Grown()
    ensures rv == Ok ==> |h| < 8 && rembits == 8 - |h| && avail == Left(bufs) && (h != [] ==> Pending(bufs, h))
    ensures rv == Ok ==> Spelt(bufs) + h == old(Spelt(bufs)) + c[taken..]
    ensures old(Spelt(bufs)) <= Spelt(bufs)
    ensures Limited(bufs, rv, |old(Spelt(bufs))| + |c| - taken)
  {
    hide Usable, Spelt, Left, Value, Pow2, Pending, Holds, AlignedCode, OctetsFor, Limit;
    var nbits := sym.nbits - taken;
    var code := AlignedCode(sym.code, nbits);
    ghost var w, from, end := AlignedTail(c, taken);
    var slow := availIn < OctetsFor(nbits);
    rv, rembits, h := EncodeRest(bufs, code, nbits, slow, w, from, end);
    avail := CursorRoom(bufs);
  }

  function OctetsFor(nbits: nat): nat {
    (nbits + 7) / 8
  }

  lemma OctetsNeeded(m: nat)
    ensures 8 * OctetsFor(m) == m + PadTo(m)
  {
    var q := m / 8;
    assert m == 8 * q + m % 8;
  }

  // The code moved up so that its last bits end at an octet boundary; a 32-bit word drops what leaves it.
  function AlignedCode(code: nat, nbits: nat): nat {
    if nbits % 8 != 0 then code * Pow2(8 - nbits % 8) % Pow2(32) else code
  }

  lemma AlignedWord(c: Bits, r: nat) returns (w: Bits)
    requires 0 < r < |c| <= 32
    ensures var m := |c| - r;
            var k := PadTo(m);
            |w| == 32 && Value(w) == AlignedCode(Value(c), m) && m + k <= 32 &&
            w[32 - k - m..32 - k] == c[r..] && forall i :: 32 - k <= i < 32 ==> !w[i]
  {
    hide Value, Pow2;
    WordIsSmall(c);
    OctetsNeeded(|c| - r);
    w := ShiftedWord(c, r, PadTo(|c| - r));
  }

  function CursorRoom(bufs: Bufs): (n: nat)
    requires Usable(bufs)
    reads bufs, bufs.chain, MemoryOf(bufs.chain), bufs.mem
    ensures n == Left(bufs)
  {
    bufs.CurAvail()
  }

  /** One code behind the bits h that wait: together they are stored, except for less than an octet that
      waits again. */
  method EncodeSym(bufs: Bufs, availIn: nat, rembitsIn: nat, sym: Sym, ghost h: Bits, ghost c: Bits)
      returns (rv: Rv, rembits: nat, avail: nat, ghost h': Bits)
    requires Usable(bufs) && Pending(bufs, h) && rembitsIn == 8 - |h| && availIn == Left(bufs) && Writes(sym, c)
    modifies bufs, bufs.chain, MemoryOf(bufs.chain), bufs.mem`calls
    ensures Usable(bufs) && bufs.Grown()
    ensures rv == Ok ==> |h'| < 8 && rembits == 8 - |h'| && avail == Left(bufs) && (h' != [] ==> Pending(bufs, h'))
    ensures rv == Ok ==> Spelt(bufs) + h' == old(Spelt(bufs)) + h + c
    ensures old(Spelt(bufs)) <= Spelt(bufs)
    ensures Limited(bufs, rv, |old(Spelt(bufs))| + |h| + |c|)
  {
    hide Usable, Spelt, Left, Value, ByteBits, Pow2, Limit;
    var nbits, code := sym.nbits, sym.code;
    rv, avail := Ok, availIn;
    if rembitsIn > nbits {
      SmallByte(c, rembitsIn - nbits);
      OrHold(bufs, code * Pow2(rembitsIn - nbits) % 256, h, c, rembitsIn - nbits);
      rembits, h' := rembitsIn - nbits, h + c;
      return;
    }
    var shift := nbits - rembitsIn;
    ghost var first := c[..rembitsIn];
    assert c == first + c[rembitsIn..];
    SplitValue(first, c[rembitsIn..]);
    SmallByte(first, 0);
    MulOne(Value(first));
    OrStore(bufs, code / Pow2(shift) % 256, h, first);
    avail := avail - 1;
    if shift == 0 {
      rembits, h' := 8, [];
      return;
    }
    rv, rembits, avail, h' := EncodeTail(bufs, avail, rembitsIn, sym, c);
  }

  // huff_sym_table: one entry for each symbol, for a code whose EOS starts with eight ones.
  ghost predicate SymTable(table: seq<Sym>, code: nat -> Bits) {
    && |table| == 257 && (forall s :: 0 <= s < 257 ==> Writes(table[s], code(s)))
    && |code(256)| >= 8 && AllOnes(code(256)[..8])
  }

  // A zero octet to fill, at the cursor.
  method HoldZero(bufs: Bufs, availIn: nat) returns (rv: Rv, avail: nat)
    requires Usable(bufs) && availIn == Left(bufs)
    modifies bufs, bufs.chain, MemoryOf(bufs.chain), bufs.mem`calls
    ensures Usable(bufs) && bufs.Grown() && Spelt(bufs) == old(Spelt(bufs))
    ensures rv == Ok ==> avail == Left(bufs) && Pending(bufs, [])
    ensures Limited(bufs, rv, |old(Spelt(bufs))| + 1)
  {
    hide Usable, Spelt, Left, ByteBits, Holds, Limit;
    avail := availIn;
    if avail > 0 {
      rv := HoldByte(bufs, 0, false);
    } else {
      rv := HoldByte(bufs, 0, true);
      avail := CursorRoom(bufs);
    }
    ZeroByte();
    assert [] + Zeros(8) == Zeros(8);
  }

  lemma ZeroByte()
    ensures ByteBits(0) == Zeros(8)
  {
    ZerosValue(8);
    BitsOfValue(Zeros(8));
  }

  // The octet begun is filled with the first bits of EOS, which are ones.
  method PadLast(bufs: Bufs, rembits: nat, eos: Sym, ghost h: Bits, ghost c: Bits)
    requires Usable(bufs) && Pending(bufs, h) && rembits == 8 - |h| && Writes(eos, c)
    requires |c| >= 8 && AllOnes(c[..8])
    modifies bufs, bufs.chain, MemoryOf(bufs.chain)
    ensures Usable(bufs) && bufs.Grown() && Spelt(bufs) == old(Spelt(bufs)) + h + Ones(rembits)
    ensures Limited(bufs, Ok, 0)
  {
    hide Usable, Spelt, Left, Value, Pow2, Pending, ByteBits, Limit;
    ghost var ones := c[..rembits];
    assert forall i :: 0 <= i < rembits ==> c[i] == c[..8][i];
    assert ones == Ones(rembits);
    assert c == ones + c[rembits..];
    SplitValue(ones, c[rembits..]);
    SmallByte(ones, 0);
    MulOne(Value(ones));
    OrStore(bufs, eos.code / Pow2(eos.nbits - rembits) % 256, h, ones);
  }

  lemma {:induction false} EncodeSnoc(code: nat -> Bits, s: seq<nat>, c: nat)
    ensures Encode(code, s + [c]) == Encode(code, s) + code(c)
  {
    if s == [] {
      assert s + [c] == [c];
      assert Encode(code, [c]) == code(c) + Encode(code, []);
    } else {
      assert (s + [c])[1..] == s[1..] + [c];
      EncodeSnoc(code, s[1..], c);
    }
  }

  lemma {:induction false} OctetLength(bytes: seq<byte>)
    ensures |OctetBits(bytes)| == 8 * |bytes|
  {
    if bytes != [] {
      OctetLength(bytes[1..]);
    }
  }

  // The padding that reaches an octet boundary is the one of the specification.
  lemma PaddedAtEnd(code: nat -> Bits, s: seq<nat>, before: seq<byte>, after: seq<byte>, n: nat)
    requires n <= 7 && OctetBits(after) == OctetBits(before) + Encode(code, s) + Ones(n)
    ensures OctetBits(after) == OctetBits(before) + Padded(code, s)
  {
    OctetLength(before);
    OctetLength(after);
    var e := |Encode(code, s)|;
    assert e + n == 8 * (|after| - |before|);
    SamePadding(e, n, |after| - |before|);
    assert OctetBits(before) + (Encode(code, s) + Ones(n)) == OctetBits(before) + Encode(code, s) + Ones(n);
  }

  lemma SamePadding(e: nat, n: nat, q: int)
    requires n <= 7 && e + n == 8 * q
    ensures n == PadLength(e)
  {
    var k := PadLength(e);
    var p := (e + k) / 8;
    assert e + k == 8 * p;
  }

  lemma SpeltPadded(bufs: Bufs, code: nat -> Bits, s: seq<nat>, before: seq<byte>, base: Bits, n: nat)
    requires base == OctetBits(before) && n <= 7
    requires Spelt(bufs) == base + Encode(code, s) + Ones(n)
    ensures Spelt(bufs) == base + Padded(code, s)
  {
    PaddedAtEnd(code, s, before, Contents(bufs.Value()), n);
  }

  // One turn of the loop: begin an octet if none waits, then write the code.
  method EncodeOne(bufs: Bufs, availIn: nat, rembitsIn: nat, sym: Sym, ghost h: Bits, ghost c: Bits)
      returns (rv: Rv, rembits: nat, avail: nat, ghost h': Bits)
    requires Usable(bufs) && availIn == Left(bufs) && Writes(sym, c)
    requires |h| < 8 && rembitsIn == 8 - |h| && (h != [] ==> Pending(bufs, h))
    modifies bufs, bufs.chain, MemoryOf(bufs.chain), bufs.mem`calls
    ensures Usable(bufs) && bufs.Grown()
    ensures rv == Ok ==> |h'| < 8 && rembits == 8 - |h'| && avail == Left(bufs) && (h' != [] ==> Pending(bufs, h'))
    ensures rv == Ok ==> Spelt(bufs) + h' == old(Spelt(bufs)) + h + c
    ensures old(Spelt(bufs)) <= Spelt(bufs)
    ensures Limited(bufs, rv, |old(Spelt(bufs))| + |h| + |c|)
  {
    hide Usable, Spelt, Left, Value, Pow2, Pending, ByteBits, Limit;
    rembits, avail, h' := rembitsIn, availIn, h;
    if rembits == 8 {
      rv, avail := HoldZero(bufs, avail);
      if rv != Ok {
        return;
      }
    }
    rv, rembits, avail, h' := EncodeSym(bufs, avail, rembits, sym, h, c);
  }

  lemma {:induction false} EncodeLonger(code: nat -> Bits, s: seq<nat>, i: nat)
    requires i <= |s|
    ensures |Encode(code, s[..i])| <= |Encode(code, s)|
    decreases |s|
  {
    if i == |s| {
      assert s[..i] == s;
    } else {
      var n := |s| - 1;
      EncodeLonger(code, s[..n], i);
      EncodeSnoc(code, s[..n], s[n]);
      assert s[..n][..i] == s[..i] && s == s[..n] + [s[n]];
    }
  }

  // The codes of one more octet, behind the codes of those before and in front of the rest.
  lemma OneMore(code: nat -> Bits, src: seq<byte>, i: nat, base: Bits)
    requires i < |src|
    ensures base + Encode(code, src[..i]) + code(src[i]) == base + Encode(code, src[..i + 1])
    ensures |Encode(code, src[..i])| + |code(src[i])| <= |Encode(code, src)|
  {
    EncodeSnoc(code, src[..i], src[i]);
    assert src[..i + 1] == src[..i] + [src[i]];
    EncodeLonger(code, src, i + 1);
  }

  // Whether so many bits fit into the room there is, if the allocator refuses nothing from here on.
  ghost function Fits(st: State, bits: nat): Option<bool> {
    if Wf(st) && Granted(st) then Some(bits <= 8 * Room(st)) else None
  }

  lemma NoFit(st: State, code: nat -> Bits, src: seq<byte>)
    requires Limit(st).Some? ==> Limit(st).value < 8 * |Contents(st)| + |Encode(code, src)|
    ensures Fits(st, |Padded(code, src)|) != Some(true)
  {
    hide Room, Encode, Flat;
  }

  lemma DidFit(st: State, st': State, bits: nat)
    requires Limit(st).Some? ==> Limit(st') == Limit(st)
    requires 8 * |Contents(st')| == 8 * |Contents(st)| + bits
    ensures Fits(st, bits) != Some(false)
  {
    hide Room, Flat;
    if Wf(st) && Granted(st) {
      assert Limit(st').Some?;
      RoomBound(st');
    }
  }

  /** On success the buffer holds, behind what it held, the codes of src padded with ones to whole octets; on
      failure nothing that was stored is lost. If the allocator refuses nothing encoding succeeds exactly when
      the padded codes fit; only chunks no longer than their header offset can be overrun. */
  method HuffEncode(bufs: Bufs, src: seq<byte>, table: seq<Sym>, ghost code: nat -> Bits) returns (rv: Rv)
    requires Usable(bufs) && SymTable(table, code)
    modifies bufs, bufs.chain, MemoryOf(bufs.chain), bufs.mem`calls
    ensures Usable(bufs) && bufs.Grown()
    ensures rv == Ok ==> Spelt(bufs) == old(Spelt(bufs)) + Padded(code, src)
    ensures old(Spelt(bufs)) <= Spelt(bufs)
    ensures old(Fits(bufs.Value(), |Padded(code, src)|)).Some? ==>
      (rv == Ok <==> old(Fits(bufs.Value(), |Padded(code, src)|)).value)
    ensures rv == Overrun ==> old(bufs.offset == bufs.chunkLength)
  {
    hide Usable, Spelt, Left, Value, Pow2, Pending, Holds, Padded, ByteBits, Limit, Encode, Fits;
    var rembits := 8;
    ghost var h: Bits, before, base, start := [], Contents(bufs.Value()), Spelt(bufs), bufs.Value();
    SpeltOf(bufs);
    OctetLength(before);
    var avail := CursorRoom(bufs);
    rv := Ok;
    NothingEncoded(code);
    assert base + Encode(code, src[..0]) == base;
    for i := 0 to |src|
      invariant rv == Ok && Usable(bufs) && bufs.Grown() && avail == Left(bufs) && Limited(bufs, Ok, 0)
      invariant |h| < 8 && rembits == 8 - |h| && (h != [] ==> Pending(bufs, h))
      invariant Spelt(bufs) + h == base + Encode(code, src[..i]) && base <= Spelt(bufs)
    {
      OneMore(code, src, i, base);
      ghost var sofar := Spelt(bufs) + h;
      rv, rembits, avail, h := EncodeOne(bufs, avail, rembits, table[src[i]], h, code(src[i]));
      if rv != Ok {
        assert |sofar| == |base| + |Encode(code, src[..i])|;
        NoFit(start, code, src);
        return;
      }
    }
    assert src[..|src|] == src;
    if rembits < 8 {
      PadLast(bufs, rembits, table[256], h, code(256));
    } else {
      assert Spelt(bufs) + h == Spelt(bufs) + Ones(0);
    }
    ghost var pad := if rembits < 8 then rembits else 0;
    assert Spelt(bufs) == base + Encode(code, src) + Ones(pad);
    SpeltPadded(bufs, code, src, before, base, pad);
    SpeltOf(bufs);
    OctetLength(Contents(bufs.Value()));
    DidFit(start, bufs.Value(), |Padded(code, src)|);
  }

  lemma NothingEncoded(code: nat -> Bits)
    ensures Encode(code, []) == []
  {
  }

  lemma CountedOctets(n: nat)
    ensures 8 * OctetsFor(n) == n + PadLength(n)
  {
    OctetsNeeded(n);
    SamePadding(n, PadTo(n), OctetsFor(n));
  }

  /** The count predicts the octets that encoding adds. */
  method HuffEncodeCount(src: seq<byte>, table: seq<Sym>, ghost code: nat -> Bits) returns (octets: nat)
    requires SymTable(table, code)
    ensures 8 * octets == |Padded(code, src)|
  {
    hide Value, Pow2, OctetsFor, PadLength;
    var nbits := 0;
    for i := 0 to |src|
      invariant nbits == |Encode(code, src[..i])|
    {
      EncodeSnoc(code, src[..i], src[i]);
      assert src[..i + 1] == src[..i] + [src[i]];
      nbits := nbits + table[src[i]].nbits;
    }
    assert src[..|src|] == src;
    CountedOctets(nbits);
    assert |Padded(code, src)| == nbits + PadLength(nbits);
    octets := OctetsFor(nbits);
  }
}
