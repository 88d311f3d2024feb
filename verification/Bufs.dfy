/** nghttp2_buf.c: growable buffers, and the linked chain of fixed-size chunks that acts as one byte string. */
module Bufs {
  import opened BitStrings
  import opened ChunkSpec

  // Whether the n-th request is granted is fixed in advance, but unknown.
  class Allocator {
    const grants: nat -> bool
    var calls: nat

    constructor (grants: nat -> bool)
      ensures this.grants == grants && calls == 0
    {
      this.grants := grants;
      calls := 0;
    }

    method Malloc() returns (ok: bool)
      modifies this`calls
      ensures ok == grants(old(calls)) && calls == old(calls) + 1
    {
      ok := grants(calls);
      calls := calls + 1;
    }
  }

  /** A growable buffer: content in data[pos..last], mark any position. */
  class Buf {
    var data: array<byte>
    var pos: nat
    var last: nat
    var mark: nat

    ghost predicate Valid()
      reads this
    {
      pos <= last <= data.Length && mark <= data.Length
    }

    constructor ()
      ensures Valid() && data.Length == 0 && fresh(data) && pos == last == mark == 0
    {
      data := new byte[0];
      pos, last, mark := 0, 0, 0;
    }

    /** Grow to at least newCap, at least doubling, and keep everything stored. */
    method Reserve(newCap: nat, mem: Allocator) returns (rv: Rv)
      requires Valid()
      modifies this`data, mem`calls
      ensures Valid()
      ensures if old(data.Length) >= newCap then rv == Ok && data == old(data) && mem.calls == old(mem.calls)
              else mem.calls == old(mem.calls) + 1 && rv == if mem.grants(old(mem.calls)) then Ok else NoMem
      ensures rv != Ok ==> data == old(data)
      ensures rv == Ok ==> data.Length >= newCap && data[..old(data.Length)] == old(data[..])
      ensures rv == Ok && data != old(data) ==>
        fresh(data) && data.Length == if newCap >= 2 * old(data.Length) then newCap else 2 * old(data.Length)
    {
      var cap := data.Length;
      if cap >= newCap {
        return Ok;
      }
      var size := if newCap > cap * 2 then newCap else cap * 2;
      var granted := mem.Malloc();
      if !granted {
        return NoMem;
      }
      var grown := new byte[size];
      forall i | 0 <= i < cap {
        grown[i] := data[i];
      }
      data := grown;
      return Ok;
    }
  }

  // A chunk of the chain: its buffer, whose memory never grows, and the next chunk.
  class Chain {
    const data: array<byte>
    var pos: nat
    var last: nat
    var next: Chain?

    ghost predicate Valid()
      reads `pos, `last
    {
      pos <= last <= data.Length
    }

    ghost function View(): Chunk
      reads `pos, `last, data
    {
      Chunk(pos, if Valid() then data[pos..last] else [], data.Length)
    }

    lemma EmptyView()
      requires pos == last <= data.Length
      ensures Valid() && View() == Chunk(pos, [], data.Length)
    {
    }

    constructor (size: nat)
      ensures fresh(data) && data.Length == size && pos == last == 0 && next == null
    {
      data := new byte[size];
      pos, last, next := 0, 0, null;
    }

    method Reset()
      modifies this`pos, this`last
      ensures pos == last == 0
    {
      pos, last := 0, 0;
    }

    method ShiftRight(amount: nat)
      modifies this`pos, this`last
      ensures pos == old(pos) + amount && last == old(last) + amount
    {
      pos := pos + amount;
      last := last + amount;
    }

    function Bytes(): seq<byte>
      requires Valid()
      reads this, data
      ensures Bytes() == View().bytes
    {
      data[pos..last]
    }

    method Append(src: seq<byte>)
      requires Valid() && last + |src| <= data.Length
      modifies this`last, data
      ensures Valid()
      ensures View() == old(View()).(bytes := old(View()).bytes + src)
      ensures last == old(last) + |src|
    {
      forall i | 0 <= i < |src| {
        data[last + i] := src[i];
      }
      assert data[pos..last] == old(data[pos..last]);
      last := last + |src|;
      assert data[pos..last] == data[pos..old(last)] + src;
    }
  }

  // The chunk header and, unless it is empty, its memory: two requests.
  method NewChain(chunkLength: nat, mem: Allocator) returns (rv: Rv, chain: Chain?)
    modifies mem`calls
    ensures rv == Ok || rv == NoMem
    ensures rv == Ok <==> mem.grants(old(mem.calls)) && (chunkLength == 0 || mem.grants(old(mem.calls) + 1))
    ensures mem.calls == old(mem.calls) + if !mem.grants(old(mem.calls)) || chunkLength == 0 then 1 else 2
    ensures rv == Ok <==> chain != null
    ensures rv == Ok ==> fresh(chain) && fresh(chain.data) && chain.next == null
    ensures rv == Ok ==> chain.data.Length == chunkLength && chain.pos == chain.last == 0
  {
    var granted := mem.Malloc();
    if !granted {
      return NoMem, null;
    }
    if chunkLength > 0 {
      granted := mem.Malloc();
      if !granted {
        return NoMem, null;
      }
    }
    chain := new Chain(chunkLength);
    rv := Ok;
  }

  // A new chunk with its header space skipped, as every caller wants it.
  method NewOffsetChain(chunkLength: nat, offset: nat, mem: Allocator) returns (rv: Rv, chain: Chain?)
    requires offset <= chunkLength
    modifies mem`calls
    ensures rv == Ok || rv == NoMem
    ensures rv == Ok <==> mem.grants(old(mem.calls)) && (chunkLength == 0 || mem.grants(old(mem.calls) + 1))
    ensures mem.calls == old(mem.calls) + if !mem.grants(old(mem.calls)) || chunkLength == 0 then 1 else 2
    ensures rv == Ok <==> chain != null
    ensures rv == Ok ==> fresh(chain) && fresh(chain.data) && chain.next == null
    ensures rv == Ok ==> chain.Valid() && chain.View() == Chunk(offset, [], chunkLength)
    ensures rv == Ok ==> chain.data.Length == chunkLength && chain.pos == chain.last == offset
  {
    rv, chain := NewChain(chunkLength, mem);
    if rv == Ok {
      chain.ShiftRight(offset);
      chain.EmptyView();
    }
  }

  ghost function MemoryOf(chain: seq<Chain>): set<array<byte>> {
    set c | c in chain :: c.data
  }

  ghost predicate Linked(chain: seq<Chain>)
    reads chain`next
  {
    forall i {:trigger chain[i].next} :: 0 <= i < |chain| ==>
      chain[i].next == if i + 1 < |chain| then chain[i + 1] else null
  }

  ghost predicate Apart(chain: seq<Chain>) {
    forall i, j :: 0 <= i < j < |chain| ==> chain[i] != chain[j] && chain[i].data != chain[j].data
  }

  ghost predicate Hold(chain: seq<Chain>, chunks: seq<Chunk>)
    requires |chain| == |chunks|
    reads chain`pos, chain`last, MemoryOf(chain)
  {
    forall i :: 0 <= i < |chain| ==> chain[i].Valid() && chunks[i] == chain[i].View()
  }

  lemma ApartSnoc(chain: seq<Chain>, c: Chain)
    requires Apart(chain) && c !in chain && c.data !in MemoryOf(chain)
    ensures Apart(chain + [c])
  {
    assert forall i :: 0 <= i < |chain| ==> chain[i].data in MemoryOf(chain);
  }

  // nghttp2_cpymem into out at n.
  method CopyTo(out: array<byte>, n: nat, bytes: seq<byte>)
    requires n + |bytes| <= out.Length
    modifies out
    ensures out[..n + |bytes|] == old(out[..n]) + bytes
    ensures forall j :: n + |bytes| <= j < out.Length ==> out[j] == old(out[j])
  {
    forall j | 0 <= j < |bytes| {
      out[n + j] := bytes[j];
    }
  }

  class Bufs {
    var head: Chain?
    var cur: Chain?
    var mem: Allocator
    var chunkLength: nat
    var maxChunk: nat
    var chunkUsed: nat
    var chunkKeep: nat
    var offset: nat

    ghost var chain: seq<Chain>
    ghost var chunks: seq<Chunk>
    ghost var at: nat

    /** The chunks are linked in order from head, cur is one of them, no two share memory, and `chunks`
        is what they hold. */
    ghost predicate Valid()
      reads this, chain, MemoryOf(chain)
    {
      && at < |chain| == |chunks| == chunkUsed && head == chain[0] && cur == chain[at]
      && Linked(chain) && Apart(chain) && Hold(chain, chunks)
    }

    ghost function Value(): State
      reads this, mem
    {
      State(chunks, at, chunkLength, maxChunk, chunkKeep, offset, mem.grants, mem.calls)
    }

    // Chunks were only added, and only new ones.
    twostate predicate Grown()
      reads this
    {
      mem == old(mem) && old(chain) <= chain &&
      forall i :: |old(chain)| <= i < |chain| ==> fresh(chain[i]) && fresh(chain[i].data)
    }

    constructor (mem: Allocator)
      ensures this.mem == mem
    {
      head, cur := null, null;
      this.mem := mem;
      chunkLength, maxChunk, chunkUsed, chunkKeep, offset := 0, 0, 0, 0, 0;
      chain, chunks, at := [], [], 0;
    }

    method Init3(chunkLength: nat, maxChunk: nat, chunkKeep: nat, offset: nat, mem: Allocator) returns (rv: Rv)
      modifies this, mem`calls
      ensures rv == Init(chunkLength, maxChunk, chunkKeep, offset, mem.grants, old(mem.calls)).0
      ensures rv != Ok ==> unchanged(this)
      ensures rv == Ok ==> Valid() && this.mem == mem
      ensures rv == Ok ==> |chain| == 1 && fresh(chain[0]) && fresh(chain[0].data)
      ensures rv == Ok ==> at == 0 && CurAvail() == chunkLength - offset == this.chunkLength - this.offset
      ensures rv == Ok ==> Value() == Init(chunkLength, maxChunk, chunkKeep, offset, mem.grants, old(mem.calls)).1
    {
      hide Chain.View, Chain.Valid;
      if chunkKeep == 0 || maxChunk < chunkKeep || chunkLength < offset {
        return InvalidArgument;
      }
      var c;
      rv, c := NewOffsetChain(chunkLength, offset, mem);
      if rv != Ok {
        return;
      }
      this.mem := mem;
      this.offset := offset;
      this.maxChunk := maxChunk;
      this.chunkKeep := chunkKeep;
      StartWith(c, chunkLength);
    }

    // The part common to initialising and reallocating: c becomes the only chunk.
    method StartWith(c: Chain, chunkLength: nat)
      requires c.Valid() && c.next == null
      modifies this`head, this`cur, this`chunkLength, this`chunkUsed, this`chain, this`chunks, this`at
      ensures Valid() && chain == [c] && chunks == [c.View()] && at == 0 && this.chunkLength == chunkLength
    {
      hide Chain.View, Chain.Valid;
      head := c;
      cur := head;
      this.chunkLength := chunkLength;
      chunkUsed := 1;
      chain, chunks, at := [c], [c.View()], 0;
    }

    /** Start over with one chunk of another length; nothing changes when that fails. */
    method Realloc(chunkLength: nat) returns (rv: Rv)
      requires Valid() && Wf(Value())
      modifies this, mem`calls
      ensures Valid() && mem == old(mem)
      ensures rv == Ok ==> fresh(chain[0]) && fresh(chain[0].data)
      ensures rv != Ok ==> unchanged(this)
      ensures (rv, Value()) == ChunkSpec.Realloc(old(Value()), chunkLength)
      ensures rv == InvalidArgument <==> chunkLength < old(offset)
      ensures rv == Ok ==> this.chunkLength == chunkLength && offset == old(offset) && maxChunk == old(maxChunk)
      ensures rv == Ok ==> |chain| == 1 && at == 0 && CurAvail() == chunkLength - offset
    {
      hide Chain.View, Chain.Valid, Linked, Apart;
      if chunkLength < offset {
        return InvalidArgument;
      }
      var c;
      rv, c := NewOffsetChain(chunkLength, offset, mem);
      if rv == Ok {
        StartWith(c, chunkLength);
      }
    }

    /** bufs_alloc_chain: the next chunk, allocated if there is none. */
    method AllocChain() returns (rv: Rv)
      requires Valid() && Wf(Value())
      modifies this, chain, mem`calls
      ensures Valid() && Grown()
      ensures (rv, Value()) == ChunkSpec.Advance(old(Value()))
    {
      hide Chain.View, Chain.Valid, Apart;
      assert chain[at].next == cur.next;
      if cur.next != null {
        cur := cur.next;
        at := at + 1;
        return Ok;
      }
      assert at + 1 == |chain|;
      if maxChunk == chunkUsed {
        return BufferError;
      }
      var c;
      rv, c := NewOffsetChain(chunkLength, offset, mem);
      if rv == Ok {
        Link(c);
      }
    }

    // The new chunk goes behind the cursor's, which is the last one, and becomes the cursor's.
    method Link(c: Chain)
      requires Valid() && at + 1 == |chain|
      requires c !in chain && c.data !in MemoryOf(chain) && c.next == null
      requires c.Valid() && c.View() == Chunk(offset, [], chunkLength)
      modifies this, cur`next
      ensures Valid() && chain == old(chain) + [c] && mem == old(mem)
      ensures Value() ==
        old(Value()).(chunks := old(chunks) + [Chunk(offset, [], chunkLength)], cur := old(at) + 1)
    {
      hide Chain.View, Chain.Valid, Apart;
      ApartSnoc(chain, c);
      chunkUsed := chunkUsed + 1;
      cur.next := c;
      cur := c;
      chain, chunks, at := chain + [c], chunks + [Chunk(offset, [], chunkLength)], at + 1;
    }

    // Room left in the cursor's chunk, as nghttp2_bufs_cur_avail computes it.
    function CurAvail(): (n: nat)
      requires Valid()
      reads this, chain, MemoryOf(chain)
      ensures n == Avail(chunks[at])
    {
      assert chain[at].Valid() && chunks[at] == chain[at].View();
      cur.data.Length - cur.last
    }

    // Bytes that fit are copied behind those of the cursor's chunk.
    method Write(bs: seq<byte>)
      requires Valid() && |bs| <= Avail(chunks[at])
      modifies this`chunks, cur`last, cur.data
      ensures Valid() && Value() == Put(old(Value()), bs)
    {
      hide Linked;
      ghost var c := chunks[at];
      cur.Append(bs);
      chunks := chunks[at := c.(bytes := c.bytes + bs)];
      assert forall i :: 0 <= i < |chain| && i != at ==> chain[i].View() == old(chain[i].View());
    }

    // One turn of the loop: a block that fits, or the next chunk when nothing does.
    method AddBlock(data: seq<byte>, p: nat) returns (rv: Rv, p': nat)
      requires Valid() && Wf(Value()) && p < |data|
      modifies this, chain, MemoryOf(chain), mem`calls
      ensures Valid() && Wf(Value()) && Grown() && p <= p' <= |data|
      ensures AddBytes(old(Value()), data[p..]) == if rv == Ok then AddBytes(Value(), data[p'..]) else (rv, Value())
      ensures rv == Ok && p' == p ==> old(at) < at <= maxChunk == old(maxChunk)
    {
      hide Linked, Apart, Hold, Put, ChunkSpec.Advance, AddBytes, Flat;
      var avail := CurAvail();
      AdvanceWf(Value());
      var nwrite := if avail < |data| - p then avail else |data| - p;
      if nwrite == 0 {
        FullIsAdvance(Value(), data[p..]);
        rv := AllocChain();
        p' := p;
        return;
      }
      BlockIsBytes(Value(), data[p..], nwrite);
      assert data[p..][..nwrite] == data[p..p + nwrite] && data[p..][nwrite..] == data[p + nwrite..];
      Write(data[p..p + nwrite]);
      return Ok, p + nwrite;
    }

    /** nghttp2_bufs_add: block by block it leaves exactly what adding byte after byte leaves. */
    method Add(data: seq<byte>) returns (rv: Rv)
      requires Valid() && Wf(Value())
      modifies this, chain, MemoryOf(chain), mem`calls
      ensures Valid() && Grown()
      ensures (rv, Value()) == AddBytes(old(Value()), data)
    {
      hide Linked, Apart, Hold, AddBytes, Wf;
      var p := 0;
      assert data[0..] == data;
      while p < |data|
        invariant p <= |data| && Valid() && Wf(Value()) && Grown()
        invariant AddBytes(old(Value()), data) == AddBytes(Value(), data[p..])
        decreases |data| - p, maxChunk - at
      {
        rv, p := AddBlock(data, p);
        if rv != Ok {
          return;
        }
      }
      assert data[p..] == [];
      AddNothing(Value());
      return Ok;
    }

    method Advance() returns (rv: Rv)
      requires Valid() && Wf(Value())
      modifies this, chain, mem`calls
      ensures Valid() && Grown()
      ensures (rv, Value()) == ChunkSpec.Advance(old(Value()))
    {
      rv := AllocChain();
    }

    // bufs_ensure_addb: one check, one move at most.
    method EnsureAddb() returns (rv: Rv)
      requires Valid() && Wf(Value())
      modifies this, chain, mem`calls
      ensures Valid() && Grown()
      ensures (rv, Value()) == Ensure(old(Value()))
    {
      hide Linked, Apart, Hold, Wf, ChunkSpec.Advance;
      if CurAvail() > 0 {
        return Ok;
      }
      rv := AllocChain();
    }

    /** nghttp2_bufs_addb. Where C stores past the memory of a chunk, nothing is stored and the answer says so. */
    method Addb(b: byte) returns (rv: Rv)
      requires Valid() && Wf(Value())
      modifies this, chain, MemoryOf(chain), mem`calls
      ensures Valid() && Grown()
      ensures (rv, Value()) == ChunkSpec.Addb(old(Value()), b)
    {
      hide Linked, Apart, Hold, Wf, ChunkSpec.Advance, Put, Ensure;
      rv := EnsureAddb();
      if rv == Ok {
        if CurAvail() == 0 {
          return Overrun;
        }
        Write([b]);
      }
    }

    // The byte at the cursor, behind the content.
    ghost function Held(): byte
      requires Valid() && CurAvail() > 0
      reads this, chain, MemoryOf(chain)
    {
      cur.data[cur.last]
    }

    // A store behind the content changes nothing but the held byte.
    method Hold1(b: byte)
      requires Valid() && CurAvail() > 0
      modifies cur.data
      ensures Valid() && CurAvail() > 0 && Held() == b
    {
      hide Linked;
      cur.data[cur.last] := b;
      assert cur.View() == old(cur.View());
      assert forall i :: 0 <= i < |chain| && i != at ==> chain[i].View() == old(chain[i].View());
    }

    method AddbHold(b: byte) returns (rv: Rv)
      requires Valid() && Wf(Value())
      modifies this, chain, MemoryOf(chain), mem`calls
      ensures Valid() && Grown()
      ensures (rv, Value()) == FindRoom(old(Value()))
      ensures rv == Ok ==> CurAvail() > 0 && Held() == b
    {
      hide Linked, Apart, Hold, Wf, ChunkSpec.Advance, Ensure;
      rv := EnsureAddb();
      if rv == Ok {
        if CurAvail() == 0 {
          return Overrun;
        }
        Hold1(b);
      }
    }

    // The macros: the caller knows there is room.

    method FastOrbHold(b: byte)
      requires Valid() && CurAvail() > 0
      modifies cur.data
      ensures Valid() && CurAvail() > 0 && Held() == Or(old(Held()), b)
    {
      Hold1(Or(cur.data[cur.last], b));
    }

    method FastOrb(b: byte)
      requires Valid() && CurAvail() > 0
      modifies this`chunks, cur`last, cur.data
      ensures Valid() && Value() == Put(old(Value()), [Or(old(Held()), b)])
    {
      Write([Or(cur.data[cur.last], b)]);
    }

    method Len() returns (len: nat)
      requires Valid()
      ensures len == |Contents(Value())|
    {
      hide Apart;
      len := 0;
      var ci := head;
      ghost var i := 0;
      while ci != null
        invariant i <= |chain| && ci == if i < |chain| then chain[i] else null
        invariant len == |Flat(chunks[..i])|
        decreases |chain| - i
      {
        FlatSnoc(chunks, i);
        len := len + (ci.last - ci.pos);
        assert chain[i].next == ci.next;
        ci := ci.next;
        i := i + 1;
      }
      assert chunks[..i] == chunks;
    }

    /** Copy everything stored, in order, to the front of out. */
    method RemoveCopy(out: array<byte>) returns (len: nat)
      requires Valid() && |Contents(Value())| <= out.Length && out !in MemoryOf(chain)
      modifies out
      ensures Valid() && len == |Contents(Value())|
      ensures out[..len] == Contents(Value()) && out[len..] == old(out[len..])
    {
      hide Apart, Hold, Flat;
      FlatEmpty(chunks[..0]);
      len := Len();
      var ci := head;
      var n := 0;
      ghost var i := 0;
      while ci != null
        invariant Valid() && i <= |chain| && ci == if i < |chain| then chain[i] else null
        invariant n == |Flat(chunks[..i])| <= len == |Flat(chunks)| && out[..n] == Flat(chunks[..i])
        invariant forall j :: n <= j < out.Length ==> out[j] == old(out[j])
        decreases |chain| - i
      {
        FlatSnoc(chunks, i);
        FlatPrefix(chunks, i + 1);
        HoldAt(i);
        var bytes := ci.Bytes();
        assert chain[i].next == ci.next;
        CopyTo(out, n, bytes);
        n := n + |bytes|;
        ci := ci.next;
        i := i + 1;
      }
      assert chunks[..i] == chunks;
    }

    lemma HoldAt(i: nat)
      requires Valid() && i < |chain|
      ensures chain[i].Valid() && chunks[i] == chain[i].View()
    {
    }

    // The first loop of nghttp2_bufs_reset: up to chunkKeep chunks are emptied; the last of them, if
    // there are that many.
    method ClearFront() returns (ci: Chain?)
      requires Valid() && Wf(Value())
      modifies chain`pos, chain`last
      ensures ci == if chunkKeep <= |chain| then chain[chunkKeep - 1] else null
      ensures forall j :: 0 <= j < |chain| && j < chunkKeep ==>
        chain[j].Valid() && chain[j].View() == Chunk(offset, [], chunkLength)
    {
      hide Flat, Chain.View, Chain.Valid, Hold, Wf;
      SameLength();
      var k := chunkKeep;
      ci := head;
      ghost var i := 0;
      while ci != null
        invariant i <= |chain| && ci == (if i < |chain| then chain[i] else null) && k == chunkKeep - i > 0
        invariant forall j :: 0 <= j < i ==> chain[j].Valid() && chain[j].View() == Chunk(offset, [], chunkLength)
        decreases |chain| - i
      {
        ci.Reset();
        ci.ShiftRight(offset);
        ci.EmptyView();
        k := k - 1;
        if k == 0 {
          return;
        }
        assert chain[i].next == ci.next;
        ci := ci.next;
        i := i + 1;
      }
    }

    lemma SameLength()
      requires Valid() && Wf(Value())
      ensures chunkKeep > 0 && offset <= chunkLength
      ensures forall i :: 0 <= i < |chain| ==> chain[i].data.Length == chunkLength
    {
    }

    /** Empty the first chunkKeep chunks and cut the chain behind them. */
    method Reset()
      requires Valid() && Wf(Value())
      modifies this, chain
      ensures Valid() && mem == old(mem) && chain <= old(chain)
      ensures Value() == ChunkSpec.Reset(old(Value()))
      ensures at == 0 && |chain| == if |old(chain)| < chunkKeep then |old(chain)| else chunkKeep
      ensures chunkLength == old(chunkLength) && chunkKeep == old(chunkKeep) && mem.calls == old(mem.calls)
    {
      hide Chain.View, Chain.Valid, Flat, Apart, Hold, Wf, Contents;
      ghost var empty := Chunk(offset, [], chunkLength);
      SameLength();
      var ci := ClearFront();
      if ci != null {
        CutBehind(ci);
      }
      Restart(empty);
    }

    // Drop the chunks behind the chunkKeep-th one.
    method CutBehind(ci: Chain)
      requires 0 < chunkKeep <= |chain| && ci == chain[chunkKeep - 1] && Linked(chain) && Apart(chain)
      modifies this`chunkUsed, this`chain, ci`next
      ensures chain == old(chain)[..chunkKeep] && chunkUsed == chunkKeep && Linked(chain) && Apart(chain)
    {
      ci.next := null;
      chunkUsed := chunkKeep;
      chain := chain[..chunkKeep];
    }

    // The cursor back to the head of a chain of empty chunks.
    method Restart(ghost empty: Chunk)
      requires 0 < |chain| == chunkUsed && head == chain[0] && Linked(chain) && Apart(chain)
      requires forall j :: 0 <= j < |chain| ==> chain[j].Valid() && chain[j].View() == empty
      modifies this`cur, this`chunks, this`at
      ensures Valid() && at == 0 && chunks == seq(|chain|, j => empty)
    {
      hide Chain.View, Chain.Valid, Apart;
      cur := head;
      chunks, at := seq(|chain|, j => empty), 0;
    }
  }
}
