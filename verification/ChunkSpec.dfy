/** The chunked buffer of nghttp2_buf.c as a value: what each operation leaves, byte by byte. */
module ChunkSpec {
  import opened BitStrings

  // What an operation answers. Overrun stands for a store past the memory of a chunk, which C does not notice:
  // it answers 0, and what follows is undefined.
  datatype Rv = Ok | NoMem | BufferError | InvalidArgument | Overrun

  // A chunk: where its content starts, the content from pos to last, and its size.
  datatype Chunk = Chunk(pos: nat, bytes: seq<byte>, cap: nat)

  // The allocator answers the n-th request with grants(n); `calls` requests were made so far.
  datatype State = State(
    chunks: seq<Chunk>, cur: nat,
    chunkLength: nat, maxChunk: nat, chunkKeep: nat, offset: nat,
    grants: nat -> bool, calls: nat)

  function Avail(c: Chunk): int {
    c.cap - c.pos - |c.bytes|
  }

  /** Chunks are within their memory and no more than allowed; those after the cursor are empty. */
  predicate Wf(st: State) {
    && st.cur < |st.chunks| <= st.maxChunk
    && 0 < st.chunkKeep <= st.maxChunk
    && st.offset <= st.chunkLength
    && (forall i :: 0 <= i < |st.chunks| ==> st.chunks[i].cap == st.chunkLength && Avail(st.chunks[i]) >= 0)
    && (forall i :: st.cur < i < |st.chunks| ==> st.chunks[i] == Chunk(st.offset, [], st.chunkLength))
  }

  function Flat(chunks: seq<Chunk>): seq<byte> {
    if chunks == [] then [] else chunks[0].bytes + Flat(chunks[1..])
  }

  // Everything stored, in order.
  function Contents(st: State): seq<byte> {
    Flat(st.chunks)
  }

  // --- one new chunk ---

  // A chunk header and, unless it is empty, its memory are requested from the allocator.
  function NewChunk(st: State, chunkLength: nat): (bool, State) {
    if !st.grants(st.calls) then (false, st.(calls := st.calls + 1))
    else if chunkLength == 0 then (true, st.(calls := st.calls + 1))
    else (st.grants(st.calls + 1), st.(calls := st.calls + 2))
  }

  function Init(chunkLength: nat, maxChunk: nat, chunkKeep: nat, offset: nat, grants: nat -> bool, calls: nat)
      : (Rv, State)
  {
    var st := State([Chunk(offset, [], chunkLength)], 0, chunkLength, maxChunk, chunkKeep, offset, grants, calls);
    if chunkKeep == 0 || maxChunk < chunkKeep || chunkLength < offset then (InvalidArgument, st)
    else
      var (ok, st') := NewChunk(st, chunkLength);
      (if ok then Ok else NoMem, st')
  }

  /** Initialisation succeeds exactly when the arguments are good, the chunk is granted and its memory is granted
      or not needed; it then gives an empty buffer. */
  lemma InitWf(chunkLength: nat, maxChunk: nat, chunkKeep: nat, offset: nat, grants: nat -> bool, calls: nat)
    ensures var (rv, st) := Init(chunkLength, maxChunk, chunkKeep, offset, grants, calls);
            var bad := chunkKeep == 0 || maxChunk < chunkKeep || chunkLength < offset;
            (rv == InvalidArgument <==> bad) &&
            (rv == Ok <==> !bad && grants(calls) && (chunkLength == 0 || grants(calls + 1))) &&
            (rv == NoMem <==> !bad && rv != Ok) &&
            (rv == Ok ==> Wf(st) && Contents(st) == [])
  {
    FlatEmpty([Chunk(offset, [], chunkLength)]);
  }

  function Advance(st: State): (Rv, State) {
    if st.cur + 1 < |st.chunks| then (Ok, st.(cur := st.cur + 1))
    else if st.maxChunk == |st.chunks| then (BufferError, st)
    else
      var (ok, st') := NewChunk(st, st.chunkLength);
      if ok then (Ok, st'.(chunks := st.chunks + [Chunk(st.offset, [], st.chunkLength)], cur := st.cur + 1))
      else (NoMem, st')
  }

  // --- one byte at a time ---

  // Move on until the cursor's chunk has room.
  function MakeRoom(st: State): (Rv, State)
    requires Wf(st)
    ensures Wf(MakeRoom(st).1)
    decreases st.maxChunk - st.cur
  {
    if Avail(st.chunks[st.cur]) > 0 then (Ok, st)
    else
      AdvanceWf(st);
      var (rv, st') := Advance(st);
      if rv != Ok then (rv, st') else MakeRoom(st')
  }

  function Put(st: State, bs: seq<byte>): State
    requires st.cur < |st.chunks|
  {
    var c := st.chunks[st.cur];
    st.(chunks := st.chunks[st.cur := c.(bytes := c.bytes + bs)])
  }

  function AddByte(st: State, b: byte): (Rv, State)
    requires Wf(st)
    ensures Wf(AddByte(st, b).1)
  {
    var (rv, st') := MakeRoom(st);
    if rv != Ok then (rv, st') else RoomMade(st); PutWf(st', [b]); (Ok, Put(st', [b]))
  }

  // Byte after byte, until one does not fit.
  function AddBytes(st: State, bs: seq<byte>): (Rv, State)
    requires Wf(st)
    ensures Wf(AddBytes(st, bs).1)
    decreases |bs|
  {
    if bs == [] then (Ok, st)
    else
      var (rv, st') := AddByte(st, bs[0]);
      if rv != Ok then (rv, st') else AddBytes(st', bs[1..])
  }

  lemma AdvanceWf(st: State)
    requires Wf(st)
    ensures Wf(Advance(st).1)
    ensures Advance(st).0 == Ok ==> Advance(st).1.cur == st.cur + 1 && Advance(st).1.maxChunk == st.maxChunk
    ensures Contents(Advance(st).1) == Contents(st)
  {
    if st.cur + 1 == |st.chunks| {
      FlatConcat(st.chunks, [Chunk(st.offset, [], st.chunkLength)]);
    }
  }

  lemma PutWf(st: State, bs: seq<byte>)
    requires Wf(st) && |bs| <= Avail(st.chunks[st.cur])
    ensures Wf(Put(st, bs))
  {
  }

  lemma {:induction false} RoomMade(st: State)
    requires Wf(st)
    ensures MakeRoom(st).0 == Ok ==> Avail(MakeRoom(st).1.chunks[MakeRoom(st).1.cur]) > 0
    ensures Contents(MakeRoom(st).1) == Contents(st)
    decreases st.maxChunk - st.cur
  {
    if Avail(st.chunks[st.cur]) <= 0 {
      AdvanceWf(st);
      if Advance(st).0 == Ok {
        RoomMade(Advance(st).1);
      }
    }
  }

  lemma {:induction false} FlatConcat(a: seq<Chunk>, b: seq<Chunk>)
    ensures Flat(a + b) == Flat(a) + Flat(b)
  {
    if a == [] {
      assert a + b == b;
    } else {
      assert (a + b)[1..] == a[1..] + b;
      FlatConcat(a[1..], b);
    }
  }

  lemma FlatSnoc(a: seq<Chunk>, i: nat)
    requires i < |a|
    ensures Flat(a[..i + 1]) == Flat(a[..i]) + a[i].bytes
  {
    assert a[..i + 1] == a[..i] + [a[i]];
    FlatConcat(a[..i], [a[i]]);
    assert Flat([a[i]]) == a[i].bytes + Flat([]);
  }

  lemma FlatPrefix(a: seq<Chunk>, i: nat)
    requires i <= |a|
    ensures Flat(a[..i]) <= Flat(a)
  {
    assert a == a[..i] + a[i..];
    FlatConcat(a[..i], a[i..]);
  }

  lemma {:induction false} FlatEmpty(a: seq<Chunk>)
    requires forall i :: 0 <= i < |a| ==> a[i].bytes == []
    ensures Flat(a) == []
  {
    if a != [] {
      FlatEmpty(a[1..]);
    }
  }

  // What is put lands at the end, since nothing follows the cursor.
  lemma PutContents(st: State, bs: seq<byte>)
    requires Wf(st)
    ensures Contents(Put(st, bs)) == Contents(st) + bs
  {
    var c, c', after := st.chunks[st.cur], st.chunks[st.cur], st.chunks[st.cur + 1..];
    c' := c.(bytes := c.bytes + bs);
    FlatEmpty(after);
    FlatAround(st.chunks, st.cur, c, after);
    FlatAround(Put(st, bs).chunks, st.cur, c', after);
  }

  // The content of a chain around one chunk.
  lemma FlatAround(a: seq<Chunk>, i: nat, c: Chunk, after: seq<Chunk>)
    requires i < |a| && a[i] == c && a[i + 1..] == after
    ensures Flat(a) == Flat(a[..i]) + c.bytes + Flat(after)
  {
    assert a == a[..i] + ([c] + after);
    FlatConcat(a[..i], [c] + after);
    FlatConcat([c], after);
    assert Flat([c]) == c.bytes + Flat([]);
  }

  /** Adding appends: all of the bytes on success, the ones that found room otherwise. */
  lemma {:induction false} AddAppends(st: State, bs: seq<byte>)
    requires Wf(st)
    ensures AddBytes(st, bs).0 == Ok ==> Contents(AddBytes(st, bs).1) == Contents(st) + bs
    ensures exists n :: 0 <= n <= |bs| && Contents(AddBytes(st, bs).1) == Contents(st) + bs[..n]
    decreases |bs|
  {
    hide MakeRoom, Put, Wf, Flat;
    if bs == [] {
      assert Contents(st) == Contents(st) + bs[..0];
    } else {
      RoomMade(st);
      var (rv, st') := AddByte(st, bs[0]);
      if rv != Ok {
        assert Contents(st') == Contents(st) + bs[..0];
      } else {
        PutContents(MakeRoom(st).1, [bs[0]]);
        AddAppends(st', bs[1..]);
        var n :| 0 <= n <= |bs[1..]| && Contents(AddBytes(st', bs[1..]).1) == Contents(st') + bs[1..][..n];
        assert Contents(st) + [bs[0]] + bs[1..][..n] == Contents(st) + bs[..n + 1];
        assert Contents(st) + [bs[0]] + bs[1..] == Contents(st) + bs;
      }
    }
  }

  // --- capacity ---

  // The bytes that still fit without touching chunks before the cursor.
  function Room(st: State): int
    requires Wf(st)
  {
    Avail(st.chunks[st.cur]) + (st.maxChunk - 1 - st.cur) * (st.chunkLength - st.offset)
  }

  ghost predicate Granted(st: State) {
    forall n :: n >= st.calls ==> st.grants(n)
  }

  lemma AdvanceRoom(st: State)
    requires Wf(st) && Granted(st) && Avail(st.chunks[st.cur]) == 0
    ensures Wf(Advance(st).1) && Granted(Advance(st).1)
    ensures Advance(st).0 == if st.cur + 1 < st.maxChunk then Ok else BufferError
    ensures Advance(st).0 == Ok ==> Room(Advance(st).1) == Room(st)
  {
    AdvanceWf(st);
    var st' := Advance(st).1;
    if Advance(st).0 == Ok {
      var w := st.chunkLength - st.offset;
      assert (st.maxChunk - 1 - st.cur) * w == w + (st.maxChunk - 1 - st'.cur) * w;
    }
  }

  lemma RoomBound(st: State)
    requires Wf(st)
    ensures Room(st) >= Avail(st.chunks[st.cur]) >= 0
    ensures st.cur + 1 == st.maxChunk ==> Room(st) == Avail(st.chunks[st.cur])
  {
    ProductNonNegative(st.maxChunk - 1 - st.cur, st.chunkLength - st.offset);
  }

  lemma ProductNonNegative(a: nat, b: nat)
    ensures a * b >= 0 && (a == 0 ==> a * b == 0)
  {
  }

  lemma PutRoom(st: State, bs: seq<byte>)
    requires Wf(st) && Granted(st) && |bs| <= Avail(st.chunks[st.cur])
    ensures Wf(Put(st, bs)) && Granted(Put(st, bs)) && Room(Put(st, bs)) == Room(st) - |bs|
  {
  }

  lemma {:induction false} MakeRoomSucceeds(st: State)
    requires Wf(st) && Granted(st)
    ensures MakeRoom(st).0 == if Room(st) > 0 then Ok else BufferError
    ensures MakeRoom(st).0 == Ok ==> Granted(MakeRoom(st).1) && Room(MakeRoom(st).1) == Room(st)
    decreases st.maxChunk - st.cur
  {
    hide Room, Advance, NewChunk;
    RoomBound(st);
    if Avail(st.chunks[st.cur]) <= 0 {
      AdvanceRoom(st);
      AdvanceWf(st);
      if Advance(st).0 == Ok {
        MakeRoomSucceeds(Advance(st).1);
      }
    }
  }

  /** Without allocation failures, adding succeeds exactly when the bytes fit into the room left. */
  lemma {:induction false} AddSucceedsIffFits(st: State, bs: seq<byte>)
    requires Wf(st) && Granted(st)
    ensures AddBytes(st, bs).0 == if |bs| <= Room(st) then Ok else BufferError
    ensures AddBytes(st, bs).0 == Ok ==> Room(AddBytes(st, bs).1) == Room(st) - |bs|
    decreases |bs|
  {
    hide Room, Wf, MakeRoom, Granted, Put;
    RoomBound(st);
    if bs != [] {
      MakeRoomSucceeds(st);
      RoomMade(st);
      if Room(st) > 0 {
        PutRoom(MakeRoom(st).1, [bs[0]]);
        AddSucceedsIffFits(AddByte(st, bs[0]).1, bs[1..]);
      }
    }
  }

  // --- the single check of nghttp2_bufs_addb ---

  // bufs_ensure_addb: one check, one move at most.
  function Ensure(st: State): (Rv, State)
    requires Wf(st)
    ensures Wf(Ensure(st).1)
  {
    if Avail(st.chunks[st.cur]) > 0 then (Ok, st) else AdvanceWf(st); Advance(st)
  }

  // Where a byte is stored after a successful check.
  function FindRoom(st: State): (Rv, State)
    requires Wf(st)
    ensures Wf(FindRoom(st).1)
    ensures FindRoom(st).0 == Ok ==> Avail(FindRoom(st).1.chunks[FindRoom(st).1.cur]) > 0
  {
    var (rv, st') := Ensure(st);
    if rv == Ok && Avail(st'.chunks[st'.cur]) == 0 then (Overrun, st') else (rv, st')
  }

  function Addb(st: State, b: byte): (Rv, State)
    requires Wf(st)
    ensures Wf(Addb(st, b).1)
  {
    var (rv, st') := FindRoom(st);
    if rv != Ok then (rv, st') else PutWf(st', [b]); (Ok, Put(st', [b]))
  }

  // There is a next chunk, or one may be allocated and its header and memory are granted.
  predicate CanMove(st: State) {
    st.cur + 1 < |st.chunks| ||
    (|st.chunks| != st.maxChunk && st.grants(st.calls) && (st.chunkLength == 0 || st.grants(st.calls + 1)))
  }

  lemma MovesIffCan(st: State)
    ensures Advance(st).0 == Ok <==> CanMove(st)
  {
  }

  // The cursor's chunk is full, and there is a next one, which will not have room either.
  predicate AtBrink(st: State)
    requires Wf(st)
  {
    st.offset == st.chunkLength && Avail(st.chunks[st.cur]) == 0 && CanMove(st)
  }

  lemma BrinkIsFull(st: State)
    requires Wf(st) && AtBrink(st)
    ensures Room(st) == 0
  {
    TimesZero(st.maxChunk - 1 - st.cur);
  }

  // The chunk moved to is empty, or it is the one of a refused move.
  lemma MovedTo(st: State)
    requires Wf(st) && Avail(st.chunks[st.cur]) == 0
    ensures Wf(Advance(st).1)
    ensures var (rv, st') := Advance(st); rv == Ok ==> Avail(st'.chunks[st'.cur]) == st.chunkLength - st.offset
    ensures Advance(st).0 !in {InvalidArgument, Overrun}
  {
    AdvanceWf(st);
  }

  /** A single check finds the room there is, or there is none: it overruns exactly when the cursor's chunk is
      full, chunks are no longer than their header offset and moving on succeeds, and then no room is left. */
  lemma OneCheck(st: State)
    requires Wf(st)
    ensures FindRoom(st).0 == Overrun <==> AtBrink(st)
    ensures FindRoom(st).0 == Overrun ==> Ensure(st).0 == Ok && Room(st) == 0
    ensures FindRoom(st).0 != Overrun ==> FindRoom(st) == MakeRoom(st)
    ensures Contents(FindRoom(st).1) == Contents(st)
  {
    hide Room, Advance, Flat;
    AdvanceWf(st);
    MovesIffCan(st);
    if Avail(st.chunks[st.cur]) == 0 {
      MovedTo(st);
      if AtBrink(st) {
        BrinkIsFull(st);
      }
    }
  }

  lemma TimesZero(a: int)
    ensures a * 0 == 0
  {
  }

  /** With chunks longer than their header offset, adding a block is calling addb byte after byte until one fails:
      the same chain, cursor, contents and error, under the same answers of the allocator. */
  lemma {:induction false} AddIsRepeatedAddb(st: State, bs: seq<byte>)
    requires Wf(st) && st.offset < st.chunkLength
    ensures AddBytes(st, bs) == RepeatedAddb(st, bs)
    decreases |bs|
  {
    if bs != [] {
      OneCheck(st);
      KeepsSizes(st);
      if Addb(st, bs[0]).0 == Ok {
        AddIsRepeatedAddb(Addb(st, bs[0]).1, bs[1..]);
      }
    }
  }

  function RepeatedAddb(st: State, bs: seq<byte>): (Rv, State)
    requires Wf(st)
    decreases |bs|
  {
    if bs == [] then (Ok, st)
    else
      var (rv, st') := Addb(st, bs[0]);
      if rv != Ok then (rv, st') else RepeatedAddb(st', bs[1..])
  }

  lemma {:induction false} KeepsSizes(st: State)
    requires Wf(st)
    ensures MakeRoom(st).1.chunkLength == st.chunkLength && MakeRoom(st).1.offset == st.offset
    decreases st.maxChunk - st.cur
  {
    if Avail(st.chunks[st.cur]) <= 0 {
      AdvanceWf(st);
      if Advance(st).0 == Ok {
        KeepsSizes(Advance(st).1);
      }
    }
  }

  // --- the other operations ---

  // The first chunkKeep chunks are emptied, the rest is dropped.
  function Reset(st: State): State
    requires Wf(st)
    ensures Wf(Reset(st)) && Contents(Reset(st)) == []
  {
    var n := if |st.chunks| < st.chunkKeep then |st.chunks| else st.chunkKeep;
    var chunks := seq(n, i => Chunk(st.offset, [], st.chunkLength));
    FlatEmpty(chunks);
    st.(chunks := chunks, cur := 0)
  }

  function Realloc(st: State, chunkLength: nat): (Rv, State)
    requires Wf(st)
    ensures Wf(Realloc(st, chunkLength).1)
  {
    if chunkLength < st.offset then (InvalidArgument, st)
    else
      var (ok, st') := NewChunk(st, chunkLength);
      if !ok then (NoMem, st')
      else (Ok, st'.(chunks := [Chunk(st.offset, [], chunkLength)], cur := 0, chunkLength := chunkLength))
  }

  datatype Op = OpAdd(bs: seq<byte>) | OpAddb(b: byte) | OpAdvance | OpReset | OpRealloc(chunkLength: nat)

  function Step(st: State, op: Op): (Rv, State)
    requires Wf(st)
    ensures Wf(Step(st, op).1)
  {
    match op
    case OpAdd(bs) => AddBytes(st, bs)
    case OpAddb(b) => Addb(st, b)
    case OpAdvance => AdvanceWf(st); Advance(st)
    case OpReset => (Ok, Reset(st))
    case OpRealloc(n) => Realloc(st, n)
  }

  function RunOps(st: State, ops: seq<Op>): State
    requires Wf(st)
    ensures Wf(RunOps(st, ops))
    decreases |ops|
  {
    if ops == [] then st else RunOps(Step(st, ops[0]).1, ops[1..])
  }

  // What a flat byte string would hold after the same operations.
  ghost predicate FlatStep(before: seq<byte>, op: Op, rv: Rv, after: seq<byte>) {
    match op
    case OpAdd(bs) => (rv == Ok ==> after == before + bs) && exists n :: 0 <= n <= |bs| && after == before + bs[..n]
    case OpAddb(b) => after == if rv == Ok then before + [b] else before
    case OpAdvance => after == before
    case OpReset => after == []
    case OpRealloc(_) => after == if rv == Ok then [] else before
  }

  /** In every run, whatever the allocator grants, the chain keeps its shape up to the first overrun, every
      operation acts on the stored bytes as on one flat string, and only addb overruns, exactly at the brink. */
  lemma EveryRunIsFlat(st: State, ops: seq<Op>, i: nat)
    requires Wf(st) && i < |ops|
    ensures Wf(RunOps(st, ops[..i]))
    ensures RunOps(st, ops[..i + 1]) == Step(RunOps(st, ops[..i]), ops[i]).1
    ensures var s := RunOps(st, ops[..i]);
            Step(s, ops[i]).0 != Overrun ==>
              FlatStep(Contents(s), ops[i], Step(s, ops[i]).0, Contents(Step(s, ops[i]).1))
    ensures var s := RunOps(st, ops[..i]);
            Step(s, ops[i]).0 == Overrun <==> ops[i].OpAddb? && AtBrink(s)
  {
    var s, op := RunOps(st, ops[..i]), ops[i];
    assert ops[..i + 1] == ops[..i] + [op];
    RunSnoc(st, ops[..i], op);
    StepIsFlat(s, op);
  }

  lemma StepIsFlat(s: State, op: Op)
    requires Wf(s)
    ensures Step(s, op).0 != Overrun ==> FlatStep(Contents(s), op, Step(s, op).0, Contents(Step(s, op).1))
    ensures Step(s, op).0 == Overrun <==> op.OpAddb? && AtBrink(s)
  {
    match op
    case OpAdd(bs) =>
      AddAppends(s, bs);
      AddNeverOverruns(s, bs);
    case OpAddb(b) =>
      OneCheck(s);
      if FindRoom(s).0 == Ok {
        PutContents(FindRoom(s).1, [b]);
      }
    case OpAdvance => AdvanceWf(s);
    case OpReset =>
    case OpRealloc(n) => FlatEmpty([Chunk(s.offset, [], n)]);
  }

  lemma {:induction false} AddNeverOverruns(st: State, bs: seq<byte>)
    requires Wf(st)
    ensures AddBytes(st, bs).0 != Overrun
    decreases |bs|
  {
    if bs != [] {
      RoomOrRefusal(st);
      AddNeverOverruns(AddByte(st, bs[0]).1, bs[1..]);
    }
  }

  lemma {:induction false} RoomOrRefusal(st: State)
    requires Wf(st)
    ensures MakeRoom(st).0 != Overrun
    decreases st.maxChunk - st.cur
  {
    AdvanceWf(st);
    if Avail(st.chunks[st.cur]) <= 0 && Advance(st).0 == Ok {
      RoomOrRefusal(Advance(st).1);
    }
  }

  /** From chunks longer than their header offset, a run in which no reallocation asks for chunks of just that
      length never overruns. */
  lemma {:induction false} LongChunksNeverOverrun(st: State, ops: seq<Op>, i: nat)
    requires Wf(st) && st.offset < st.chunkLength && i < |ops|
    requires forall n :: OpRealloc(n) in ops ==> n != st.offset
    ensures Step(RunOps(st, ops[..i]), ops[i]).0 != Overrun
    decreases i
  {
    if i == 0 {
      StepIsFlat(st, ops[0]);
    } else {
      SizesAfter(st, ops[0]);
      assert ops[..i][1..] == ops[1..][..i - 1] && ops[1..][i - 1] == ops[i];
      LongChunksNeverOverrun(Step(st, ops[0]).1, ops[1..], i - 1);
    }
  }

  lemma SizesAfter(st: State, op: Op)
    requires Wf(st)
    ensures var st' := Step(st, op).1;
            st'.offset == st.offset &&
            (st'.chunkLength == st.chunkLength || (op.OpRealloc? && st'.chunkLength == op.chunkLength >= st.offset))
  {
    match op
    case OpAdd(bs) => AddKeepsSizes(st, bs);
    case _ =>
  }

  lemma {:induction false} AddKeepsSizes(st: State, bs: seq<byte>)
    requires Wf(st)
    ensures AddBytes(st, bs).1.chunkLength == st.chunkLength && AddBytes(st, bs).1.offset == st.offset
    decreases |bs|
  {
    if bs != [] {
      KeepsSizes(st);
      if AddByte(st, bs[0]).0 == Ok {
        AddKeepsSizes(AddByte(st, bs[0]).1, bs[1..]);
      }
    }
  }

  /** Overruns happen: initialisation accepts a chunk length equal to the header offset, the check of addb then
      succeeds in a chunk without room, while adding byte by byte would be refused. */
  lemma OverrunExample(b: byte)
    ensures var (rv, st) := Init(8, 2, 2, 8, n => true, 0);
      && rv == Ok && Wf(st) && Ensure(st).0 == Ok && Avail(Ensure(st).1.chunks[Ensure(st).1.cur]) == 0
      && Addb(st, b).0 == Overrun && AddByte(st, b).0 == BufferError
  {
    var st := Init(8, 2, 2, 8, n => true, 0).1;
    InitWf(8, 2, 2, 8, n => true, 0);
    var st' := Advance(st).1;
    AdvanceWf(st);
    assert Advance(st).0 == Ok && Advance(st').0 == BufferError;
    assert MakeRoom(st) == MakeRoom(st');
  }

  /** So does a reallocation, after which a run that began with longer chunks overruns. */
  lemma OverrunAfterRealloc(b: byte)
    ensures var (rv, st) := Init(9, 2, 2, 8, n => true, 0);
      && rv == Ok && Wf(st) && Step(st, OpRealloc(8)).0 == Ok
      && Step(RunOps(st, [OpRealloc(8)]), OpAddb(b)).0 == Overrun
  {
    var st := Init(9, 2, 2, 8, n => true, 0).1;
    InitWf(9, 2, 2, 8, n => true, 0);
    var st' := Realloc(st, 8).1;
    assert RunOps(st, [OpRealloc(8)]) == RunOps(Step(st, OpRealloc(8)).1, []);
    assert Advance(st').0 == Ok;
    OneCheck(st');
  }

  lemma {:induction false} RunSnoc(st: State, ops: seq<Op>, op: Op)
    requires Wf(st)
    ensures RunOps(st, ops + [op]) == Step(RunOps(st, ops), op).1
    decreases |ops|
  {
    if ops == [] {
      assert ops + [op] == [op];
      assert RunOps(st, [op]) == RunOps(Step(st, op).1, []);
    } else {
      assert (ops + [op])[1..] == ops[1..] + [op];
      RunSnoc(Step(st, ops[0]).1, ops[1..], op);
    }
  }

  // --- the block write of nghttp2_bufs_add and the single check of nghttp2_bufs_addb ---

  // Writing a block that fits the cursor's chunk is writing its bytes.
  lemma {:induction false} BlockIsBytes(st: State, bs: seq<byte>, n: nat)
    requires Wf(st) && n <= |bs| && n <= Avail(st.chunks[st.cur])
    ensures Wf(Put(st, bs[..n])) && AddBytes(st, bs) == AddBytes(Put(st, bs[..n]), bs[n..])
    decreases n
  {
    hide Put, AddByte, Wf;
    PutFits(st, bs[..n]);
    if n == 0 {
      PutNothing(st);
      assert bs[0..] == bs && bs[..0] == [];
    } else {
      FirstByte(st, bs[0]);
      PutFits(st, [bs[0]]);
      var st' := Put(st, [bs[0]]);
      BlockIsBytes(st', bs[1..], n - 1);
      assert bs[..n] == [bs[0]] + bs[1..][..n - 1];
      PutTwice(st, [bs[0]], bs[1..][..n - 1]);
      assert bs[1..][n - 1..] == bs[n..];
    }
  }

  lemma PutFits(st: State, bs: seq<byte>)
    requires Wf(st) && |bs| <= Avail(st.chunks[st.cur])
    ensures st.cur < |st.chunks| && Wf(Put(st, bs))
    ensures var st' := Put(st, bs);
            st'.cur < |st'.chunks| && Avail(st'.chunks[st'.cur]) == Avail(st.chunks[st.cur]) - |bs|
  {
  }

  lemma FirstByte(st: State, b: byte)
    requires Wf(st) && Avail(st.chunks[st.cur]) > 0
    ensures AddByte(st, b) == (Ok, Put(st, [b]))
  {
  }

  lemma PutNothing(st: State)
    requires st.cur < |st.chunks|
    ensures Put(st, []) == st
  {
    assert st.chunks[st.cur].bytes + [] == st.chunks[st.cur].bytes;
  }

  lemma PutTwice(st: State, a: seq<byte>, b: seq<byte>)
    requires st.cur < |st.chunks|
    ensures Put(Put(st, a), b) == Put(st, a + b)
  {
    assert st.chunks[st.cur].bytes + a + b == st.chunks[st.cur].bytes + (a + b);
  }

  lemma AddNothing(st: State)
    requires Wf(st)
    ensures AddBytes(st, []) == (Ok, st)
  {
  }

  // A full chunk makes both forms move on.
  lemma FullIsAdvance(st: State, bs: seq<byte>)
    requires Wf(st) && bs != [] && Avail(st.chunks[st.cur]) == 0
    ensures Wf(Advance(st).1)
    ensures Advance(st).0 != Ok ==> AddBytes(st, bs) == Advance(st)
    ensures Advance(st).0 == Ok ==> AddBytes(st, bs) == AddBytes(Advance(st).1, bs)
  {
    AdvanceWf(st);
  }
}
