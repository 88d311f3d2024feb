/** What fits after each way of starting over, and what fits without asking the allocator. */
module ChunkRoom {
  import opened BitStrings
  import opened ChunkSpec

  // The bytes that still fit into the chunks there are.
  function Spare(st: State): int
    requires Wf(st)
  {
    Avail(st.chunks[st.cur]) + (|st.chunks| - 1 - st.cur) * (st.chunkLength - st.offset)
  }

  lemma SpareBound(st: State)
    requires Wf(st)
    ensures Spare(st) >= Avail(st.chunks[st.cur]) >= 0
    ensures st.cur + 1 == |st.chunks| ==> Spare(st) == Avail(st.chunks[st.cur])
  {
    ProductNonNegative(|st.chunks| - 1 - st.cur, st.chunkLength - st.offset);
  }

  lemma SpareNext(st: State)
    requires Wf(st) && Avail(st.chunks[st.cur]) == 0 && st.cur + 1 < |st.chunks|
    ensures Wf(st.(cur := st.cur + 1)) && Spare(st.(cur := st.cur + 1)) == Spare(st)
    ensures Advance(st) == (Ok, st.(cur := st.cur + 1))
  {
    var w := st.chunkLength - st.offset;
    assert (|st.chunks| - 1 - st.cur) * w == w + (|st.chunks| - 2 - st.cur) * w;
  }

  // The allocator is not asked and the chain does not grow.
  predicate InPlace(st: State, st': State) {
    st'.calls == st.calls && |st'.chunks| == |st.chunks|
  }

  lemma {:induction false} RoomInPlace(st: State)
    requires Wf(st) && Spare(st) > 0
    ensures MakeRoom(st).0 == Ok && InPlace(st, MakeRoom(st).1) && Spare(MakeRoom(st).1) == Spare(st)
    decreases st.maxChunk - st.cur
  {
    hide Spare, Advance;
    SpareBound(st);
    if Avail(st.chunks[st.cur]) <= 0 {
      SpareNext(st);
      RoomInPlace(st.(cur := st.cur + 1));
    }
  }

  lemma PutSpare(st: State, b: byte)
    requires Wf(st) && Avail(st.chunks[st.cur]) > 0
    ensures Wf(Put(st, [b])) && Spare(Put(st, [b])) == Spare(st) - 1 && InPlace(st, Put(st, [b]))
  {
  }

  /** Bytes that fit into the chunks there are are added without asking the allocator. */
  lemma {:induction false} AddInPlace(st: State, bs: seq<byte>)
    requires Wf(st) && |bs| <= Spare(st)
    ensures AddBytes(st, bs).0 == Ok && InPlace(st, AddBytes(st, bs).1)
    ensures Spare(AddBytes(st, bs).1) == Spare(st) - |bs|
    decreases |bs|
  {
    hide Spare, MakeRoom, Put, Wf;
    if bs != [] {
      RoomInPlace(st);
      RoomMade(st);
      PutSpare(MakeRoom(st).1, bs[0]);
      AddInPlace(AddByte(st, bs[0]).1, bs[1..]);
    }
  }

  lemma {:induction false} RoomGrows(st: State)
    requires Wf(st)
    ensures |MakeRoom(st).1.chunks| >= |st.chunks|
    ensures Spare(st) == 0 && MakeRoom(st).0 == Ok ==> |MakeRoom(st).1.chunks| > |st.chunks|
    decreases st.maxChunk - st.cur
  {
    hide Spare;
    SpareBound(st);
    if Avail(st.chunks[st.cur]) <= 0 {
      AdvanceWf(st);
      if st.cur + 1 < |st.chunks| {
        SpareNext(st);
      }
      if Advance(st).0 == Ok {
        RoomGrows(Advance(st).1);
      }
    }
  }

  lemma {:induction false} AddGrows(st: State, bs: seq<byte>)
    requires Wf(st)
    ensures |AddBytes(st, bs).1.chunks| >= |st.chunks|
    ensures AddBytes(st, bs).0 == Ok && |bs| > Spare(st) ==> |AddBytes(st, bs).1.chunks| > |st.chunks|
    decreases |bs|
  {
    hide Spare, MakeRoom, Put, Wf;
    SpareBound(st);
    if bs != [] {
      RoomGrows(st);
      RoomMade(st);
      if MakeRoom(st).0 == Ok {
        PutSpare(MakeRoom(st).1, bs[0]);
        AddGrows(AddByte(st, bs[0]).1, bs[1..]);
        if Spare(st) > 0 {
          RoomInPlace(st);
        }
      }
    }
  }

  // A chain of k empty chunks of n bytes each, the cursor at its head.
  predicate Emptied(st: State, k: nat, n: nat) {
    && |st.chunks| == k && st.cur == 0 && st.chunkLength == n
    && forall i :: 0 <= i < k ==> st.chunks[i] == Chunk(st.offset, [], n)
  }

  // Into k empty chunks of n bytes each fits, without the allocator, exactly what they hold behind their headers; with
  // a willing one exactly what the longest chain of such chunks holds.
  ghost predicate Fits(st: State, k: nat, n: nat)
    requires Wf(st)
  {
    && (forall bs: seq<byte> ::
          AddBytes(st, bs).0 == Ok && InPlace(st, AddBytes(st, bs).1) <==> |bs| <= k * (n - st.offset))
    && (Granted(st) ==> forall bs: seq<byte> ::
          AddBytes(st, bs).0 == Ok <==> |bs| <= st.maxChunk * (n - st.offset))
  }

  lemma EmptiedSizes(st: State, k: nat, n: nat)
    requires Wf(st) && Emptied(st, k, n)
    ensures Spare(st) == k * (n - st.offset) && Room(st) == st.maxChunk * (n - st.offset)
  {
    var w := n - st.offset;
    assert k * w == w + (k - 1) * w && st.maxChunk * w == w + (st.maxChunk - 1) * w;
  }

  lemma EmptiedFits(st: State, k: nat, n: nat)
    requires Wf(st) && Emptied(st, k, n)
    ensures Fits(st, k, n)
  {
    hide Spare, Room, Wf, Emptied, AddBytes, Granted;
    EmptiedSizes(st, k, n);
    forall bs: seq<byte>
      ensures AddBytes(st, bs).0 == Ok && InPlace(st, AddBytes(st, bs).1) <==> |bs| <= k * (n - st.offset)
    {
      AddGrows(st, bs);
      if |bs| <= k * (n - st.offset) {
        AddInPlace(st, bs);
      }
    }
    if Granted(st) {
      forall bs: seq<byte>
        ensures AddBytes(st, bs).0 == Ok <==> |bs| <= st.maxChunk * (n - st.offset)
      {
        AddSucceedsIffFits(st, bs);
      }
    }
  }

  // The chunk header is granted, and its memory is or is not needed.
  predicate Grants(st: State, n: nat) {
    st.grants(st.calls) && (n == 0 || st.grants(st.calls + 1))
  }

  /** A reallocation to n bytes succeeds exactly when n leaves the header space and the chunk is granted; then
      one empty chunk of n bytes is left, larger or smaller than before, and what fits is that of n. */
  lemma ReallocFits(st: State, n: nat)
    requires Wf(st)
    ensures var (rv, st') := Realloc(st, n);
      && (rv == Ok <==> st.offset <= n && Grants(st, n)) && (rv == InvalidArgument <==> n < st.offset)
      && (rv == Ok ==> Emptied(st', 1, n) && Fits(st', 1, n) && st'.maxChunk == st.maxChunk && st'.offset == st.offset)
      && (rv != Ok ==> st' == st.(calls := st'.calls))
    ensures Granted(st) ==> (Realloc(st, n).0 == Ok <==> st.offset <= n)
  {
    hide Fits, Wf;
    var (rv, st') := Realloc(st, n);
    if rv == Ok {
      EmptiedFits(st', 1, n);
    }
  }

  /** A reset keeps as many chunks as there are and as it may, all empty, and asks nothing of the allocator. */
  lemma ResetFits(st: State)
    requires Wf(st)
    ensures var st', k := Reset(st), if |st.chunks| < st.chunkKeep then |st.chunks| else st.chunkKeep;
      && Emptied(st', k, st.chunkLength) && Fits(st', k, st.chunkLength) && st'.calls == st.calls
      && st'.maxChunk == st.maxChunk && st'.offset == st.offset
  {
    hide Fits, Wf;
    EmptiedFits(Reset(st), if |st.chunks| < st.chunkKeep then |st.chunks| else st.chunkKeep, st.chunkLength);
  }

  /** A new buffer has one empty chunk of the length asked for, and room for as many as asked for. */
  lemma InitFits(chunkLength: nat, maxChunk: nat, chunkKeep: nat, offset: nat, grants: nat -> bool, calls: nat)
    requires Init(chunkLength, maxChunk, chunkKeep, offset, grants, calls).0 == Ok
    ensures var st := Init(chunkLength, maxChunk, chunkKeep, offset, grants, calls).1;
      Wf(st) && Emptied(st, 1, chunkLength) && Fits(st, 1, chunkLength) && st.maxChunk == maxChunk &&
      st.chunkKeep == chunkKeep && st.offset == offset
  {
    hide Fits;
    InitWf(chunkLength, maxChunk, chunkKeep, offset, grants, calls);
    EmptiedFits(Init(chunkLength, maxChunk, chunkKeep, offset, grants, calls).1, 1, chunkLength);
  }

  /** As the session does for a payload that does not fit: a chunk of 16394 bytes grows to one of 20010, and
      20000 bytes are added to that one. */
  lemma GrowExample(bs: seq<byte>)
    requires |bs| == 20000
    ensures var (_, st) := Init(16394, 4, 1, 10, n => true, 0);
      && Wf(st) && Realloc(st, 20010).0 == Ok && Realloc(st, 20010).1.chunkLength == 20010
      && AddBytes(Realloc(st, 20010).1, bs).0 == Ok && |AddBytes(Realloc(st, 20010).1, bs).1.chunks| == 1
  {
    hide AddBytes, Wf, Realloc;
    var st := Init(16394, 4, 1, 10, n => true, 0).1;
    InitFits(16394, 4, 1, 10, n => true, 0);
    ReallocFits(st, 20010);
  }
}
