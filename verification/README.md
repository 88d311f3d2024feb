# HTTP adaptive streaming with server push: a verified model

The repository streams video segments over HTTP/2 with server push: five bitrate-adaptation clients built on
nghttp2, a live-segment push server, and the nghttp2 tree they run on. This project models the parts that carry
the algorithms and proves what they are for.

- **HPACK Huffman coding.** `HuffmanTree`, `HuffmanTable` and `HuffmanCodec` are the theory of a code list, its
  tree, the 4-bits-at-a-time table and decoding; `HuffmanCompiler` is `mkhufftbl.py` on linked nodes updated in
  place; `HuffmanDecoder`, `HuffmanEncoder` and `HuffmanMessages` are the C functions that use the tables,
  writing into the chunked buffer. Proved for every complete prefix-free code whose codes have at least four bits
  and whose EOS code is all ones and at least eight bits; `HuffmanExample.ExampleIsGood` shows that there are
  such lists with a made-up one; that the table in `mkhufftbl.py` is one is not proved.
- **Chunked buffers.** `Bufs` is `nghttp2_buf.c` on linked chunks with their own memory; `ChunkSpec` says what
  each operation leaves, byte by byte, and proves capacity and whole runs about that; `ChunkRoom` what fits after each
  way of starting over. The allocator answers each
  request as it likes.
- **Bitrate adaptation.** `Ladder`, `BolaReward`, `RateChoice`, `Estimator`, `FestiveChoice` and `PlayerBuffer` hold
  the decisions and the buffer; `PacedClient` (PANDA, Proposed, Conventional) and `ThresholdClient` (BOLA, FESTIVE)
  are the step machines over the per-segment arrays; `PandaPacing` closes PANDA's loop. A step is a push closing, then
  its request closing. Download times, clocks and measured throughputs are inputs; the one assumption on them is that a
  step takes at least the download and the sleep asked for; `PacedClient.Client.Segment` adds bounds under which every
  client can always go on. Doubles are reals, and the logarithm of a rate over the lowest is any strictly increasing
  sequence from 0.
- **Server push.** `ResponseSpec` and `ServerPush` are the response, its stream and the promise (section 8.2 of
  RFC 7540) under every order of calls, and `ResponseRuns` tells from the calls alone what becomes of a body;
  `LivePush` is the live-segment server with its timer, completions, cancels and rewinds, and `LivePushRuns` tells
  from the events alone what it pushes.
- **Ticket keys and token lookup.** `TicketKeys` is the rotation of TLS session ticket keys; `TokenNames`,
  `TokenLookup` and `TokenSearch` are the two generators of token lookups, with the generated C switch as a small
  program and its interpreter.

`Wrappers` and `BitStrings` are shared.

## Findings

- `ChunkSpec.OneCheck`: `bufs_ensure_addb` checks once and moves once, after which its callers store a byte; with
  `offset == chunk_length` a new chunk has no room for it. `nghttp2_bufs_init3` and `nghttp2_bufs_realloc` accept that
  length (they refuse only a shorter one). The model answers `Overrun` there, where C answers 0 and the behaviour is
  undefined; `OneCheck` says exactly when, `OverrunExample` and `OverrunAfterRealloc` show inputs, and
  `LongChunksNeverOverrun` the runs without.
- `BolaReward.RewardThreshold` and `RateChoice.BolaRateBounds`: rewards end at a buffer of exactly 28000 ms, the delay
  of BOLA becomes positive only above it.
- `LivePush.SafeStep`: a cancel makes the server push a segment early exactly when the client has claimed one that is
  not available yet, unless that ends the stream; `EarlyExample` is such a run.
- `ResponseSpec.StrayPromise`: the response submits its head again when a promise is reported, after its head, for a
  stream that was not pushed. The handler does not check this; `ServerPush.Handler.OnFrameSend` assumes that the session
  reports promises only under ids it returned for promises.
- `TokenSearch.TokenLookupReturns`: the generator accepts a failure value that is also the number of a token, and the
  lookup then returns it both for that token and for no token; `ClashExample` is a list. No call in the tree passes one:
  `gennghttpxfun.py:174` passes a symbol that is 0 in the enumeration it is compiled with, which `src/shrpx_log.h:115`
  declares by hand and where no token is 0.
- `FestiveChoice.LooksTooFar`: from segment index 9 on the count of recent switches starts 14 places back, so it reads
  before the array exactly at indices 9 to 13.
- `PlayerBuffer.SteeredBuffer`: PANDA has no hard ceiling in its code, yet its interval keeps the buffer within 38 s.

## Model

| member | source | states |
|---|---|---|
| HuffmanTree.FullTree | Source Code/testbed/nghttp2/mkhufftbl.py:297-313 | a complete prefix-free code list grows a tree in which every node has two children or ends a code |
| HuffmanTree.TreeOfTerm | Source Code/testbed/nghttp2/mkhufftbl.py:297-313 | for a prefix-free list a node carries a symbol exactly when its path is the code of that symbol |
| HuffmanTable.Numbering | Source Code/testbed/nghttp2/mkhufftbl.py:315-325 | a complete code of n + 1 symbols has exactly n inner nodes, and numbering them in the order node, left, right is a bijection onto 0..n-1 |
| HuffmanTable.FullCount | Source Code/testbed/nghttp2/mkhufftbl.py:315-325 | in a full tree the leaves are one more than the inner nodes |
| HuffmanTable.HopsInOrder | Source Code/testbed/nghttp2/mkhufftbl.py:327-348 | entry k of a row is the traversal along the four bits of k, most significant first |
| HuffmanTable.HopIsWalk | Source Code/testbed/nghttp2/mkhufftbl.py:327-348 | such a traversal is the bit-by-bit walk over those bits, and completes at most one symbol, so the assertion at line 340 never fires |
| HuffmanTable.TableIsWalk | Source Code/testbed/nghttp2/mkhufftbl.py:327-390 | for every nibble string the table run from a node gives the symbols, failure point and resting node of the bit-by-bit tree walk, and the accepted flag of the node it rests at |
| HuffmanTable.TableClosed | Source Code/testbed/nghttp2/mkhufftbl.py:364-390 | every entry leads to a row of the table and every row has 16 entries |
| HuffmanCodec.AcceptsExactlyTheEncodings | Source Code/testbed/nghttp2/mkhufftbl.py:297-390 | the table accepts a nibble string with result s if and only if its bits are the codes of s, none of them EOS, and then zero to seven ones (section 5.2 of RFC 7541) |
| HuffmanCodec.RoundTrip | Source Code/testbed/nghttp2/mkhufftbl.py:297-390 | encoding, padding to whole octets and decoding is the identity on every string of octets |
| HuffmanCompiler.Context.NextId | Source Code/testbed/nghttp2/mkhufftbl.py:292-295 | hands out consecutive numbers |
| HuffmanCompiler.Add | Source Code/testbed/nghttp2/mkhufftbl.py:297-310 | in place, adds exactly the nodes on the path of the code, shares the ones there and sets the symbol at its end |
| HuffmanCompiler.AddAll | Source Code/testbed/nghttp2/mkhufftbl.py:276-313 | the linked nodes after all additions carry the tree of the list, and nothing else is set on them |
| HuffmanCompiler.SetNodeId | Source Code/testbed/nghttp2/mkhufftbl.py:315-325 | in place, marks every inner node below a path with the next numbers in order and the padding flag |
| HuffmanCompiler.AssignAt | Source Code/testbed/nghttp2/mkhufftbl.py:315-325 | those marks are, for each node, its rank in preorder and whether its path is at most seven ones |
| HuffmanCompiler.Traverse | Source Code/testbed/nghttp2/mkhufftbl.py:327-348 | appends to the start node the node and symbol of every bit string of the given length, in order; EOS becomes a failure |
| HuffmanCompiler.BuildTransitionTable | Source Code/testbed/nghttp2/mkhufftbl.py:350-358 | every node of the tree gets the sixteen targets of its nibbles and nothing else changes |
| HuffmanCompiler.PrintEntry | Source Code/testbed/nghttp2/mkhufftbl.py:369-387 | an entry fails, emits and accepts exactly as its target says; a leaf collapses to the accepting root |
| HuffmanCompiler.PrintTransitionTable | Source Code/testbed/nghttp2/mkhufftbl.py:364-390 | prints one row for each inner node, in preorder |
| HuffmanCompiler.PrintedInOrder | Source Code/testbed/nghttp2/mkhufftbl.py:364-393 | the i-th printed row is that of the node numbered i |
| HuffmanCompiler.Compile | Source Code/testbed/nghttp2/mkhufftbl.py:395-451 | for every complete prefix-free code with codes of at least four bits: n rows, numbered in order, that are the table of the code's tree |
| HuffmanDecoder.DecodeContext.constructor | Source Code/testbed/nghttp2/lib/nghttp2_hd_huffman.c:193-196 | decoding starts at the root, which accepts |
| HuffmanDecoder.DecodeContext.Decode | Source Code/testbed/nghttp2/lib/nghttp2_hd_huffman.c:198-231 | answer, output and state kept are those of the table run over all nibbles of the input; a final input must end accepted; the output is at most twice as long as the input |
| HuffmanDecoder.PiecesFit | Source Code/testbed/nghttp2/lib/nghttp2_hd.c:2006-2012 | however a message arrives, decoding appends at most two octets for each of its own, which is the room allocated for it besides the terminator |
| HuffmanDecoder.PiecesAreWhole | Source Code/testbed/nghttp2/lib/nghttp2_hd_huffman.c:198-231 | decoding two pieces with the state in between is decoding their concatenation |
| HuffmanDecoder.DecodesExactlyTheEncodings | Source Code/testbed/nghttp2/lib/nghttp2_hd_huffman.c:198-231 | a final input decodes to s if and only if its bits are the codes of s and zero to seven ones |
| HuffmanEncoder.EncodeSym | Source Code/testbed/nghttp2/lib/nghttp2_hd_huffman.c:40-139 | together with the bits waiting in the held octet the code is stored, except for less than an octet that waits again; without refused allocations it fails only when the bits do not fit |
| HuffmanEncoder.EncodeRest | Source Code/testbed/nghttp2/lib/nghttp2_hd_huffman.c:80-139 | the octets of a code behind its first one, most significant first, by checked or by unchecked stores |
| HuffmanEncoder.HuffEncode | Source Code/testbed/nghttp2/lib/nghttp2_hd_huffman.c:152-191 | appends the padded codes of the input and nothing else; if the allocator refuses nothing it succeeds exactly when they fit, and only chunks no longer than their header offset can be overrun |
| HuffmanEncoder.HuffEncodeCount | Source Code/testbed/nghttp2/lib/nghttp2_hd_huffman.c:141-149 | predicts the number of octets that encoding adds |
| HuffmanMessages.EncodedThenDecoded | Source Code/testbed/nghttp2/lib/nghttp2_hd_huffman.c:152-231 | what the encoder appended, decoded with the generated table, is the input |
| HuffmanMessages.Send | Source Code/testbed/nghttp2/lib/nghttp2_hd_huffman.c:152-191 | a message encoded into a new buffer and copied out is its padded codes; if the allocator refuses nothing this succeeds exactly when they fit into the chunks the buffer may have |
| HuffmanMessages.Transfer | Source Code/testbed/nghttp2/lib/nghttp2_hd_huffman.c:152-231 | a table generated from a list, a message encoded with the list's symbols, copied out and decoded with the table: the message comes back, unless the allocator refuses or it does not fit |
| HuffmanMessages.GoodSymTable | Source Code/testbed/nghttp2/mkhufftbl.py:395-429 | the symbol table printed from the same list is the one the encoder needs |
| HuffmanExample.WireExample | Source Code/testbed/nghttp2/lib/nghttp2_hd_huffman.c:152-191 | a code 00011 alone is the octet 0x1f: codes start at the highest bit and ones fill up the octet |
| Bufs.Buf.Reserve | Source Code/testbed/nghttp2/lib/nghttp2_buf.c:53-77 | grows to at least the wanted size, at least doubling, keeps everything stored, and on failure changes nothing |
| Bufs.Bufs.Init3 | Source Code/testbed/nghttp2/lib/nghttp2_buf.c:124-153 | the outcome and the state of initialisation, with one chunk that is newly allocated and has the length asked for less the offset as room |
| Bufs.Bufs.Realloc | Source Code/testbed/nghttp2/lib/nghttp2_buf.c:155-179 | one empty chunk of exactly the new length, longer or shorter than before, with the room behind the header offset; or no change and the error, which is InvalidArgument exactly for a length below the offset |
| Bufs.Bufs.AllocChain | Source Code/testbed/nghttp2/lib/nghttp2_buf.c:300-331 | moves to the next chunk, linking a new one when there is none and the limit allows |
| Bufs.Bufs.Advance | Source Code/testbed/nghttp2/lib/nghttp2_buf.c:517 | the same, as an operation of its own |
| Bufs.Bufs.Add | Source Code/testbed/nghttp2/lib/nghttp2_buf.c:333-359 | the block-wise loop leaves the chain, the cursor and the error of adding byte after byte, under the same allocator answers |
| Bufs.Bufs.EnsureAddb | Source Code/testbed/nghttp2/lib/nghttp2_buf.c:361-377 | one check and at most one move |
| Bufs.Bufs.Addb | Source Code/testbed/nghttp2/lib/nghttp2_buf.c:379-390 | one check, one move at most and the store of a byte, with the overrun of a chunk without room made explicit |
| Bufs.Bufs.AddbHold | Source Code/testbed/nghttp2/lib/nghttp2_buf.c:392-403 | the same, storing the byte without moving on |
| Bufs.Bufs.FastOrb | Source Code/testbed/nghttp2/lib/nghttp2_buf.h:325-330 | stores the bitwise or of the held byte and moves on |
| Bufs.Bufs.FastOrbHold | Source Code/testbed/nghttp2/lib/nghttp2_buf.h:332-336 | the same without moving on |
| Bufs.Bufs.Len | Source Code/testbed/nghttp2/lib/nghttp2_buf.c:288-298 | the number of bytes stored |
| Bufs.Bufs.RemoveCopy | Source Code/testbed/nghttp2/lib/nghttp2_buf.c:466-482 | copies out everything stored, in order |
| Bufs.Bufs.Reset | Source Code/testbed/nghttp2/lib/nghttp2_buf.c:484-515 | keeps the first chunks up to the keep count, all empty, and frees the rest, without asking the allocator |
| ChunkSpec.InitWf | Source Code/testbed/nghttp2/lib/nghttp2_buf.c:124-153 | initialisation succeeds exactly when the arguments are good, the chunk is granted and its memory is granted or not needed; the buffer is then well formed and empty |
| ChunkSpec.AddAppends | Source Code/testbed/nghttp2/lib/nghttp2_buf.c:333-359 | adding appends all bytes on success and a prefix of them otherwise |
| ChunkSpec.AddSucceedsIffFits | Source Code/testbed/nghttp2/lib/nghttp2_buf.c:300-359 | without refused allocations adding succeeds exactly when the bytes fit into avail(cur) + (max - 1 - index(cur)) * (length - offset) |
| ChunkSpec.EveryRunIsFlat | Source Code/testbed/nghttp2/lib/nghttp2_buf.c:124-515 | in every run of add, addb, advance, reset and realloc, up to its first overrun, the chain is well formed and each operation acts on the stored bytes as on one flat string; only addb overruns, exactly in a full chunk that has, or can be granted, a successor without room |
| ChunkSpec.BlockIsBytes | Source Code/testbed/nghttp2/lib/nghttp2_buf.c:333-359 | copying a block that fits is adding its bytes one by one |
| ChunkSpec.OneCheck | Source Code/testbed/nghttp2/lib/nghttp2_buf.c:361-390 | the single check of addb finds the room there is; it leaves none exactly when the cursor's chunk is full, chunks are no longer than their header offset and there is a next one or it is granted |
| ChunkSpec.AddIsRepeatedAddb | Source Code/testbed/nghttp2/lib/nghttp2_buf.c:333-390 | with chunks longer than their header offset a block is added as by calling addb for its bytes until one fails: same chain, contents and error, under the same allocator answers |
| ChunkSpec.LongChunksNeverOverrun | Source Code/testbed/nghttp2/lib/nghttp2_buf.c:155-179 | from chunks longer than their header offset no run overruns unless a reallocation asks for just that length |
| ChunkSpec.OverrunExample | Source Code/testbed/nghttp2/lib/nghttp2_buf.c:124-153 | initialisation accepts a chunk length equal to the header offset, and the next addb overruns |
| ChunkSpec.OverrunAfterRealloc | Source Code/testbed/nghttp2/lib/nghttp2_buf.c:155-179 | so does a reallocation to that length |
| ChunkRoom.AddInPlace | Source Code/testbed/nghttp2/lib/nghttp2_buf.c:333-359 | bytes that fit into the chunks there are, avail(cur) + (used - 1 - index(cur)) * (length - offset), are added with success, without an allocator request or a new chunk |
| ChunkRoom.ReallocFits | Source Code/testbed/nghttp2/lib/nghttp2_buf.c:155-179 | a reallocation to n succeeds exactly when n is at least the offset and the chunk is granted; then one chunk of n bytes is left, bytes are added without the allocator exactly up to n - offset, and with a willing one exactly up to max * (n - offset) |
| ChunkRoom.ResetFits | Source Code/testbed/nghttp2/lib/nghttp2_buf.c:484-515 | a reset leaves min(used, keep) empty chunks of the old length, which take, without the allocator, exactly as many bytes as they have behind the offset |
| ChunkRoom.InitFits | Source Code/testbed/nghttp2/lib/nghttp2_buf.c:124-153 | a new buffer has one empty chunk of the length asked for; bytes are added without the allocator exactly up to length - offset, and with a willing one exactly up to max * (length - offset) |
| ChunkRoom.GrowExample | Source Code/testbed/nghttp2/lib/nghttp2_session.c:6968-6985 | a frame buffer of 16394 bytes a chunk, reallocated to 20010, takes 20000 bytes in its one chunk |
| Ladder.RateClosestThrp | Source Code/testbed/Proposed.cc:871-882 | the highest rung strictly under 85 percent of the throughput, or the lowest rung, with the 0.85 written out |
| Ladder.HighestAtMost | Source Code/testbed/PANDA.cc:812-827 | the largest rung that does not exceed the bound |
| BolaReward.MaxRewardRate | Source Code/testbed/BOLA.cc:781-800 | chooses the lowest rung of maximal positive reward, where reward is compared by cross-multiplying 28000 (u + 5) - buff (top + 5) with the rates; or the default when that is positive for no rung (-1 in BOLA.cc, the top rung in Proposed.cc) |
| BolaReward.RungThreshold | Source Code/testbed/BOLA.cc:781-800 | the reward of rung i is positive exactly when buff * (top utility + 5) < 28000 * (its own utility + 5) |
| BolaReward.AheadFrom | Source Code/testbed/BOLA.cc:781-800 | a higher rung j has more reward than rung i exactly when buff * (top + 5) * (rate j - rate i) > 28000 * ((u i + 5) * rate j - (u j + 5) * rate i) |
| BolaReward.BestExample | Source Code/testbed/BOLA.cc:781-800 | with rates 1000 and 2000, utilities 0 and 1 and 24 s of buffer the higher rung is best |
| BolaReward.RewardThreshold | Source Code/testbed/BOLA.cc:781-800 | no reward is positive exactly when the buffer is at least the maximum less one segment |
| BolaReward.ChoiceMonotone | Source Code/testbed/BOLA.cc:781-800 | for every increasing ladder and increasing utilities a fuller buffer never lowers the chosen rung |
| BolaReward.ProposedChoiceMonotone | Source Code/testbed/Proposed.cc:851-870 | with the top rung as default this holds over all buffer levels |
| RateChoice.GuardedRateBounds | Source Code/testbed/Proposed.cc:895-932 | from a rung the next rate is a rung between the current rate and the target; it rises only under the margin, or by the boost to at most one rung above the closest, and the clamp of the index never acts |
| RateChoice.GuardedRateMoves | Source Code/testbed/Proposed.cc:895-932 | a target at or below the current rate is taken at once; towards a higher one the rate is the closest rung clamped between the two, or the rung above it with a boost |
| RateChoice.BolaAims | Source Code/testbed/BOLA.cc:812-852 | while some reward is positive the next rate of BOLA is the best rung if that is not higher, and otherwise the closest rung clamped between the current rate and the best one |
| RateChoice.BoostAimsAtTop | Source Code/testbed/Proposed.cc:851-932 | from 28 s of buffer on the target is the top rung |
| RateChoice.BolaRateBounds | Source Code/testbed/BOLA.cc:812-852 | from a rung BOLA moves to a rung, upwards only under the margin, and keeps its rate from 28 s of buffer on, in particular whenever it sleeps |
| RateChoice.DeadZoneClamps | Source Code/testbed/PANDA.cc:805-837 | the next rate is the current one clamped between the floors of 85 percent and of all of the smoothed throughput, and never exceeds it |
| RateChoice.Hysteresis | Source Code/testbed/PANDA.cc:805-837 | between a switch up to a rate and a switch down from it the smoothed throughput fell by more than 15 percent |
| Estimator.ProbeBetween | Source Code/testbed/PANDA.cc:773-791 | with at most 5 s between requests an estimate lies between the last one and the new sample and rises by at most 0.042 kbps a second |
| Estimator.ProbeMoves | Source Code/testbed/PANDA.cc:773-791 | an estimate moves by 0.14 * min(sample - estimate, 0.3) a second |
| Estimator.SmoothMoves | Source Code/testbed/PANDA.cc:792-803 | smoothing moves by a fifth of its distance a second and reaches the estimate after 5 s |
| Estimator.SmoothBetween | Source Code/testbed/PANDA.cc:792-803 | smoothing does not overshoot exactly for at most 5 s between requests, or when there is nothing to move |
| Estimator.StaysWithinSamples | Source Code/testbed/PANDA.cc:773-803 | in every run with at most 5 s between requests both values stay within the samples measured so far |
| PlayerBuffer.ThresholdBuffer | Source Code/testbed/BOLA.cc:848-873 | in every run that sleeps off what exceeds a threshold the buffer stays below 32 s or the threshold's bound and a segment, playback leaves at most the latter, buffering means below the target and playing more than one segment |
| PlayerBuffer.BufferIsRest | Source Code/testbed/BOLA.cc:848-873 | in every run the buffer is 2000 ms a segment less the time that passed during playback |
| PlayerBuffer.StartsAtTarget | Source Code/testbed/Conventional.cpp:860-873 | whatever the times between segments, playback starts with the segment that fills the target and nothing is played before |
| PlayerBuffer.HeldBack | Source Code/testbed/Conventional.cpp:860-873 | playback stops exactly with at most one segment left, where the client rebuffers, starts again exactly at the target, and drains nothing meanwhile |
| PlayerBuffer.PacedBuffer | Source Code/testbed/Proposed.cc:883-893 | one request a segment duration from the target on keeps the buffer below the target and one segment in every run |
| PlayerBuffer.SteeredBuffer | Source Code/testbed/PANDA.cc:838-844 | the interval of PANDA keeps the buffer within five segments of the target in every run |
| PacedClient.Client.SegmentReceived | Source Code/testbed/PANDA.cc:2817-2833 | records download time, throughput, first rate and the interval that counts |
| PacedClient.Client.UpdateBuffer | Source Code/testbed/Conventional.cpp:849-873 | the buffer is that before and 2000 ms, less the time passed if playing; it is held back exactly below 28 s (Proposed: 30 s) if it was, or with at most 2000 ms where the client rebuffers |
| PacedClient.Client.UpdateEstimatedThrp | Source Code/testbed/PANDA.cc:773-791 | the estimate of all samples so far; PANDA and Proposed move it by 0.14 * min(sample - estimate, 0.3) a second, Conventional takes the last sample |
| PacedClient.Client.UpdateSmoothedThrp | Source Code/testbed/PANDA.cc:792-803 | its smoothing over all intervals so far, by a fifth of the distance a second |
| PacedClient.Client.GuardedChoice | Source Code/testbed/Proposed.cc:895-933 | the guarded choice, for some best rung and the closest rung |
| PacedClient.Client.DeadZoneChoice | Source Code/testbed/PANDA.cc:805-837 | the dead zone between the two floors |
| PacedClient.Client.UpdateTargetInterRequest | Source Code/testbed/Proposed.cc:883-893 | PANDA's interval is within 2 ms of rate * 2000 / smoothed + (buff - 28000) / 5; the others wait 2000 ms exactly from 28 s (Proposed: 30 s) on and else nothing, the PANDA formula before it being overwritten |
| PacedClient.IntervalPaces | Source Code/testbed/PANDA.cc:838-844 | the same of the interval as a function: two-sided for PANDA, exact for the others |
| PandaPacing.SteadyInterval | Source Code/testbed/PANDA.cc:838-844 | at a rate equal to the smoothed throughput the interval is 2000 ms and a fifth of what the buffer exceeds 28 s by |
| PandaPacing.ComesDown | Source Code/testbed/PANDA.cc:838-873 | closed loop: a playing client at that rate, with downloads of at most 2 s, never falls below 28 s once there, exceeds it after n segments by at most 4 ms and (4/5)^n of the excess, and at 28 s stays there |
| PandaPacing.IntervalExample | Source Code/testbed/PANDA.cc:838-844 | 937 kbps at 1200 kbps of throughput and 28 s of buffer: 1561 ms |
| PacedClient.Client.RequestClosed | Source Code/testbed/Proposed.cc:934-968 | one step of PANDA, Proposed or Conventional: the buffer stays under its ceiling in every run and the next rate, interval and estimates are as specified |
| PacedClient.DeadZoneBounds | Source Code/testbed/PANDA.cc:805-837 | from a rung PANDA and Conventional move to a rung, never above the smoothed throughput |
| PacedClient.ProposedBounds | Source Code/testbed/Proposed.cc:895-933 | from a rung Proposed moves to a rung; above the margin only while playing with 28 s buffered, when the target is the top rung, and to at most one rung above the closest |
| PacedClient.ProposedBoosts | Source Code/testbed/Proposed.cc:895-933 | while playing with 28 s or more Proposed takes the rung above the closest one, the closest one if it is the top, or keeps its rate if that is higher |
| PacedClient.ProposedAims | Source Code/testbed/Proposed.cc:895-933 | otherwise it goes to the chosen rung if that is not higher, and else to the closest rung clamped between the current rate and the chosen one |
| PacedClient.SamplesSuffice | Source Code/testbed/PANDA.cc:773-827 | samples within bounds that leave a rung, at most 5 s apart, keep the choice defined |
| PacedClient.IntervalIsShort | Source Code/testbed/PANDA.cc:838-844 | below its ceiling no client paces for more than 4 s |
| PacedClient.Client.Segment | Source Code/testbed/PANDA.cc:845-878 | the closed loop: with throughputs within bounds that leave a rung and downloads of at most 5 s, whatever they are, every client can always choose, its estimates stay within the bounds, its buffer under the ceiling and its rates on the ladder |
| ThresholdClient.Client.PushClosed | Source Code/testbed/BOLA.cc:2781-2807 | one push of BOLA or FESTIVE: the buffer bounds hold after it in every run |
| ThresholdClient.Client.BolaRequestClosed | Source Code/testbed/BOLA.cc:812-874 | the next rate of BOLA, and the sleep before its request: what the buffer exceeds 28 s by |
| ThresholdClient.Client.ChooseRefRate | Source Code/testbed/FESTIVE.cc:730-756 | the reference level stays in 1..10, falls by one on a rate above nine tenths of the estimate, rises by one when the count has run out on its own rate and stays otherwise; level m needs 1 + 2 + ... + (m - 1) segments |
| ThresholdClient.Client.EstimateThrp | Source Code/testbed/FESTIVE.cc:780-789 | the harmonic mean of the last 20 throughputs, which is 0 when one of them is |
| ThresholdClient.Client.NumOfSwitches | Source Code/testbed/FESTIVE.cc:757-768 | the loop counts the switches of the last fourteen segments, or of all up to index 8 |
| ThresholdClient.Client.CompareCosts | Source Code/testbed/FESTIVE.cc:792-818 | the cheaper of current and reference rate: the reference exactly when d > 0 and 2^n * d < 12 * (|current - d| - (reference - d)) for the smaller d of throughput and reference after n switches |
| ThresholdClient.Client.FestiveRequestClosed | Source Code/testbed/FESTIVE.cc:769-815 | one request of FESTIVE: estimate, level, rate by the switches counted, and a sleep of what the buffer exceeds the drawn threshold by |
| ThresholdClient.Client.BolaSegment | Source Code/testbed/BOLA.cc:2781-2814 | a whole segment of BOLA, whatever is measured: the buffer bounds hold and from a ladder that has the first rate it stays on the ladder |
| ThresholdClient.Client.FestiveSegment | Source Code/testbed/FESTIVE.cc:2750-2783 | a whole segment of FESTIVE, whatever is measured, drawn and counted: the buffer bound holds, the estimate lies within the samples so far and the rates on the ladder |
| ThresholdClient.PlayAll | Source Code/testbed/BOLA.cc:2781-2814 | a whole run of BOLA or FESTIVE from its start keeps that, for every sequence of answers within bounds |
| PacedClient.PlayAll | Source Code/testbed/PANDA.cc:845-878 | a whole run of PANDA, Proposed or Conventional from its start stays on course, for every sequence of answers within bounds |
| FestiveChoice.EstimateBetween | Source Code/testbed/FESTIVE.cc:780-789 | the estimate lies within the throughputs it is made from, and is 0 exactly when one of them is |
| FestiveChoice.EstimateIsHarmonic | Source Code/testbed/FESTIVE.cc:780-789 | the estimate times the sum of the inverses is the number of samples |
| FestiveChoice.LooksTooFar | Source Code/testbed/FESTIVE.cc:759-761 | the count of switches reads before the first rate exactly at segment indices 9 to 13 |
| FestiveChoice.NoSwitches | Source Code/testbed/FESTIVE.cc:757-768 | the count is 0 exactly when all rates of the window are equal |
| FestiveChoice.ClimbBound | Source Code/testbed/FESTIVE.cc:730-756 | after n calls level * (level - 1) / 2 + level - max(counter, 0) is at most n, and each call raises the level by at most one |
| FestiveChoice.SettledClimbs | Source Code/testbed/FESTIVE.cc:730-756 | a client whose segments came at their reference rates, at most nine tenths of the estimate, is after n calls on exactly the level m with m (m - 1) / 2 <= n < m (m + 1) / 2, or on the tenth |
| FestiveChoice.Falls | Source Code/testbed/FESTIVE.cc:730-756 | n calls with rates above nine tenths of the estimate take the level from m to max(1, m - n) |
| FestiveChoice.TakenWhenFar | Source Code/testbed/FESTIVE.cc:794-815 | a reference within the throughput is taken exactly when the current rate is relatively further off it than the switches allow; after four switches not from below twice it |
| FestiveChoice.TakenExactly | Source Code/testbed/FESTIVE.cc:794-815 | for every throughput and reference, also one above it: the reference is taken exactly when d > 0 and 2^n * d < 12 * (|current - d| - (reference - d)), d the smaller of throughput and reference |
| FestiveChoice.SteadierWithSwitches | Source Code/testbed/FESTIVE.cc:803-815 | a rate kept after some switches is kept after more |
| ResponseSpec.HeadersOnce | Source Code/testbed/nghttp2/asio_server_response_impl.cc:51-116 | for every order of calls a head is submitted exactly once when the application has given one and, on a pushed stream, the promise is out, and never otherwise; it is the head given first |
| ResponseSpec.PhaseMonotone | Source Code/testbed/nghttp2/asio_server_response_impl.cc:51-116 | no call moves a response back |
| ResponseSpec.GeneratorOnce | Source Code/testbed/nghttp2/asio_server_response_impl.cc:74-104 | in every run a body generator is installed at most once, no stream that has one is left deferred, and only a submitted body is read |
| ResponseSpec.StrayPromise | Source Code/testbed/nghttp2/asio_server_response_impl.cc:152-161 | the promise of a stream that was not pushed submits a second head exactly when it comes, for the first time, after the head |
| ResponseRuns.BodyHeld | Source Code/testbed/nghttp2/asio_server_response_impl.cc:51-161 | for every order of calls: the generator is that of the first end, unless a head without body was due before it; a body is read, never deferred, when one is installed and the session took a head that has a body; without one it waits from a read to the next resume; the stream is reset exactly when the head was refused |
| ResponseRuns.EndExample | Source Code/testbed/nghttp2/asio_server_response_impl.cc:74-99 | an accepted head with status 200 and an end: its generator is installed and read |
| ServerPush.ResponseImpl.WriteHead | Source Code/testbed/nghttp2/asio_server_response_impl.cc:51-66 | acts as the specification's step |
| ServerPush.ResponseImpl.End | Source Code/testbed/nghttp2/asio_server_response_impl.cc:72-99 | acts as the specification's step: unless the body had started, the application's generator is installed |
| ServerPush.ResponseImpl.Promise | Source Code/testbed/nghttp2/asio_server_response_impl.cc:152-161 | acts as the specification's step |
| ServerPush.ResponseImpl.StartResponse | Source Code/testbed/nghttp2/asio_server_response_impl.cc:107-120 | submits the head, starts a body if one is expected, resets the stream when refused |
| ServerPush.Handler.CreateStream | Source Code/testbed/nghttp2/asio_server_http2_handler.cc:312-316 | opens a stream under a new id |
| ServerPush.Handler.CloseStream | Source Code/testbed/nghttp2/asio_server_http2_handler.cc:318-320 | forgets a stream, and nothing else |
| ServerPush.Handler.PushPromise | Source Code/testbed/nghttp2/asio_server_http2_handler.cc:431-484 | opens a pushed stream with an untouched response, or changes nothing on an error |
| ServerPush.Handler.OnFrameSend | Source Code/testbed/nghttp2/asio_server_http2_handler.cc:212-231 | tells a promised stream that is still open that its promise went out |
| ServerPush.Handler.HeadsSubmitted | Source Code/testbed/nghttp2/asio_server_http2_handler.cc:212-231 | on every open stream, whatever was called, the first head has been submitted once exactly when it was given and the promise of a pushed stream is out, and generator, body and reset are what the calls say |
| LivePush.SafeStep | Source Code/testbed/nghttp2/server_push.cpp:49-109 | a tick, completion, cancel or request keeps the server safe exactly when a cancel finds the client's segment available, or ends the stream; otherwise it pushes a segment early |
| LivePush.SafeRun | Source Code/testbed/nghttp2/server_push.cpp:49-165 | a run is safe throughout exactly when all its cancels do: at most one push in flight, idle means all sent, pushing means more to send, no segment pushed early, completions consecutive between rewinds, nothing pushed after the end |
| LivePush.EarlyExample | Source Code/testbed/nghttp2/server_push.cpp:61-83 | a client that claims segment 5 while 1 is the newest and cancels is sent segment 6 |
| LivePush.Server.PushFile | Source Code/testbed/nghttp2/server_push.cpp:90-109 | the timer acts as the specification's step and makes one more segment available unless the stream has closed |
| LivePush.Server.OnClose | Source Code/testbed/nghttp2/server_push.cpp:61-83 | acts as the specification's step: the server is one segment further after code 0, where the client is after a cancel, and where it was after any other; then it pushes the next segment, unless it is at the newest or at the end |
| LivePush.Server.PushRemainingFiles | Source Code/testbed/nghttp2/server_push.cpp:49-88 | pushes the next segment, or answers the request at the end |
| LivePush.Server.OnRequest | Source Code/testbed/nghttp2/server_push.cpp:153-165 | records the client's segment and leaves the server safe |
| LivePushRuns.RunTells | Source Code/testbed/nghttp2/server_push.cpp:49-165 | over every possible run the counters and the push in flight are what recursion over the events says, with the client's claim, the completions and the ticks read from the event list |
| LivePushRuns.NextPushAfter | Source Code/testbed/nghttp2/server_push.cpp:49-83 | in every run, after a push closes the next push is the segment behind the one completed, behind the client's last claim for a cancel, and the same segment for any other code, unless that is the newest or the end |
| LivePushRuns.TickPushes | Source Code/testbed/nghttp2/server_push.cpp:90-109 | a tick of an open stream makes one segment available and starts the next push exactly if none is in flight and the end is not reached; after the stream has closed it changes nothing |
| LivePushRuns.RewindExample | Source Code/testbed/nghttp2/server_push.cpp:61-83 | a client that has segment 1 and cancels the push of segment 3 is sent segment 2 |
| TicketKeys.NumbersAre | Source Code/testbed/nghttp2/contrib/tlsticketupdate.go:66-110 | after t rotations the list is key t, t - 1, ..., max(0, t - 11) and t + 1 |
| TicketKeys.KeyLifetime | Source Code/testbed/nghttp2/contrib/tlsticketupdate.go:96-110 | the key of epoch k is in the list in exactly the epochs max(0, k - 1) to k + 11 |
| TicketKeys.PublishedBeforeUse | Source Code/testbed/nghttp2/contrib/tlsticketupdate.go:96-110 | epoch t encrypts with key t, which was in the list one rotation before unless it is the first |
| TicketKeys.Rebuild | Source Code/testbed/nghttp2/contrib/tlsticketupdate.go:101-108 | the copying loop builds exactly the rotated list in a new array |
| TicketKeys.Updater.Rotate | Source Code/testbed/nghttp2/contrib/tlsticketupdate.go:96-110 | after every rotation the list holds the keys made with those numbers |
| TokenNames.ToEnumHd | Source Code/testbed/nghttp2/gentokenlookup.py:3-10 | the enumerator name of a token |
| TokenNames.EnumCharIs | Source Code/testbed/nghttp2/gentokenlookup.py:3-10 | after the prefix and an underscore, small letters become capitals, colons and hyphens underscores, and other characters stay |
| TokenNames.SameEnumName | Source Code/testbed/nghttp2/gentokenlookup.py:3-10 | two tokens share an enumerator exactly when they are equal but for the case of letters and for colon, hyphen and underscore |
| TokenNames.SortedIs | Source Code/testbed/nghttp2/gentokenlookup.py:29-48 | sorting gives the same strings in order |
| TokenLookup.BuildHeader | Source Code/testbed/nghttp2/genlibtokenlookup.py:81-94 | the index by length and last character holds each name in its bucket, without repetitions where they are skipped |
| TokenLookup.GenIndexHeader | Source Code/testbed/nghttp2/gentokenlookup.py:36-64 | one case for each length and one for each last character, in ascending order, with a test for each name |
| TokenSearch.SwitchIsSearch | Source Code/testbed/nghttp2/gentokenlookup.py:12-64 | for every list, comparison and name the generated switch returns what plain search returns |
| TokenSearch.SwitchRuns | Source Code/testbed/nghttp2/gentokenlookup.py:36-64 | the generated switch looks only at characters the name has |
| TokenSearch.GenTokenLookup | Source Code/testbed/nghttp2/gentokenlookup.py:66-69 | the generator as a whole |
| TokenSearch.TokenLookupReturns | Source Code/testbed/nghttp2/gentokenlookup.py:26-64 | when the enumeration compiles the lookup returns i exactly when the i-th sorted token matches the name, or none does and i is the failure value, for every failure value |
| TokenSearch.ClashExample | Source Code/testbed/nghttp2/gentokenlookup.py:61-64 | with the one token a and the failure value 0 the lookups of a and of b both return 0 |
| TokenSearch.ExactMatches | Source Code/testbed/nghttp2/gentokenlookup.py:51-55 | with exact comparison, matching is equality |
| TokenSearch.CaselessMatches | Source Code/testbed/nghttp2/gentokenlookup.py:51-55 | ignoring case, a name matches exactly when its last character is the token's and the others are equal or the same letter in the other case |
| TokenSearch.EnumValues | Source Code/testbed/nghttp2/gentokenlookup.py:26-34 | tokens are numbered from 0 in sorted order and the last enumerator, MAXIDX, is their number |
| TokenSearch.GenLibEnum | Source Code/testbed/nghttp2/genlibtokenlookup.py:96-106 | the loop with its running name declares what LibEnum says: each entry but those that repeat the last name with a value |
| TokenSearch.LibEnumCompiles | Source Code/testbed/nghttp2/genlibtokenlookup.py:96-106 | the enumeration compiles exactly when names that share an enumerator are one name, repeated with values and no other value between: such a group is declared once, anything else twice |
| TokenSearch.LibLookupReturns | Source Code/testbed/nghttp2/genlibtokenlookup.py:81-136 | on lists that repeat names a name returns the value of its first entry, given or one more than the enumerator before |
| TokenSearch.LibLookupFails | Source Code/testbed/nghttp2/genlibtokenlookup.py:108-136 | a name that is not listed returns -1 |
| TokenSearch.GenLibTokenLookup | Source Code/testbed/nghttp2/genlibtokenlookup.py:138-141 | the library's generator as a whole |

## Left out

- Client plumbing: sockets, TLS, libev, HTTP upgrade, HAR and JSON, option parsing and statistics of the five client files.
- Unused adaptation methods: `hung_measure_and_update`, the ATL, AP, APT and AATL methods, `hung_change_rate` and `hung_req_rate`, whose timer is commented out.
- Floating point: rounding is not modelled, so a claim at an exact threshold holds in real arithmetic only.
- Clocks: reading the time after the sleep is the parameter `now`; `usleep` is the assumption that a step takes at least the sleep.
- PacedClient.Client.RequestClosed: requires that the smoothed throughput leaves a rung for PANDA and Conventional, because below the ladder `rateUp` and `rateDown` stay unassigned in the source; and that it is not zero for Proposed, which divides by it before overwriting the result.
- ThresholdClient.Client.FestiveRequestClosed: does not take an infinite throughput, see the line below; at segment indices 9 to 13, where `numOfSwitches` reads before its array, it takes the number of switches as any natural number; elsewhere that is at most 14, so the cast of the power of two to `int` loses nothing.
- ThresholdClient.Client.EstimateThrp: takes throughputs that are not negative; an interval of 0 us, which makes one infinite, is not modelled.
- Utilities: `compute_utility` runs again on a reconnect and would make the utility list longer than the ladder; one call is modelled.
- Bufs.Bufs.Addb: where C stores past the memory of a chunk the model stores nothing and answers Overrun; what C does from there on is undefined and not modelled.
- ServerPush.Handler.OnFrameSend: assumes of the session that it reports promises only under ids it returned for them; with others a head could be submitted twice.
- Buffers: `nghttp2_bufs_wrap_init`, `nghttp2_bufs_wrap_free`, `nghttp2_bufs_remove`, `nghttp2_bufs_seek_last_present`, `nghttp2_bufs_next_present` and `nghttp2_bufs_free` are left out, and freed memory is simply no longer reachable.
- HuffmanExample.ExampleIsGood: shows that some list meets the conditions on lists, not that the 257 entries in `mkhufftbl.py` do; those are constants and are not part of this model.
- HuffmanCompiler.Compile: starts from the list of symbols and bit strings, because reading it from the RFC text is text processing; the printed C text is modelled by its rows, and ids are unbounded numbers, which for 257 symbols are 0 to 255.
- HuffmanEncoder.EncodeSym: shifts of the 32-bit code are written with powers of two and the remainder modulo 2^32 and 2^8.
- ServerPush.Handler: the write signal and its callback flag, header fields of requests, trailers, cancel, and threads inside one callback are left out; ids are new because the session never reuses one.
- LivePush: a cancelled segment that had already been sent in full is not told apart, as in the source; several connections sharing the counters and threads inside one callback are left out; a push is assumed to be accepted.
- TicketKeys.Updater: keys are any values, since random generation is outside; the binary format and memcached are left out.
- TokenSearch: text output is modelled by the switch it means, for ASCII names; two-byte and signed characters are left out.
- Other generators and programs: `server_KPush.cpp`, `topology.py`, `mkcipherlist.py`, the character tables and documentation scripts would add only easy members.
