# Verifiable RLNC engine — a Dafny model

This project models the core of a verifiable Random Linear Network Coding (RLNC)
engine, plus one flooding simulation. A block is cut into chunks. Each chunk is
read as a vector of scalars of the ristretto255 scalar field. The order of that
field is L = 2^252 + 27742317777372353535851937790883648493 (section 5.1 of
RFC 8032; the group is the one of section 4 of RFC 9496). A source node commits
to every chunk and emits random linear combinations. A receiving node checks each
combination against the commitments homomorphically, keeps the independent ones,
and decodes once it holds enough of them.

Every generator is the basepoint times a scalar. So a group element is modelled
exactly by its discrete logarithm: `Field.Point(log)`. Under that view, a
commitment is a dot product in Z_L and `multiscalar_mul` is the sum of
s_i * g_i. Randomness is a parameter of the operation that consumes it: the
generator seeds, the coefficient bytes of `send`, the bytes of `random_u8_slice`
and the neighbour draws of the simulation.

Modules:

- `Wrappers`: `Result`, `Option` and `Outcome`.
- `Field`: scalars mod L, the ring laws, and points as discrete logs.
- `LinAlg`: dot products and linear combinations of rows. The central lemma is
  `DotCombine`: the dot product of a combination is the combination of the dot
  products. Both the send-verifies theorem and decode correctness rest on it.
- `Blocks` (src/blocks.rs): the committer, `commit`, the word codec,
  `random_u8_slice` and `block_to_chunks`.
- `Matrix` (src/matrix.rs): `Eschelon` as written in that file, with u32
  wrap-around written out.
- `Nodes` (src/node.rs): messages, `verify`, source and destination nodes,
  `receive`, `send` and `decode`.
- `Routing` (src/bin/routing.rs): `create_nodes`, `new` and `round`.

Facts about the code that shape the model:

- The comment at src/blocks.rs:41-44 says that real blocks should be
  bit-packed. `chunk_to_scalars` (src/blocks.rs:45-57) instead reads plain
  32-byte little-endian words and reduces each mod L. Whenever the top byte
  of a word is zero, the word is below L and reads without reduction.
  `random_u8_slice` (src/blocks.rs:60-66) arranges exactly that.
- The generators are the basepoint times random u128 draws
  (src/blocks.rs:34-38).
- `receive` adopts the first message's commitments without checking their
  count against anything (src/node.rs:154-156). A failed homomorphic check is
  reported as `InvalidMessage` (src/node.rs:144-146).

## Model

| member | source | states |
|---|---|---|
| Blocks.NewCommitter | src/blocks.rs:12-39 | the committer has exactly n generators, generator i being the basepoint times the i-th random 128-bit draw |
| Blocks.MultiscalarMul | src/blocks.rs:26-29 | the multiscalar product's discrete log is the field dot product of the scalars with the points' logs |
| Blocks.Commit | src/blocks.rs:22-30 | fails (chunk too large) exactly when there are more scalars than generators; otherwise its log is the dot product with the first \|scalars\| generators only |
| Blocks.CommitLinear | src/blocks.rs:26-29 | commit(a*u + b*v) = a*commit(u) + b*commit(v) for equal-length u, v within the generator count |
| Blocks.CommitUsesPrefix | src/blocks.rs:26-29 | two committers agreeing on the first \|scalars\| generators give the same commitment |
| Blocks.Words | src/blocks.rs:49-56 | a 32k-byte chunk yields k scalars, the i-th the little-endian value of bytes [32i, 32i+32) mod L |
| Blocks.ChunkToScalars | src/blocks.rs:45-57 | fails exactly when the length is not a multiple of 32; otherwise len/32 scalars, word i read little-endian mod L |
| Blocks.WordBelowOrder | src/blocks.rs:41-44 | a 32-byte word whose top byte is zero is below 2^248 < L, so reading it involves no reduction |
| Blocks.ChunkRoundTrip | src/blocks.rs:41-57 | writing the scalars of a well-formed chunk (whole words, top bytes zero) back as 32-byte words reproduces the chunk |
| Blocks.ChunkToScalarsInjective | src/blocks.rs:41-57 | distinct well-formed chunks never read to the same scalars |
| Blocks.RandomU8Slice | src/blocks.rs:59-67 | the result has exactly `length` bytes; every index congruent to 31 mod 32 is zero and every other byte is the random draw |
| Blocks.RandomSliceWellFormed | src/blocks.rs:60-66 | a random slice whose length is a multiple of 32 is a well-formed chunk |
| Blocks.Slices | src/blocks.rs:77 | the pieces of `chunks(size)` concatenate back to the input; every piece is non-empty and at most `size` long, and every piece but the last has exactly `size` elements |
| Blocks.BlockToChunks | src/blocks.rs:69-78 | fails exactly when the block length is not a multiple of num_chunks; otherwise exactly num_chunks slices of length len/num_chunks that concatenate to the block |
| Matrix.New | src/matrix.rs:15-25 | no coefficient rows, size x size zero echelon form, size x size identity transform, determinant 1 |
| Matrix.NewIdentity | src/matrix.rs:27-40 | coefficients, echelon form and transform are all the size x size identity, determinant 1 |
| Matrix.NewIdentityConsistent | src/matrix.rs:1-40 | new_identity satisfies the documented invariant transform * coefficients = eschelon |
| Matrix.AddRow | src/matrix.rs:42-44 | the row becomes the last coefficient row; earlier rows, echelon form, transform and determinant are unchanged |
| Matrix.WrappingIsExactModulo | src/matrix.rs:52-57 | summing u32 products with wrap-around gives the exact column sum modulo 2^32 |
| Matrix.CompoundScalars | src/matrix.rs:46-59 | one entry per scalar; entry j is the sum of scalars[i] * coefficients[i][j] over i < min(\|scalars\|, \|coefficients\|), mod 2^32 |
| Matrix.CompoundExactWhenFits | src/matrix.rs:46-59 | an entry whose exact sum fits in a u32 is exact |
| Matrix.CompoundIdentity | src/matrix.rs:27-59 | on new_identity(n) with n scalars, compound_scalars returns the scalars unchanged, with no u32 overflow |
| Matrix.AddRowCompound | src/matrix.rs:42-59 | after add_row a column sum grows by scalars[m] * row[j] when there are more scalars than the m earlier rows, and is otherwise unchanged (zip truncation) |
| Nodes.Verify | src/node.rs:56-66 | passes exactly when commit(data) succeeds and sum_k coefficients[k] * commitments[k] equals it (as discrete logs); the commit failure is reported exactly when the data is longer than the generator basis |
| Nodes.NewNode | src/node.rs:81-88 | no chunks and no commitments, an empty echelon of the given size; the node is valid, sound and honest towards any original chunks |
| Nodes.NewSource | src/node.rs:89-108 | fails exactly when block_to_chunks fails; otherwise num_chunks chunks read from the slices and num_chunks commitments with commitments[k] = commit(chunks[k]), identity rows, valid and sound |
| Nodes.SourceIsSound | src/node.rs:98-105 | identity rows plus per-chunk commitments make every stored chunk pass verify |
| Nodes.CheckExistingCommitments | src/node.rs:110-125 | passes exactly when no commitments are stored or they equal the message's; the count error is reported exactly when the lengths differ |
| Nodes.CheckExistingChunks | src/node.rs:127-134 | passes exactly when no chunk is stored or the first stored chunk has the message data's length |
| Nodes.AddRow | src/node.rs:148-151 | reports whether the row is independent; an independent row is appended, a dependent one changes nothing |
| Nodes.IsFull | src/node.rs:222-224 | full exactly when the number of stored chunks equals the echelon size |
| Nodes.Receive | src/node.rs:136-158 | reports the first failing check in the order commitments, chunk size, verify, independence; any error leaves the node unchanged; success appends exactly the data and the row and adopts the message commitments iff none were stored; stored commitments never change. A message whose count of commitments differs from its count of coefficients is admitted whenever an earlier check rejects it |
| Nodes.ReceiveKeepsChunkLengths | src/node.rs:127-158 | every stored chunk keeps the length of chunks[0] across receive |
| Nodes.ReceivePreservesInvariants | src/node.rs:136-158 | receive preserves the shape invariant and that every stored chunk verifies against the stored commitments |
| Nodes.ReceiveKeepsHonest | src/node.rs:136-158 | receiving an honest combination keeps the stored chunks honest combinations of the originals |
| Nodes.CompoundScalars | src/node.rs:172-176 | the coefficient vector has one entry per source chunk, entry j being sum_k s_k * rows[k][j] |
| Nodes.LinearCombData | src/node.rs:178-188 | data[i] = sum_k s_k * chunks[k][i] for every i < \|chunks[0]\| |
| Nodes.LinearCombChunk | src/node.rs:172-176 | the chunk's data has \|chunks[0]\| entries with data[i] = sum_k s_k * chunks[k][i]; its coefficients have `size` entries with coefficients[j] = sum_k s_k * rows[k][j] |
| Nodes.Send | src/node.rs:160-170 | fails exactly when there are no chunks; otherwise data[i] = sum_k s_k * chunks[k][i], coefficients[j] = sum_k s_k * rows[k][j], and the node's commitments are attached |
| Nodes.SendVerifies | src/node.rs:160-170 | every message a valid, sound node sends passes verify, for every draw of coefficients |
| Nodes.SourceSendVerifies | src/node.rs:164-168 | a source node's message has the drawn bytes as coefficients and always passes verify (the debug_assert in send) |
| Nodes.SendIsHonest | src/node.rs:172-188 | a message sent by an honest node is the combination of the original chunks given by its own coefficients |
| Nodes.SourceIsHonest | src/node.rs:89-108 | a source node's chunks are the identity combinations of themselves |
| Nodes.DecodeRow | src/node.rs:196-206 | decoded row i has \|chunks[0]\| entries, entry k being sum_j inverse[i][j] * chunks[j][k] |
| Nodes.DecodeFrom | src/node.rs:196-211 | succeeds exactly when scalars_to_chunk accepts every remaining decoded row, and then returns the concatenation of those rows' byte strings in order |
| Nodes.Decode | src/node.rs:190-212 | fails when inverse fails; succeeds exactly when inverse succeeds and scalars_to_chunk accepts every decoded row, and then returns the concatenation of scalars_to_chunk of decoded rows 0, 1, ... |
| Nodes.DecodeRowRecovers | src/node.rs:196-206 | with a left inverse of the accepted rows and honest chunks, decoded row i is original chunk i |
| Nodes.DecodeRecovers | src/node.rs:190-212 | with a left inverse and honest chunks, decode returns the concatenation of the original chunks' encodings |
| Nodes.RoundTrip | src/node.rs:263-317 | a destination holding honest combinations of a source's chunks decodes, with a left inverse and the 32-byte word writer, to the original block |
| Routing.CreateNodes | src/bin/routing.rs:18-32 | num_nodes nodes with mesh_size neighbours each, every neighbour index < num_nodes (draw mod num_nodes), only node 0 full |
| Routing.NewNetwork | src/bin/routing.rs:34-42 | the nodes are those of create_nodes, the counters start at zero, full_nodes is 1, only node 0 is full, and full_nodes equals the number of full flags |
| Routing.CountFullSet | src/bin/routing.rs:68-74 | setting one non-full flag raises the count of full nodes by one |
| Routing.Round | src/bin/routing.rs:44-75 | timestamp grows by 10; a node is full afterwards iff it was full or is a neighbour j != i of a node i full at the round's start; wasted bandwidth grows by 10 per send from a full node to a different, already-full neighbour; full_nodes stays equal to the number of full flags even when destinations repeat |

## Left out

- Elliptic-curve internals: point encoding and the `multiscalar_mul` algorithm are not modelled. Points are discrete logs. The library's requirement that scalars and points have equal length is a precondition of `Nodes.Verify`. For `Nodes.Receive` it is required only of messages that pass both existing-state checks, since only those reach `verify`.
- Randomness: `rand::thread_rng` in `generators`, `generate_random_coeffs`, `random_u8_slice` and the neighbour choice of `create_nodes` are replaced by parameters.
- `commitments_hash`: SHA-256 (FIPS 180-4) over the bincode serialization is the parameter `hash` of `Nodes.CommitmentsHash`; nothing is proved about it. The bincode round-trip test is not modelled.
- The node's echelon: node.rs imports `crate::matrix::Echelon` with `add_row -> bool`, `is_full`, `inverse` and `compound_scalars`, and imports `scalars_to_chunk` from blocks.rs. None of these is defined in this repository: matrix.rs defines `Eschelon`, whose `add_row` takes u32 rows and returns nothing. `Matrix` models matrix.rs as written. `Nodes` gives the node's echelon an abstract interface:
  - `Nodes.Echelon(size, rows)` holds the accepted coefficient rows.
  - Whether a row is independent is the parameter `independent` of `Nodes.AddRow` and `Nodes.Receive`.
  - `inverse` and `scalars_to_chunk` are the parameters `inverse` and `toChunk` of `Nodes.Decode`.
  - `is_full` is rank == size. `Nodes.DecodeRecovers` and `Nodes.RoundTrip` are conditional on `inverse` returning a left inverse of the accepted rows. `Blocks.ScalarsToBytes` is a concrete left inverse of the word reader, proved by `Blocks.ChunkRoundTrip`.
- Nodes.Receive: a dependent row is assumed to leave the echelon unchanged. Rows of width other than the echelon size are assumed to be rejected (a requirement of `Nodes.ReceivePreservesInvariants`). Neither the dependency test nor its soundness is modelled.
- Nodes.Verify: commitment binding is not modelled. Soundness of verification is the cryptographic discrete-log assumption. Honesty of received messages is therefore a hypothesis of `Nodes.ReceiveKeepsHonest`, not a consequence of `verify`.
- Panics: paths where the Rust code panics are preconditions, not modelled outcomes. These are `unwrap` in `new_source`, division by zero and `chunks(0)` in `block_to_chunks`, out-of-range indexing, `% 0` and `ret[0]` in `create_nodes`, and the equal-length assertion of `multiscalar_mul`. In `receive` that assertion is reached only once `verify` runs, after both existing-state checks have passed.
- Nodes.CompoundScalars: this is an assumption about the echelon's `compound_scalars`, which is not defined in this repository. The model takes the combination of the accepted rows, with `size` entries (one per source chunk). matrix.rs:49-58 returns \|scalars\| entries instead. The two agree on identity rows, the source node's case (`Matrix.CompoundIdentity`, `Nodes.SourceSendVerifies`).
- Blocks.BlockToChunks: states the count, lengths and concatenation of the slices. It does not give an explicit index formula for slice k.
- Matrix.CompoundScalars: models the wrap-around of a release build. A debug build panics on overflow instead.
- Routing.Round: `timestamp` and `wasted_bandwdidth` are u32 and `full_nodes` is usize in the source. They are unbounded here, so u32 overflow is not modelled. In a release build it wraps; in a debug build the `+=` panics. `timestamp` overflows after about 4*10^8 rounds. `wasted_bandwdidth` grows by 10 per wasted send (src/bin/routing.rs:61-62), up to 10 * num_nodes * mesh_size per round, so it can overflow within a few thousand rounds on a large network.
- Console output (`println!`) and the driver loop of `run_simulation` are left out.
- src/c_api.rs (raw-pointer FFI and error codes), the Go binding under rlnc-go/, benches/block_benchmarks.rs (timing) and src/bin/random_topology_rlnc.rs (a random driver of `Node`) are not part of this model.
