/** The coding node: messages, their homomorphic verification, source nodes that
    split a block and precompute commitments, the four-stage `receive`, `send`
    of a random linear combination and `decode`.

    The echelon type node.rs works with is not part of this model. It is given
    an abstract interface: whether a coefficient row is linearly independent of
    the accepted ones is the parameter `independent`, the inverse of the
    accepted rows is the parameter `inverse`, and `scalars_to_chunk` is the
    parameter `toChunk`. Randomness enters as parameters as well. */
module Nodes {
  import opened Wrappers
  import opened Field
  import opened LinAlg
  import opened Blocks

  /** The transmitted data together with its coding coefficients. */
  datatype Chunk = Chunk(data: Vector, coefficients: Vector)

  /** A coded chunk together with the commitments of the source chunks. */
  datatype Message = Message(chunk: Chunk, commitments: seq<Point>)

  /** node.rs's echelon, seen from the outside: the number of source chunks and
      the coefficient rows accepted so far (each judged independent of the
      earlier ones when it was added). */
  datatype Echelon = Echelon(size: nat, rows: seq<Vector>)

  datatype Node = Node(chunks: seq<Vector>, commitments: seq<Point>, echelon: Echelon, committer: Committer)

  datatype VerifyError = CommitFailed(cause: Blocks.Error) | CommitmentDoesNotMatch

  datatype CommitmentsError = NumberOfCommitmentsDiffers | CommitmentsDoNotMatch

  datatype ChunksError = ChunkSizeDiffers

  datatype ReceiveError =
    | ExistingCommitmentsMismatch(reason: CommitmentsError)
    | ExistingChunksMismatch(sizeReason: ChunksError)
    | InvalidMessage(cause: VerifyError)
    | LinearlyDependentChunk

  datatype SendError = NoChunksToSend

  datatype DecodeError = NotInvertible | ChunkEncodingFailed

  /** Bytes read as field elements (`Scalar::from(u8)`). */
  function ToScalars(s: seq<Byte>): (r: Vector)
    ensures |r| == |s| && forall i :: 0 <= i < |s| ==> r[i] == s[i]
  {
    seq(|s|, i requires 0 <= i < |s| => s[i] as Scalar)
  }

  // ---------------------------------------------------------------------------
  // Message::verify

  /** The homomorphic check on discrete logarithms: the data fits the committer
      and sum_k coefficients[k] * commitments[k] is the commitment to the data. */
  ghost predicate Verifies(msg: Message, committer: Committer)
    requires |msg.chunk.coefficients| == |msg.commitments|
  {
    && |msg.chunk.data| <= Len(committer)
    && Dot(msg.chunk.coefficients, Logs(msg.commitments))
       == Dot(msg.chunk.data, Logs(committer.generators)[..|msg.chunk.data|])
  }

  /** `Message::verify`. The multiscalar product requires as many coefficients
      as commitments. */
  function Verify(msg: Message, committer: Committer): (r: Outcome<VerifyError>)
    requires |msg.chunk.coefficients| == |msg.commitments|
    ensures r.Pass? <==> Verifies(msg, committer)
    ensures r == Fail(CommitFailed(ChunkSizeTooLarge)) <==> |msg.chunk.data| > Len(committer)
  {
    var msm := MultiscalarMul(msg.chunk.coefficients, msg.commitments);
    match Commit(committer, msg.chunk.data)
    case Failure(e) => Fail(CommitFailed(e))
    case Success(commitment) => if msm != commitment then Fail(CommitmentDoesNotMatch) else Pass
  }

  /** `Message::commitments_hash`: the digest is left as the parameter `hash`. */
  function CommitmentsHash(msg: Message, hash: seq<Point> -> seq<Byte>): seq<Byte> {
    hash(msg.commitments)
  }

  // ---------------------------------------------------------------------------
  // Node invariants

  /** Shape invariant kept by every node: one accepted row per stored chunk,
      rows of width `size`, chunks of one length, no commitments before the
      first chunk and `size` of them afterwards. */
  ghost predicate Valid(node: Node) {
    && |node.chunks| == |node.echelon.rows|
    && Rect(node.echelon.rows, node.echelon.size)
    && (|node.chunks| > 0 ==> Rect(node.chunks, |node.chunks[0]|))
    && (|node.chunks| == 0 ==> |node.commitments| == 0)
    && (|node.chunks| > 0 ==> |node.commitments| == node.echelon.size)
  }

  /** Every stored chunk, with its row as coefficients, passes `verify`
      against the stored commitments. */
  ghost predicate Sound(node: Node)
    requires Valid(node)
  {
    forall j :: 0 <= j < |node.chunks| ==>
      Verifies(Message(Chunk(node.chunks[j], node.echelon.rows[j]), node.commitments), node.committer)
  }

  /** The stored chunks are the combinations, given by the accepted rows, of
      the original chunks `orig` (of width w). */
  ghost predicate Honest(node: Node, orig: seq<Vector>, w: nat) {
    && Rect(orig, w)
    && |orig| == node.echelon.size
    && |node.chunks| == |node.echelon.rows|
    && Rect(node.echelon.rows, node.echelon.size)
    && forall j :: 0 <= j < |node.chunks| ==> node.chunks[j] == Combine(node.echelon.rows[j], orig, w)
  }

  /** A message whose data is the combination, by its coefficients, of `orig`. */
  ghost predicate HonestMessage(msg: Message, orig: seq<Vector>, w: nat) {
    && Rect(orig, w)
    && |msg.chunk.coefficients| == |orig|
    && msg.chunk.data == Combine(msg.chunk.coefficients, orig, w)
  }

  // ---------------------------------------------------------------------------
  // Construction

  /** `Node::new`: a destination node with nothing stored. */
  function NewNode(committer: Committer, numChunks: nat): (node: Node)
    ensures node.chunks == [] && node.commitments == []
    ensures node.echelon.size == numChunks && node.echelon.rows == []
    ensures Valid(node) && Sound(node)
    ensures forall orig: seq<Vector>, w: nat :: |orig| == numChunks && Rect(orig, w) ==> Honest(node, orig, w)
  {
    Node([], [], Echelon(numChunks, []), committer)
  }

  /** `Node::new_source`: split the block into `numChunks` chunks, read each
      into scalars and commit to each. Rust unwraps both the word reader and the
      commitment, so a chunk length that is not a multiple of 32 or that has
      more words than generators is excluded. */
  function NewSource(committer: Committer, block: seq<Byte>, numChunks: nat): (r: Result<Node, Blocks.Error>)
    requires numChunks > 0 && |block| > 0
    requires |block| % numChunks == 0 ==>
      (|block| / numChunks) % 32 == 0 && |block| / numChunks / 32 <= Len(committer)
    ensures r.Failure? <==> |block| % numChunks != 0
    ensures r.Failure? ==> r.error == BlockSizeNotDivisibleByNumChunks
    ensures r.Success? ==> |r.value.chunks| == numChunks && |r.value.commitments| == numChunks
    ensures r.Success? ==> forall k :: 0 <= k < numChunks ==>
      Success(r.value.chunks[k]) == ChunkToScalars(BlockToChunks(block, numChunks).value[k])
    ensures r.Success? ==> forall k :: 0 <= k < numChunks ==>
      Success(r.value.commitments[k]) == Commit(committer, r.value.chunks[k])
    ensures r.Success? ==> r.value.committer == committer
    ensures r.Success? ==> r.value.echelon == Echelon(numChunks, IdentityRows(numChunks))
    ensures r.Success? ==> Valid(r.value) && Sound(r.value)
  {
    var parts :- BlockToChunks(block, numChunks);
    var chunks := seq(numChunks, k requires 0 <= k < numChunks => ChunkToScalars(parts[k]).value);
    var commitments := seq(numChunks, k requires 0 <= k < numChunks => Commit(committer, chunks[k]).value);
    var node := Node(chunks, commitments, Echelon(numChunks, IdentityRows(numChunks)), committer);
    SourceIsSound(node);
    Success(node)
  }

  /** A node holding the identity rows and, for each chunk, its own commitment is sound. */
  lemma SourceIsSound(node: Node)
    requires |node.chunks| > 0
    requires node.echelon == Echelon(|node.chunks|, IdentityRows(|node.chunks|))
    requires Rect(node.chunks, |node.chunks[0]|) && |node.commitments| == |node.chunks|
    requires forall k :: 0 <= k < |node.chunks| ==> Success(node.commitments[k]) == Commit(node.committer, node.chunks[k])
    ensures Valid(node) && Sound(node)
  {
    var n := |node.chunks|;
    forall j | 0 <= j < n
      ensures Verifies(Message(Chunk(node.chunks[j], node.echelon.rows[j]), node.commitments), node.committer)
    {
      DotUnit(j, Logs(node.commitments));
    }
  }

  // ---------------------------------------------------------------------------
  // The echelon interface

  /** `add_row` of node.rs's echelon: stores the row exactly when `independent`
      judges it independent of the accepted rows; otherwise nothing changes. */
  function AddRow(e: Echelon, row: Vector, independent: (seq<Vector>, Vector) -> bool): (r: (bool, Echelon))
    ensures r.0 == independent(e.rows, row)
    ensures r.1.size == e.size
    ensures r.0 ==> r.1.rows == e.rows + [row]
    ensures !r.0 ==> r.1 == e
  {
    if independent(e.rows, row) then (true, Echelon(e.size, e.rows + [row])) else (false, e)
  }

  /** `Node::is_full`: the rank (one accepted row per stored chunk) has reached
      the number of source chunks. */
  function IsFull(node: Node): (full: bool)
    requires Valid(node)
    ensures full <==> |node.chunks| == node.echelon.size
  {
    |node.echelon.rows| == node.echelon.size
  }

  // ---------------------------------------------------------------------------
  // receive

  /** `check_existing_commitments`: stored commitments, if any, must equal the
      message's, checked first by count and then by value. */
  function CheckExistingCommitments(node: Node, commitments: seq<Point>): (r: Outcome<CommitmentsError>)
    ensures r.Pass? <==> |node.commitments| == 0 || node.commitments == commitments
    ensures r == Fail(NumberOfCommitmentsDiffers) <==> |node.commitments| > 0 && |node.commitments| != |commitments|
  {
    if |node.commitments| > 0 then
      if |node.commitments| != |commitments| then Fail(NumberOfCommitmentsDiffers)
      else if node.commitments != commitments then Fail(CommitmentsDoNotMatch)
      else Pass
    else Pass
  }

  /** `check_existing_chunks`: a stored first chunk fixes the data length. */
  function CheckExistingChunks(node: Node, chunk: Chunk): (r: Outcome<ChunksError>)
    ensures r.Pass? <==> |node.chunks| == 0 || |node.chunks[0]| == |chunk.data|
  {
    if |node.chunks| > 0 && |node.chunks[0]| != |chunk.data| then Fail(ChunkSizeDiffers) else Pass
  }

  ghost predicate CommitmentsAgree(node: Node, msg: Message) {
    |node.commitments| == 0 || node.commitments == msg.commitments
  }

  ghost predicate ChunkSizeAgrees(node: Node, msg: Message) {
    |node.chunks| == 0 || |node.chunks[0]| == |msg.chunk.data|
  }

  /** `Node::receive`: the four checks in order, then the message's data is
      stored and its commitments adopted if none were stored. Every failure
      leaves the node as it was. */
  function Receive(node: Node, msg: Message, independent: (seq<Vector>, Vector) -> bool): (r: (Outcome<ReceiveError>, Node))
    requires CommitmentsAgree(node, msg) && ChunkSizeAgrees(node, msg) ==> |msg.chunk.coefficients| == |msg.commitments|
    ensures r.0.Fail? ==> r.1 == node
    ensures (r.0.Fail? && r.0.error.ExistingCommitmentsMismatch?) <==> !CommitmentsAgree(node, msg)
    ensures (r.0.Fail? && r.0.error.ExistingChunksMismatch?) <==>
      CommitmentsAgree(node, msg) && !ChunkSizeAgrees(node, msg)
    ensures (r.0.Fail? && r.0.error.InvalidMessage?) <==>
      CommitmentsAgree(node, msg) && ChunkSizeAgrees(node, msg) && !Verifies(msg, node.committer)
    ensures r.0 == Fail(LinearlyDependentChunk) <==>
      CommitmentsAgree(node, msg) && ChunkSizeAgrees(node, msg) && Verifies(msg, node.committer)
      && !independent(node.echelon.rows, msg.chunk.coefficients)
    ensures r.0.Pass? <==>
      CommitmentsAgree(node, msg) && ChunkSizeAgrees(node, msg) && Verifies(msg, node.committer)
      && independent(node.echelon.rows, msg.chunk.coefficients)
    ensures r.0.Pass? ==> r.1.chunks == node.chunks + [msg.chunk.data]
    ensures r.0.Pass? ==> r.1.echelon == Echelon(node.echelon.size, node.echelon.rows + [msg.chunk.coefficients])
    ensures r.0.Pass? ==> r.1.commitments == if |node.commitments| == 0 then msg.commitments else node.commitments
    ensures r.1.committer == node.committer
    ensures |node.commitments| > 0 ==> r.1.commitments == node.commitments
  {
    match CheckExistingCommitments(node, msg.commitments)
    case Fail(e) => (Fail(ExistingCommitmentsMismatch(e)), node)
    case Pass =>
      match CheckExistingChunks(node, msg.chunk)
      case Fail(e) => (Fail(ExistingChunksMismatch(e)), node)
      case Pass =>
        match Verify(msg, node.committer)
        case Fail(e) => (Fail(InvalidMessage(e)), node)
        case Pass =>
          var (added, echelon) := AddRow(node.echelon, msg.chunk.coefficients, independent);
          if !added then (Fail(LinearlyDependentChunk), node)
          else
            var commitments := if |node.commitments| == 0 then msg.commitments else node.commitments;
            (Pass, Node(node.chunks + [msg.chunk.data], commitments, echelon, node.committer))
  }

  /** `receive` keeps every stored chunk at the length of the first one. */
  lemma ReceiveKeepsChunkLengths(node: Node, msg: Message, independent: (seq<Vector>, Vector) -> bool)
    requires CommitmentsAgree(node, msg) && ChunkSizeAgrees(node, msg) ==> |msg.chunk.coefficients| == |msg.commitments|
    requires |node.chunks| > 0 ==> Rect(node.chunks, |node.chunks[0]|)
    ensures var after := Receive(node, msg, independent).1;
            |after.chunks| > 0 ==> Rect(after.chunks, |after.chunks[0]|)
  {
  }

  /** `receive` preserves the shape invariant and soundness, provided the
      echelon only accepts rows of width `size`. */
  lemma ReceivePreservesInvariants(node: Node, msg: Message, independent: (seq<Vector>, Vector) -> bool)
    requires CommitmentsAgree(node, msg) && ChunkSizeAgrees(node, msg) ==> |msg.chunk.coefficients| == |msg.commitments|
    requires Valid(node) && Sound(node)
    requires independent(node.echelon.rows, msg.chunk.coefficients) ==>
      |msg.chunk.coefficients| == node.echelon.size
    ensures Valid(Receive(node, msg, independent).1)
    ensures Sound(Receive(node, msg, independent).1)
  {
    var (status, after) := Receive(node, msg, independent);
    if status.Pass? {
      var n := |node.chunks|;
      assert after.commitments == msg.commitments;
      forall j | 0 <= j < |after.chunks|
        ensures Verifies(Message(Chunk(after.chunks[j], after.echelon.rows[j]), after.commitments), after.committer)
      {
        if j < n {
          assert after.chunks[j] == node.chunks[j] && after.echelon.rows[j] == node.echelon.rows[j];
          assert Verifies(Message(Chunk(node.chunks[j], node.echelon.rows[j]), node.commitments), node.committer);
        } else {
          assert after.chunks[j] == msg.chunk.data && after.echelon.rows[j] == msg.chunk.coefficients;
        }
      }
    }
  }

  /** Receiving an honest message keeps the node honest. */
  lemma ReceiveKeepsHonest(node: Node, msg: Message, independent: (seq<Vector>, Vector) -> bool, orig: seq<Vector>, w: nat)
    requires CommitmentsAgree(node, msg) && ChunkSizeAgrees(node, msg) ==> |msg.chunk.coefficients| == |msg.commitments|
    requires Honest(node, orig, w) && HonestMessage(msg, orig, w)
    requires independent(node.echelon.rows, msg.chunk.coefficients) ==>
      |msg.chunk.coefficients| == node.echelon.size
    ensures Honest(Receive(node, msg, independent).1, orig, w)
  {
    var (status, after) := Receive(node, msg, independent);
    if status.Pass? {
      forall j | 0 <= j < |after.chunks|
        ensures after.chunks[j] == Combine(after.echelon.rows[j], orig, w)
      {
        if j < |node.chunks| {
          assert after.chunks[j] == node.chunks[j] && after.echelon.rows[j] == node.echelon.rows[j];
        }
      }
    }
  }

  // ---------------------------------------------------------------------------
  // send

  /** node.rs's `compound_scalars` over the accepted rows: the coding vector of a
      combination of the stored chunks, as a combination of the source chunks. */
  function CompoundScalars(e: Echelon, scalars: Vector): (r: Vector)
    requires |scalars| == |e.rows| && Rect(e.rows, e.size)
    ensures |r| == e.size
    ensures forall j :: 0 <= j < e.size ==> r[j] == Dot(scalars, Column(e.rows, j))
  {
    var r := Combine(scalars, e.rows, e.size);
    forall j | 0 <= j < e.size
      ensures r[j] == Dot(scalars, Column(e.rows, j))
    {
      CombineAt(scalars, e.rows, e.size, j);
    }
    r
  }

  /** `linear_comb_data`: entry i is sum_k scalars[k] * chunks[k][i]. */
  function LinearCombData(node: Node, scalars: Vector): (data: Vector)
    requires Valid(node) && |node.chunks| > 0 && |scalars| == |node.chunks|
    ensures |data| == |node.chunks[0]|
    ensures forall i :: 0 <= i < |data| ==> data[i] == Dot(scalars, Column(node.chunks, i))
  {
    var w := |node.chunks[0]|;
    var data := Combine(scalars, node.chunks, w);
    forall i | 0 <= i < w
      ensures data[i] == Dot(scalars, Column(node.chunks, i))
    {
      CombineAt(scalars, node.chunks, w, i);
    }
    data
  }

  /** `linear_comb_chunk`: the combined data with its compound coefficients. */
  function LinearCombChunk(node: Node, scalars: Vector): (chunk: Chunk)
    requires Valid(node) && |node.chunks| > 0 && |scalars| == |node.chunks|
    ensures |chunk.data| == |node.chunks[0]|
    ensures forall i :: 0 <= i < |node.chunks[0]| ==> chunk.data[i] == Dot(scalars, Column(node.chunks, i))
    ensures |chunk.coefficients| == node.echelon.size
    ensures forall j :: 0 <= j < node.echelon.size ==>
      chunk.coefficients[j] == Dot(scalars, Column(node.echelon.rows, j))
  {
    Chunk(LinearCombData(node, scalars), CompoundScalars(node.echelon, scalars))
  }

  /** `Node::send`, with the random coefficient bytes as the parameter `scalars`. */
  function Send(node: Node, scalars: seq<Byte>): (r: Result<Message, SendError>)
    requires Valid(node) && |scalars| == |node.chunks|
    ensures r.Failure? <==> |node.chunks| == 0
    ensures r.Success? ==> r.value.commitments == node.commitments
    ensures r.Success? ==> |r.value.chunk.data| == |node.chunks[0]|
    ensures r.Success? ==> forall i :: 0 <= i < |node.chunks[0]| ==>
      r.value.chunk.data[i] == Dot(ToScalars(scalars), Column(node.chunks, i))
    ensures r.Success? ==> |r.value.chunk.coefficients| == node.echelon.size
    ensures r.Success? ==> forall j :: 0 <= j < node.echelon.size ==>
      r.value.chunk.coefficients[j] == Dot(ToScalars(scalars), Column(node.echelon.rows, j))
  {
    if |node.chunks| == 0 then Failure(NoChunksToSend)
    else Success(Message(LinearCombChunk(node, ToScalars(scalars)), node.commitments))
  }

  /** Every message a valid, sound node sends passes `verify`: the coefficient
      side and the data side of the check are the same combination of the
      stored chunks' verified commitments. */
  lemma SendVerifies(node: Node, scalars: seq<Byte>)
    requires Valid(node) && Sound(node)
    requires |node.chunks| > 0 && |scalars| == |node.chunks|
    ensures Send(node, scalars).Success?
    ensures |Send(node, scalars).value.chunk.coefficients| == |Send(node, scalars).value.commitments|
    ensures Verify(Send(node, scalars).value, node.committer) == Pass
  {
    var s := ToScalars(scalars);
    var msg := Send(node, scalars).value;
    var rows := node.echelon.rows;
    var w := |node.chunks[0]|;
    var g := Logs(node.committer.generators)[..w];
    var logs := Logs(node.commitments);
    assert msg.chunk.coefficients == Combine(s, rows, |logs|);
    assert msg.chunk.data == Combine(s, node.chunks, |g|);
    DotCombine(s, rows, logs);
    DotCombine(s, node.chunks, g);
    forall k | 0 <= k < |rows|
      ensures Dots(rows, logs)[k] == Dots(node.chunks, g)[k]
    {
      assert Verifies(Message(Chunk(node.chunks[k], rows[k]), node.commitments), node.committer);
    }
    assert Dots(rows, logs) == Dots(node.chunks, g);
  }

  /** The property behind the `debug_assert` in `send`: whatever coefficient
      bytes are drawn, a message from a source node verifies, and its coding
      vector is exactly the drawn bytes. */
  lemma SourceSendVerifies(committer: Committer, block: seq<Byte>, numChunks: nat, scalars: seq<Byte>)
    requires numChunks > 0 && |block| > 0 && |block| % numChunks == 0
    requires (|block| / numChunks) % 32 == 0 && |block| / numChunks / 32 <= Len(committer)
    requires |scalars| == numChunks
    ensures NewSource(committer, block, numChunks).Success?
    ensures Send(NewSource(committer, block, numChunks).value, scalars).Success?
    ensures Send(NewSource(committer, block, numChunks).value, scalars).value.chunk.coefficients == ToScalars(scalars)
    ensures Verify(Send(NewSource(committer, block, numChunks).value, scalars).value, committer) == Pass
  {
    var node := NewSource(committer, block, numChunks).value;
    SendVerifies(node, scalars);
    CombineIdentity(ToScalars(scalars));
  }

  /** A message sent by an honest node is honest: its data is the combination
      of the original chunks given by its compound coefficients. */
  lemma SendIsHonest(node: Node, scalars: seq<Byte>, orig: seq<Vector>)
    requires Valid(node) && |node.chunks| > 0 && |scalars| == |node.chunks|
    requires Honest(node, orig, |node.chunks[0]|)
    ensures HonestMessage(Send(node, scalars).value, orig, |node.chunks[0]|)
  {
    var w := |node.chunks[0]|;
    var s := ToScalars(scalars);
    assert node.chunks == CombineEach(node.echelon.rows, orig, w);
    CombineAssoc(s, node.echelon.rows, orig, w);
  }

  /** A source node is honest with respect to its own chunks. */
  lemma SourceIsHonest(committer: Committer, block: seq<Byte>, numChunks: nat)
    requires numChunks > 0 && |block| > 0 && |block| % numChunks == 0
    requires (|block| / numChunks) % 32 == 0 && |block| / numChunks / 32 <= Len(committer)
    ensures NewSource(committer, block, numChunks).Success?
    ensures var node := NewSource(committer, block, numChunks).value;
            Honest(node, node.chunks, |node.chunks[0]|)
  {
    var node := NewSource(committer, block, numChunks).value;
    forall j | 0 <= j < numChunks
      ensures node.chunks[j] == Combine(node.echelon.rows[j], node.chunks, |node.chunks[0]|)
    {
      CombineUnit(j, node.chunks, |node.chunks[0]|);
    }
  }

  // ---------------------------------------------------------------------------
  // decode

  /** What the code needs of a successful `inverse`: a square matrix no larger
      than the number of stored chunks, and at least one stored chunk. */
  ghost predicate InverseShaped(node: Node, inverse: seq<Vector> -> Option<seq<Vector>>) {
    inverse(node.echelon.rows).Some? ==>
      var m := inverse(node.echelon.rows).value;
      && |node.chunks| > 0
      && |m| <= |node.chunks|
      && Rect(m, |m|)
  }

  /** Row i of the inverse applied to the stored chunks. */
  function DecodeRow(node: Node, m: seq<Vector>, i: nat): (row: Vector)
    requires Valid(node) && |node.chunks| > 0 && |m| <= |node.chunks| && Rect(m, |m|) && i < |m|
    ensures |row| == |node.chunks[0]|
    ensures forall k :: 0 <= k < |row| ==> row[k] == Dot(m[i], Column(node.chunks[..|m|], k))
  {
    var w := |node.chunks[0]|;
    var row := Combine(m[i], node.chunks[..|m|], w);
    forall k | 0 <= k < w
      ensures row[k] == Dot(m[i], Column(node.chunks[..|m|], k))
    {
      CombineAt(m[i], node.chunks[..|m|], w, k);
    }
    row
  }

  /** The byte strings of decoded rows i.. of a decode in which `toChunk`
      accepts every one of them. */
  ghost function DecodedChunks(node: Node, m: seq<Vector>, toChunk: Vector -> Option<seq<Byte>>, i: nat): seq<seq<Byte>>
    requires Valid(node) && |node.chunks| > 0 && |m| <= |node.chunks| && Rect(m, |m|) && i <= |m|
    requires forall k :: i <= k < |m| ==> toChunk(DecodeRow(node, m, k)).Some?
  {
    seq(|m| - i, k requires 0 <= k < |m| - i => toChunk(DecodeRow(node, m, i + k)).value)
  }

  /** The rows from i on, each turned into bytes, concatenated; the first row
      `toChunk` rejects fails the whole decode. */
  function DecodeFrom(node: Node, m: seq<Vector>, toChunk: Vector -> Option<seq<Byte>>, i: nat): (r: Result<seq<Byte>, DecodeError>)
    requires Valid(node) && |node.chunks| > 0 && |m| <= |node.chunks| && Rect(m, |m|) && i <= |m|
    ensures r.Success? <==> forall k :: i <= k < |m| ==> toChunk(DecodeRow(node, m, k)).Some?
    ensures r.Failure? ==> r.error == ChunkEncodingFailed
    ensures r.Success? ==> r.value == Concat(DecodedChunks(node, m, toChunk, i))
    decreases |m| - i
  {
    if i == |m| then Success([])
    else
      match toChunk(DecodeRow(node, m, i))
      case None => Failure(ChunkEncodingFailed)
      case Some(bytes) =>
        var rest :- DecodeFrom(node, m, toChunk, i + 1);
        assert DecodedChunks(node, m, toChunk, i)[1..] == DecodedChunks(node, m, toChunk, i + 1);
        Success(bytes + rest)
  }

  /** `Node::decode`: invert the accepted rows, apply the inverse to the stored
      chunks and turn each resulting row back into bytes. */
  function Decode(node: Node, inverse: seq<Vector> -> Option<seq<Vector>>, toChunk: Vector -> Option<seq<Byte>>): (r: Result<seq<Byte>, DecodeError>)
    requires Valid(node) && InverseShaped(node, inverse)
    ensures inverse(node.echelon.rows).None? ==> r == Failure(NotInvertible)
    ensures r.Success? <==>
      inverse(node.echelon.rows).Some? &&
      forall i :: 0 <= i < |inverse(node.echelon.rows).value| ==>
        toChunk(DecodeRow(node, inverse(node.echelon.rows).value, i)).Some?
    ensures r.Success? ==> r.value == Concat(DecodedChunks(node, inverse(node.echelon.rows).value, toChunk, 0))
  {
    match inverse(node.echelon.rows)
    case None => Failure(NotInvertible)
    case Some(m) => DecodeFrom(node, m, toChunk, 0)
  }

  /** `m` is a left inverse of `rows`: row i of m combines the rows into e_i. */
  ghost predicate IsLeftInverse(m: seq<Vector>, rows: seq<Vector>) {
    && Rect(rows, |rows|)
    && |m| == |rows| && Rect(m, |rows|)
    && forall i :: 0 <= i < |m| ==> Combine(m[i], rows, |rows|) == Unit(|rows|, i)
  }

  /** With a left inverse, row i of the decode is original chunk i. */
  lemma DecodeRowRecovers(node: Node, orig: seq<Vector>, m: seq<Vector>, i: nat)
    requires Valid(node) && |node.chunks| > 0
    requires Honest(node, orig, |node.chunks[0]|) && |orig| == |node.chunks|
    requires IsLeftInverse(m, node.echelon.rows) && i < |m|
    ensures DecodeRow(node, m, i) == orig[i]
  {
    var w := |node.chunks[0]|;
    var rows := node.echelon.rows;
    assert node.chunks[..|m|] == node.chunks == CombineEach(rows, orig, w);
    CombineAssoc(m[i], rows, orig, w);
    CombineUnit(i, orig, w);
  }

  lemma {:induction false} DecodeFromRecovers(node: Node, orig: seq<Vector>, m: seq<Vector>,
                                              toChunk: Vector -> Option<seq<Byte>>, bytes: seq<seq<Byte>>, i: nat)
    requires Valid(node) && |node.chunks| > 0
    requires Honest(node, orig, |node.chunks[0]|) && |orig| == |node.chunks|
    requires IsLeftInverse(m, node.echelon.rows) && i <= |m|
    requires |bytes| == |orig| && forall k :: 0 <= k < |orig| ==> toChunk(orig[k]) == Some(bytes[k])
    ensures DecodeFrom(node, m, toChunk, i) == Success(Concat(bytes[i..]))
    decreases |m| - i
  {
    if i < |m| {
      DecodeRowRecovers(node, orig, m, i);
      DecodeFromRecovers(node, orig, m, toChunk, bytes, i + 1);
      assert bytes[i..][1..] == bytes[i + 1..];
    }
  }

  /** Decode correctness: when the stored chunks are combinations of the
      original chunks by the accepted rows, `inverse` yields a left inverse of
      those rows and `toChunk` encodes each original chunk, `decode` returns
      the concatenation of the encodings. */
  lemma DecodeRecovers(node: Node, orig: seq<Vector>, inverse: seq<Vector> -> Option<seq<Vector>>,
                       toChunk: Vector -> Option<seq<Byte>>, bytes: seq<seq<Byte>>)
    requires Valid(node) && |node.chunks| > 0
    requires Honest(node, orig, |node.chunks[0]|) && |orig| == |node.chunks|
    requires inverse(node.echelon.rows).Some? && IsLeftInverse(inverse(node.echelon.rows).value, node.echelon.rows)
    requires |bytes| == |orig| && forall k :: 0 <= k < |orig| ==> toChunk(orig[k]) == Some(bytes[k])
    ensures InverseShaped(node, inverse)
    ensures Decode(node, inverse, toChunk) == Success(Concat(bytes))
  {
    DecodeFromRecovers(node, orig, inverse(node.echelon.rows).value, toChunk, bytes, 0);
  }

  /** The round trip of the protocol: a full destination node whose chunks are
      honest combinations of a source's chunks decodes, with a left inverse and
      the 32-byte word writer, to the original block. */
  lemma RoundTrip(committer: Committer, block: seq<Byte>, numChunks: nat, dest: Node,
                  inverse: seq<Vector> -> Option<seq<Vector>>)
    requires numChunks > 0 && |block| > 0 && |block| % numChunks == 0
    requires (|block| / numChunks) % 32 == 0 && |block| / numChunks / 32 <= Len(committer)
    requires forall k :: 0 <= k < numChunks ==> WellFormedChunk(BlockToChunks(block, numChunks).value[k])
    requires NewSource(committer, block, numChunks).Success?
    requires Valid(dest) && |dest.chunks| == numChunks
    requires Honest(dest, NewSource(committer, block, numChunks).value.chunks, |block| / numChunks / 32)
    requires inverse(dest.echelon.rows).Some? && IsLeftInverse(inverse(dest.echelon.rows).value, dest.echelon.rows)
    ensures InverseShaped(dest, inverse)
    ensures Decode(dest, inverse, v => Some(ScalarsToBytes(v))) == Success(block)
  {
    var source := NewSource(committer, block, numChunks).value;
    var parts := BlockToChunks(block, numChunks).value;
    var orig := source.chunks;
    var bytes := seq(numChunks, k requires 0 <= k < numChunks => ScalarsToBytes(orig[k]));
    forall k | 0 <= k < numChunks
      ensures bytes[k] == parts[k]
    {
      ChunkRoundTrip(parts[k]);
    }
    assert bytes == parts;
    assert |dest.chunks[0]| == |block| / numChunks / 32 by {
      assert dest.chunks[0] == Combine(dest.echelon.rows[0], orig, |block| / numChunks / 32);
    }
    DecodeRecovers(dest, orig, inverse, v => Some(ScalarsToBytes(v)), bytes);
  }
}
