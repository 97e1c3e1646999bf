/**
 Merkle commitments over share rows: roots of padded leaf lists, inclusion proofs, and
 what an accepted proof says about the committed row.
 */
module Merkle {
  import opened Prelude
  import opened Bytes
  import opened Shamir
  import opened Trees

  const LEAF_DOMAIN: seq<byte> := Ascii("PYDE_DKG_MERKLE_LEAF_V1\0")
  const NODE_DOMAIN: seq<byte> := Ascii("PYDE_DKG_MERKLE_NODE_V1\0")
  const EMPTY_DOMAIN: seq<byte> := Ascii("PYDE_DKG_MERKLE_EMPTY_V1\0")

  // ---------- Hashed byte strings ----------

  /** The eight-byte little-endian encodings of the values, in order. */
  function ValueBytes(values: seq<nat>): (s: seq<byte>)
    ensures |s| == 8 * |values|
  {
    if values == [] then [] else Le(values[0], 8) + ValueBytes(values[1..])
  }

  function LeafInput(epoch: nat, fromIndex: nat, row: ShareRow): (s: seq<byte>)
    ensures |s| == 104
  {
    LEAF_DOMAIN + Le(epoch, 8) + Le(fromIndex, 4) + Le(row.receiver, 4) + ValueBytes(row.values)
  }

  function EmptyInput(epoch: nat, fromIndex: nat): (s: seq<byte>)
    ensures |s| == 37
  {
    EMPTY_DOMAIN + Le(epoch, 8) + Le(fromIndex, 4)
  }

  function NodeInput(left: Digest, right: Digest): (s: seq<byte>)
    ensures |s| == 88
  {
    NODE_DOMAIN + left + right
  }

  /** How two child hashes become their parent's. */
  function NodeHash(h: Hasher): (Digest, Digest) -> Digest
  {
    (left: Digest, right: Digest) => h(NodeInput(left, right))
  }

  function EmptyHash(h: Hasher, epoch: nat, fromIndex: nat): Digest
  {
    h(EmptyInput(epoch, fromIndex))
  }

  function LeafHash(h: Hasher, epoch: nat, fromIndex: nat, row: ShareRow): Digest
  {
    h(LeafInput(epoch, fromIndex, row))
  }

  lemma {:induction false} NodeInputInjective(a: Digest, b: Digest, c: Digest, d: Digest)
    requires NodeInput(a, b) == NodeInput(c, d)
    ensures a == c && b == d
  {
    var x, y := NodeInput(a, b), NodeInput(c, d);
    assert a == x[24..56] && b == x[56..88] && c == y[24..56] && d == y[56..88];
  }

  /** The fields of a row fit their wire widths. */
  predicate Fits(row: ShareRow)
  {
    row.receiver < U32 && Canonical(U64, row.values)
  }

  lemma {:induction false} ValueBytesInjective(a: seq<nat>, b: seq<nat>)
    requires Canonical(U64, a) && Canonical(U64, b) && |a| == |b| && ValueBytes(a) == ValueBytes(b)
    ensures a == b
  {
    if a != [] {
      assert Le(a[0], 8) == ValueBytes(a)[..8] && Le(b[0], 8) == ValueBytes(b)[..8];
      assert ValueBytes(a[1..]) == ValueBytes(a)[8..] && ValueBytes(b[1..]) == ValueBytes(b)[8..];
      Pow256Widths();
      LeInjective(a[0], b[0], 8);
      ValueBytesInjective(a[1..], b[1..]);
      assert a == [a[0]] + a[1..] && b == [b[0]] + b[1..];
    }
  }

  lemma {:induction false} LeafFields(epoch: nat, fromIndex: nat, row: ShareRow)
    ensures LeafInput(epoch, fromIndex, row)[24..32] == Le(epoch, 8)
    ensures LeafInput(epoch, fromIndex, row)[32..36] == Le(fromIndex, 4)
    ensures LeafInput(epoch, fromIndex, row)[36..40] == Le(row.receiver, 4)
    ensures LeafInput(epoch, fromIndex, row)[40..] == ValueBytes(row.values)
  {
  }

  /** A leaf preimage determines the row and the tree it belongs to. */
  lemma {:induction false} LeafInputInjective(epoch: u64, fromIndex: u32, a: ShareRow, epoch': u64, fromIndex': u32, b: ShareRow)
    requires Fits(a) && Fits(b) && LeafInput(epoch, fromIndex, a) == LeafInput(epoch', fromIndex', b)
    ensures epoch == epoch' && fromIndex == fromIndex' && a == b
  {
    LeafFields(epoch, fromIndex, a);
    LeafFields(epoch', fromIndex', b);
    Pow256Widths();
    LeInjective(epoch, epoch', 8);
    LeInjective(fromIndex, fromIndex', 4);
    LeInjective(a.receiver, b.receiver, 4);
    ValueBytesInjective(a.values, b.values);
  }

  // ---------- Operations ----------

  datatype MerkleProof = MerkleProof(leafIndex: nat, siblings: seq<Digest>)

  ghost function CommittedRoot(h: Hasher, leaves: seq<Digest>, epoch: nat, fromIndex: nat): Digest
  {
    RootOf(NodeHash(h), leaves, EmptyHash(h, epoch, fromIndex))
  }

  ghost predicate Accepts(h: Hasher, root: Digest, leaf: Digest, proof: MerkleProof)
  {
    Climb(NodeHash(h), leaf, proof.leafIndex, proof.siblings) == root
  }

  method ComputeMerkleRoot(h: Hasher, leaves: seq<Digest>, epoch: nat, fromIndex: nat) returns (root: Digest)
    ensures root == CommittedRoot(h, leaves, epoch, fromIndex)
  {
    root := ComputeRoot(NodeHash(h), leaves, EmptyHash(h, epoch, fromIndex));
  }

  method VerifyMerkleProof(h: Hasher, root: Digest, leaf: Digest, proof: MerkleProof) returns (ok: bool)
    ensures ok <==> Accepts(h, root, leaf, proof)
  {
    var cur := Follow(NodeHash(h), leaf, proof.leafIndex, proof.siblings);
    ok := cur == root;
  }

  /** Every generated proof is accepted against the root of the same leaves. */
  method GenerateMerkleProof(h: Hasher, leaves: seq<Digest>, leafIndex: nat, epoch: nat, fromIndex: nat)
    returns (r: Option<MerkleProof>)
    ensures r.None? <==> leafIndex >= |leaves|
    ensures r.Some? ==> r.value.leafIndex == leafIndex && |r.value.siblings| == Depth(|leaves|)
    ensures r.Some? ==> Accepts(h, CommittedRoot(h, leaves, epoch, fromIndex), leaves[leafIndex], r.value)
  {
    if leafIndex >= |leaves| {
      return None;
    }
    var siblings := Siblings(NodeHash(h), leaves, leafIndex, EmptyHash(h, epoch, fromIndex));
    r := Some(MerkleProof(leafIndex, siblings));
  }

  // ---------- Binding ----------

  function LeavesOf(h: Hasher, epoch: nat, fromIndex: nat, rows: seq<ShareRow>): seq<Digest>
  {
    seq(|rows|, i requires 0 <= i < |rows| => LeafHash(h, epoch, fromIndex, rows[i]))
  }

  ghost function NodeInputs(pairs: set<(Digest, Digest)>): set<seq<byte>>
  {
    set a | a in pairs :: NodeInput(a.0, a.1)
  }

  ghost function PaddedRows(h: Hasher, epoch: nat, fromIndex: nat, rows: seq<ShareRow>): (level: seq<Digest>)
    ensures |level| == Pow2(Depth(|rows|))
  {
    Padded(LeavesOf(h, epoch, fromIndex, rows), EmptyHash(h, epoch, fromIndex))
  }

  /** The hash at position `i` of the padded level. */
  ghost function LevelHash(h: Hasher, epoch: nat, fromIndex: nat, rows: seq<ShareRow>, i: nat): Digest
  {
    if i < |rows| then LeafHash(h, epoch, fromIndex, rows[i]) else EmptyHash(h, epoch, fromIndex)
  }

  /** The child pairs hashed for the tree over the rows. */
  ghost function RowPairs(h: Hasher, epoch: nat, fromIndex: nat, rows: seq<ShareRow>): set<(Digest, Digest)>
  {
    TreePairs(NodeHash(h), Depth(|rows|), PaddedRows(h, epoch, fromIndex, rows))
  }

  /** The inputs below the tree: one per row and the padding. */
  ghost function BottomInputs(epoch: nat, fromIndex: nat, rows: seq<ShareRow>): set<seq<byte>>
  {
    (set i: nat | i < |rows| :: LeafInput(epoch, fromIndex, rows[i])) + {EmptyInput(epoch, fromIndex)}
  }

  /** Everything hashed to commit to the rows. */
  ghost function CommitInputs(h: Hasher, epoch: nat, fromIndex: nat, rows: seq<ShareRow>): set<seq<byte>>
  {
    BottomInputs(epoch, fromIndex, rows) + NodeInputs(RowPairs(h, epoch, fromIndex, rows))
  }

  /** Everything hashed to check a row's proof. */
  ghost function CheckInputs(h: Hasher, epoch: nat, fromIndex: nat, row: ShareRow, proof: MerkleProof): set<seq<byte>>
  {
    {LeafInput(epoch, fromIndex, row)}
    + NodeInputs(PathPairs(NodeHash(h), LeafHash(h, epoch, fromIndex, row), proof.leafIndex, proof.siblings))
  }

  ghost function Hashes(h: Hasher, inputs: set<seq<byte>>): set<Digest>
  {
    set x | x in inputs :: h(x)
  }

  /** Without collisions, node hashes differ from each other and from every shorter or longer input's. */
  lemma {:induction false} NodesAreFree(h: Hasher, pairs: set<(Digest, Digest)>, bottom: set<seq<byte>>,
                                        inputs: set<seq<byte>>)
    requires InjectiveOn(h, inputs) && NodeInputs(pairs) <= inputs && bottom <= inputs
    requires forall x :: x in bottom ==> |x| != 88
    ensures Free(NodeHash(h), pairs, Hashes(h, bottom))
  {
    var node := NodeHash(h);
    forall a, b | a in pairs && b in pairs && node(a.0, a.1) == node(b.0, b.1)
      ensures a == b
    {
      assert NodeInput(a.0, a.1) in NodeInputs(pairs) && NodeInput(b.0, b.1) in NodeInputs(pairs);
      NodeInputInjective(a.0, a.1, b.0, b.1);
    }
    forall a | a in pairs
      ensures node(a.0, a.1) !in Hashes(h, bottom)
    {
      assert NodeInput(a.0, a.1) in NodeInputs(pairs);
    }
  }

  /**
   Binding: a row accepted against the root over `rows` belongs to that tree and is the
   row committed at the proof's index modulo the padded size; it is never padding, and
   the proof has exactly one sibling per level.
   */
  lemma {:induction false} AcceptedRowIsCommitted(h: Hasher, epoch: u64, fromIndex: u32, rows: seq<ShareRow>,
                                                  epoch': u64, fromIndex': u32, row: ShareRow, proof: MerkleProof)
    requires Fits(row) && forall i :: 0 <= i < |rows| ==> Fits(rows[i])
    requires InjectiveOn(h, CommitInputs(h, epoch, fromIndex, rows) + CheckInputs(h, epoch', fromIndex', row, proof))
    requires Accepts(h, CommittedRoot(h, LeavesOf(h, epoch, fromIndex, rows), epoch, fromIndex),
                     LeafHash(h, epoch', fromIndex', row), proof)
    ensures epoch' == epoch && fromIndex' == fromIndex && |proof.siblings| == Depth(|rows|)
    ensures proof.leafIndex % Pow2(Depth(|rows|)) < |rows| && rows[proof.leafIndex % Pow2(Depth(|rows|))] == row
  {
    var d, at := Depth(|rows|), Low(proof.leafIndex, Depth(|rows|));
    LeafHashAt(h, epoch, fromIndex, rows, epoch', fromIndex', row, proof);
    LowIsMod(proof.leafIndex, d);
    var bottom := BottomInputs(epoch, fromIndex, rows);
    var x := LeafInput(epoch', fromIndex', row);
    if at < |rows| {
      assert LeafInput(epoch, fromIndex, rows[at]) in bottom;
      assert x == LeafInput(epoch, fromIndex, rows[at]);
      LeafInputInjective(epoch, fromIndex, rows[at], epoch', fromIndex', row);
    }
  }

  lemma {:induction false} LeafHashAt(h: Hasher, epoch: u64, fromIndex: u32, rows: seq<ShareRow>,
                                      epoch': u64, fromIndex': u32, row: ShareRow, proof: MerkleProof)
    requires InjectiveOn(h, CommitInputs(h, epoch, fromIndex, rows) + CheckInputs(h, epoch', fromIndex', row, proof))
    requires Accepts(h, CommittedRoot(h, LeavesOf(h, epoch, fromIndex, rows), epoch, fromIndex),
                     LeafHash(h, epoch', fromIndex', row), proof)
    ensures |proof.siblings| == Depth(|rows|)
    ensures LeafHash(h, epoch', fromIndex', row)
         == LevelHash(h, epoch, fromIndex, rows, Low(proof.leafIndex, Depth(|rows|)))
  {
    var leaf := LeafHash(h, epoch', fromIndex', row);
    var pairs := RowPairs(h, epoch, fromIndex, rows)
               + PathPairs(NodeHash(h), leaf, proof.leafIndex, proof.siblings);
    var bottom := BottomInputs(epoch, fromIndex, rows) + {LeafInput(epoch', fromIndex', row)};
    FreeInputs(h, epoch, fromIndex, rows, epoch', fromIndex', row, proof, pairs, bottom);
    LevelFromBottom(h, epoch, fromIndex, rows);
    PathNamesLeaf(NodeHash(h), Depth(|rows|), PaddedRows(h, epoch, fromIndex, rows), leaf, proof.leafIndex,
                  proof.siblings, pairs, Hashes(h, bottom));
  }

  lemma {:induction false} FreeInputs(h: Hasher, epoch: u64, fromIndex: u32, rows: seq<ShareRow>,
                                      epoch': u64, fromIndex': u32, row: ShareRow, proof: MerkleProof,
                                      pairs: set<(Digest, Digest)>, bottom: set<seq<byte>>)
    requires InjectiveOn(h, CommitInputs(h, epoch, fromIndex, rows) + CheckInputs(h, epoch', fromIndex', row, proof))
    requires pairs == RowPairs(h, epoch, fromIndex, rows)
                    + PathPairs(NodeHash(h), LeafHash(h, epoch', fromIndex', row), proof.leafIndex, proof.siblings)
    requires bottom == BottomInputs(epoch, fromIndex, rows) + {LeafInput(epoch', fromIndex', row)}
    ensures Free(NodeHash(h), pairs, Hashes(h, bottom))
  {
    var ours := RowPairs(h, epoch, fromIndex, rows);
    var theirs := PathPairs(NodeHash(h), LeafHash(h, epoch', fromIndex', row), proof.leafIndex, proof.siblings);
    NodeInputsUnion(ours, theirs);
    NodesAreFree(h, pairs, bottom,
                 CommitInputs(h, epoch, fromIndex, rows) + CheckInputs(h, epoch', fromIndex', row, proof));
  }

  lemma {:induction false} NodeInputsUnion(a: set<(Digest, Digest)>, b: set<(Digest, Digest)>)
    ensures NodeInputs(a + b) == NodeInputs(a) + NodeInputs(b)
  {
  }

  lemma {:induction false} LevelFromBottom(h: Hasher, epoch: nat, fromIndex: nat, rows: seq<ShareRow>)
    ensures forall i :: 0 <= i < Pow2(Depth(|rows|)) ==>
              PaddedRows(h, epoch, fromIndex, rows)[i] == LevelHash(h, epoch, fromIndex, rows, i)
    ensures forall x :: x in PaddedRows(h, epoch, fromIndex, rows) ==>
              x in Hashes(h, BottomInputs(epoch, fromIndex, rows))
  {
    var level, bottom := PaddedRows(h, epoch, fromIndex, rows), BottomInputs(epoch, fromIndex, rows);
    forall i | 0 <= i < |level|
      ensures level[i] == LevelHash(h, epoch, fromIndex, rows, i) && level[i] in Hashes(h, bottom)
    {
      if i < |rows| {
        assert level[i] == LeavesOf(h, epoch, fromIndex, rows)[i];
        assert LeafInput(epoch, fromIndex, rows[i]) in bottom;
      } else {
        assert EmptyInput(epoch, fromIndex) in bottom;
      }
    }
  }
}
