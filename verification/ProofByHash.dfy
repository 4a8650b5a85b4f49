/** `get_proof_by_hash`: from a leaf hash to an audit path. */
module ProofByHash {
  import opened Bits
  import opened TreeMath
  import opened Rfc6962
  import opened Inclusion
  import opened LogStore
  import opened CtStorageModel

  datatype ProofResponse = Proof(index: nat, path: seq<Digest>) | LeafNotFound | ProofError

  /** In every reachable state: a path is served exactly for the hash of a leaf below a published
      size, and it leads the verifier from that hash to the root of that size. */
  method GetProofByHash(storage: CtStorage, d: Digest, n: u64) returns (r: ProofResponse)
    requires storage.Valid()
    modifies storage.tree`cache
    ensures storage.Valid()
    ensures r.Proof? <==>
              n in storage.tree.published
              && exists i: nat :: i < n && i < |storage.tree.leaves| && LeafHash(storage.env.h, storage.tree.leaves[i]) == d
    ensures r.LeafNotFound? <==>
              !exists i: nat :: i < n && i < |storage.tree.leaves| && LeafHash(storage.env.h, storage.tree.leaves[i]) == d
    ensures r.Proof? ==>
              r.index < n <= |storage.tree.leaves| && InTree(2 * r.index, n)
              && r.path == PATH(storage.env.h, r.index, storage.tree.leaves[..n])
              && |r.path| == |PathUp(2 * r.index, n)|
              && FoldUp(storage.env.h, 2 * r.index, n, d, r.path) == MTH(storage.env.h, storage.tree.leaves[..n])
  {
    hide LogInv, InTree, PathUp, FoldUp, PATH, MTH, LeafHash;
    var found := storage.FindIndexByHash(d);
    if found.Err? {
      return ProofError;
    }
    if found.value.None? || found.value.value >= n {
      return LeafNotFound;
    }
    LogSize(storage.env, storage.tree.State(), storage.log);
    var path := storage.tree.ProveInclusionAtSize(found.value.value, n);
    if path.Err? {
      return ProofError;
    }
    r := Proof(found.value.value, path.value);
  }
}
