/** The values the engine works on: transactions and votes. */
module Types {

  type Hash = nat
  type ID = nat
  type Label = string

  datatype Option<+T> = None | Some(value: T)

  datatype Tx = Tx(bytes: string, hash: Hash, lbl: Label)

  /**
   `digest` is the value of the vote's Hash(). It is a field so that every
   theorem is about every possible hash function: nothing is assumed of
   SHA-256, not even injectivity. The timestamp only feeds the digest.
   Where a theorem says that some votes lead somewhere, it is stated for an
   arbitrary hash function and votes whose digests are its values.
   */
  datatype Vote = Vote(pubkey: ID, lbl: Label, seqNo: nat, txHash: Hash, prevHash: Hash, digest: Hash)

  /** A vote whose digest is the hash of its content. */
  predicate Hashed(hash: Vote -> Hash, v: Vote) {
    v.digest == hash(v.(digest := 0))
  }

  predicate AllHashed(hash: Vote -> Hash, ws: seq<Vote>) {
    forall i :: 0 <= i < |ws| ==> Hashed(hash, ws[i])
  }

  /** The vote with this content. */
  function MakeVote(hash: Vote -> Hash, id: ID, l: Label, n: nat, h: Hash, prevHash: Hash): (v: Vote)
    ensures Hashed(hash, v)
  {
    var content := Vote(id, l, n, h, prevHash, 0);
    content.(digest := hash(content))
  }
}
