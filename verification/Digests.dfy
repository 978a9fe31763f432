/** Symbolic SHA-256 over byte strings. A byte is a literal or one of the 32 bytes of a digest,
    which remembers what was hashed; so two digests are equal exactly when the same bytes went in
    (collision resistance read as injectivity), and a hash of two strings put together does not
    say where the first one ended. */
module Digests {
  import opened Common

  datatype Drift = Drift(
    status: string, mode: string, blocked: bool, approved: string, observed: string,
    tools: seq<string>, page: bool)

  /** The entry fields the hash chain covers, after the decision has been flattened. */
  datatype Content = Content(
    at: int, action: string, reason: string, server: string, principal: string,
    agent: string, passportId: string, delegation: seq<string>,
    effect: string, decisionReason: string, drift: Option<Drift>)

  datatype SymByte = Lit(n: nat) | Of(pre: Preimage, i: nat)

  type Bytes = seq<SymByte>

  /** What is hashed: no bytes, bytes after a first byte 0 or 1, or a previous hash followed by an
      entry's JSON object. That object starts where its opening brace and first key stand, so there
      the split is not in doubt. */
  datatype Preimage =
    | Nothing
    | After0(bytes: seq<SymByte>)
    | After1(bytes: seq<SymByte>)
    | Chained(prev: seq<SymByte>, content: Content)

  const HASH_SIZE := 32

  function Sha256(p: Preimage): (h: Bytes)
    ensures |h| == HASH_SIZE
  {
    seq(HASH_SIZE, i requires 0 <= i => Of(p, i))
  }

  lemma Sha256Injective(p: Preimage, q: Preimage)
    requires Sha256(p) == Sha256(q)
    ensures p == q
  {
    assert Sha256(p)[0] == Of(p, 0) && Sha256(q)[0] == Of(q, 0);
  }
}
