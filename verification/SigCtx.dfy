/** Domain-separated signatures (internal/sigctx). The byte-level half shows that the signing
    input parses back to one (label, message) pair, which is what lets the other modules treat a
    signature as a term carrying its label. */
module SigCtx {
  import opened Common

  type Byte = b: int | 0 <= b < 256

  // ---------------------------------------------------------------- the signing input

  function Pow256(w: nat): nat {
    if w == 0 then 1 else 256 * Pow256(w - 1)
  }

  /** The low w bytes of n, most significant first. */
  function BigEndian(n: nat, w: nat): (r: seq<Byte>)
    ensures |r| == w
  {
    if w == 0 then [] else BigEndian(n / 256, w - 1) + [n % 256]
  }

  function FromBigEndian(b: seq<Byte>): nat {
    if b == [] then 0 else 256 * FromBigEndian(b[..|b| - 1]) + b[|b| - 1]
  }

  /** uint64be(len(ctx)) || ctx || msg. */
  function Message(ctx: seq<Byte>, msg: seq<Byte>): seq<Byte> {
    BigEndian(|ctx|, 8) + ctx + msg
  }

  function Parse(b: seq<Byte>): Option<(seq<Byte>, seq<Byte>)> {
    if |b| < 8 then None
    else
      var n := FromBigEndian(b[..8]);
      if |b| < 8 + n then None else Some((b[8..8 + n], b[8 + n..]))
  }

  lemma {:induction false} BigEndianRoundTrip(n: nat, w: nat)
    requires n < Pow256(w)
    ensures FromBigEndian(BigEndian(n, w)) == n
  {
    if w > 0 {
      BigEndianRoundTrip(n / 256, w - 1);
      var r := BigEndian(n, w);
      assert r[..|r| - 1] == BigEndian(n / 256, w - 1);
    }
  }

  /** The label can never be read as the head of a message, nor a message as the tail of a label. */
  lemma MessageParses(ctx: seq<Byte>, msg: seq<Byte>)
    requires |ctx| < Pow256(8)
    ensures Parse(Message(ctx, msg)) == Some((ctx, msg))
  {
    BigEndianRoundTrip(|ctx|, 8);
    var b := Message(ctx, msg);
    assert b[..8] == BigEndian(|ctx|, 8);
    assert b[8..8 + |ctx|] == ctx;
    assert b[8 + |ctx|..] == msg;
  }

  // ---------------------------------------------------------------- signatures over bytes

  datatype RawSignature = Signed(key: nat, input: seq<Byte>)

  function SignBytes(ctx: seq<Byte>, key: nat, msg: seq<Byte>): RawSignature {
    Signed(key, Message(ctx, msg))
  }

  predicate VerifyBytes(ctx: seq<Byte>, key: nat, msg: seq<Byte>, sig: RawSignature) {
    sig == Signed(key, Message(ctx, msg))
  }

  /** A signature verifies under exactly one label, one key and one message. */
  lemma ContextSeparation(ctx: seq<Byte>, key: nat, msg: seq<Byte>, ctx': seq<Byte>, key': nat, msg': seq<Byte>)
    requires |ctx| < Pow256(8) && |ctx'| < Pow256(8)
    ensures VerifyBytes(ctx', key', msg', SignBytes(ctx, key, msg)) <==> ctx == ctx' && key == key' && msg == msg'
  {
    MessageParses(ctx, msg);
    MessageParses(ctx', msg');
  }

  // ---------------------------------------------------------------- labels and symbolic signatures

  const DELEGATION_HOP := "sanad/delegation-hop/v1"
  const CAPABILITY_BLOCK := "sanad/capability-block/v2"
  const CAPABILITY_SEAL := "sanad/capability-seal/v1"
  const CAPABILITY_HOLDER_PROOF := "sanad/capability-holder-proof/v2"
  const EXCHANGE_TOKEN := "sanad/exchange-token/v1"
  const AUDIT_CHECKPOINT := "sanad/audit-checkpoint/v1"
  const AUDIT_WITNESS := "sanad/audit-witness/v1"

  /** A key of the right length is known by its number; any other byte string is malformed. */
  datatype PublicKey = Key(id: nat) | Malformed(bytes: seq<nat>)

  /** A private key of the right length by the number of its pair; constructors that take one refuse
      anything else. */
  datatype PrivateKey = Secret(id: nat) | WrongSize(bytes: seq<nat>)

  datatype KeyError = InvalidSigningKey

  /** A signature names the label, the private key and the message it was made with; anything
      else that may stand in a signature field is junk. */
  datatype Signature<+M> = Sig(ctx: string, signer: nat, msg: M) | Junk(bytes: seq<nat>)

  predicate Verify<M(==)>(ctx: string, pub: PublicKey, msg: M, sig: Signature<M>) {
    pub.Key? && sig == Sig(ctx, pub.id, msg)
  }
}
