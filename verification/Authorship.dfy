/**
 Signed manifests: only the creator can sign a version of the tree, and anybody
 with the link can tell.

 The signature scheme itself (Ed25519, section 5.1 of RFC 8032) is a predicate;
 `Unforgeable` states what is assumed of it.
 */
module Authorship {
  import opened Wrappers
  import opened Codec

  const SIGNATURE_LEN: nat := 64
  const PREFIX_LEN: nat := 8 + SIGNATURE_LEN

  /** The ASCII text "agent-share/manifest/v1". */
  const CONTEXT: Bytes := [97, 103, 101, 110, 116, 45, 115, 104, 97, 114, 101, 47,
                           109, 97, 110, 105, 102, 101, 115, 116, 47, 118, 49]

  /** A public key, as the check it performs on (payload, signature). */
  datatype PublicKey = PublicKey(verifies: (Bytes, Bytes) -> bool)

  datatype SignedManifest = SignedManifest(version: nat, signature: Bytes, manifest: Bytes)

  /** What the creator actually signs. */
  function SignedPayload(version: nat, manifest: Bytes): Bytes {
    CONTEXT + (U64().encode(version) + manifest)
  }

  /** The set of versions a creator published, as (version, manifest bytes). */
  type Published = iset<(nat, Bytes)>

  ghost predicate WellNumbered(published: Published) {
    forall p :: p in published ==> U64().valid(p.0)
  }

  /** Nothing verifies under the key except what the creator signed with it. */
  ghost predicate Unforgeable(author: PublicKey, published: Published) {
    && WellNumbered(published)
    && forall payload, signature :: author.verifies(payload, signature) ==>
         exists p :: p in published && payload == SignedPayload(p.0, p.1)
  }

  /** The creator never signs two different manifests under one version. */
  ghost predicate OnePerVersion(published: Published) {
    forall p, q :: p in published && q in published && p.0 == q.0 ==> p.1 == q.1
  }

  function Encode(s: SignedManifest): Bytes {
    U64().encode(s.version) + s.signature + s.manifest
  }

  function Decode(b: Bytes): Option<SignedManifest> {
    if |b| < PREFIX_LEN then None else
    match U64().decode(b)
    case None => None
    case Some((version, _)) => Some(SignedManifest(version, b[8..PREFIX_LEN], b[PREFIX_LEN..]))
  }

  /** Signed by the author, and no older than what was seen already. */
  predicate Accepts(author: PublicKey, s: SignedManifest, seen: nat) {
    && seen <= s.version
    && author.verifies(SignedPayload(s.version, s.manifest), s.signature)
  }

  lemma VersionWidth(version: nat)
    ensures |U64().encode(version)| == 8
  {
  }

  /** The envelope is canonical both ways: it loses nothing, and every body long
      enough to be one is the envelope of what it decodes to. */
  lemma EnvelopeIsCanonical(s: SignedManifest, b: Bytes)
    ensures U64().valid(s.version) && |s.signature| == SIGNATURE_LEN ==> Decode(Encode(s)) == Some(s)
    ensures Decode(b) == Some(s) ==>
              U64().valid(s.version) && |s.signature| == SIGNATURE_LEN && Encode(s) == b
    ensures Decode(b).Some? <==> |b| >= PREFIX_LEN
  {
    UnsignedIsCanonical(8);
    VersionWidth(s.version);
    var v := U64().encode(s.version);
    assert DecodesBack(U64(), s.version, s.signature + s.manifest);
    Pieces(v, s.signature, s.manifest);
    assert Reencodes(U64(), b);
    if |b| >= PREFIX_LEN {
      assert b[..8] + b[8..PREFIX_LEN] + b[PREFIX_LEN..] == b;
    }
  }

  /** The signed payload determines both the version and the bytes: a fixed-width
      version sits between a constant and the rest. */
  lemma PayloadIsInjective(v: nat, m: Bytes, w: nat, n: Bytes)
    requires U64().valid(v) && U64().valid(w)
    requires SignedPayload(v, m) == SignedPayload(w, n)
    ensures v == w && m == n
  {
    UnsignedIsCanonical(8);
    var x, y := U64().encode(v) + m, U64().encode(w) + n;
    assert (CONTEXT + x)[|CONTEXT|..] == x && (CONTEXT + y)[|CONTEXT|..] == y;
    assert DecodesBack(U64(), v, m) && DecodesBack(U64(), w, n);
    VersionWidth(v);
    VersionWidth(w);
    assert x[8..] == m && y[8..] == n;
  }

  /** An accepted manifest is one the creator published at that version. */
  lemma AcceptedIsPublished(author: PublicKey, published: Published, s: SignedManifest, seen: nat)
    requires Unforgeable(author, published)
    requires U64().valid(s.version) && Accepts(author, s, seen)
    ensures (s.version, s.manifest) in published && seen <= s.version
  {
    var p :| p in published && SignedPayload(s.version, s.manifest) == SignedPayload(p.0, p.1);
    PayloadIsInjective(s.version, s.manifest, p.0, p.1);
  }
}
