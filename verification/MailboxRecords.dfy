/** Envelopes, stored deliveries and the pure checks of lib/agent-mailbox.ts.  A value that fails
    the exact-key shape of its kind is `None`; everything else is checked as the source does. */
module MailboxRecords {
  import opened Common

  /** JSON content the mailbox only canonicalizes and digests, with the three sizes that the
      canonicalizer limits: values, bytes of strings and member names, and nesting. */
  datatype Content = Content(text: string, nodes: nat, bytes: nat, depth: nat)
  datatype Signature = Signature(algorithm: string, value: string)

  datatype Envelope = Envelope(
    version: string, envelopeId: string, senderId: string, recipientId: string, threadId: string,
    sequence: int, messageType: string, payload: Content, payloadDigest: string,
    createdAt: string, expiresAt: string, authorizes: bool, signerKeyId: string, signature: Signature)

  datatype SenderVerification = SenderVerification(
    profile: string, senderId: string, signerKeyId: string, publicKey: string, verifiedAt: string, authorizes: bool)

  datatype Binding = Binding(
    version: string, mailboxId: string, signerKeyId: string, authorizes: bool, signature: Signature)

  datatype Ack = Ack(
    version: string, mailboxId: string, recipientId: string, envelopeId: string, envelopeDigest: string,
    bindingDigest: string, readAt: string, authorizes: bool, signerKeyId: string, signature: Signature)

  datatype Stored = Stored(
    recipientId: string, envelopeId: string, envelopeDigest: string, envelope: Envelope, receivedAt: string,
    ack: Option<Ack>, sender: SenderVerification, binding: Binding)

  datatype DirectoryEntry = DirectoryEntry(keyId: string, publicKey: string, status: string)
  type Directory = map<string, DirectoryEntry>

  const ENVELOPE_VERSION := "EP-AGENT-MAILBOX-ENVELOPE-v0.1"
  const VERIFICATION_PROFILE := "EP-AGENT-MAILBOX-ENVELOPE-VERIFICATION-v0.1"
  const STORED_DELIVERY_VERSION := "EP-AGENT-MAILBOX-STORED-DELIVERY-v0.1"
  const ACKNOWLEDGEMENT_VERSION := "EP-AGENT-MAILBOX-READ-ACKNOWLEDGEMENT-v0.1"
  const ED25519 := "Ed25519"
  const MESSAGE_TYPES := {"note", "context_handoff", "action_proposal", "result"}
  const MAX_SAFE_INTEGER := 9007199254740991
  const UNSIGNED := Signature("", "")

  // ----- what is canonicalized and signed ----------------------------------

  datatype Domain = EnvelopeDomain | DeliveryDomain | AcknowledgementDomain

  /** The values handed to the canonicalizer.  A signing value carries UNSIGNED. */
  datatype Doc =
    | PayloadDoc(payload: Content)
    | EnvelopeDoc(envelope: Envelope)
    | BindingDoc(binding: Binding)
    | DeliveryDoc(recipientId: string, envelopeId: string, digest: string, delivered: Envelope,
                  receivedAt: string, sender: SenderVerification, unsigned: Binding)
    | AckDoc(ack: Ack)
    | StoredDoc(stored: Stored)

  /** Documents of one shape.  Across shapes texts may coincide: a payload may be any JSON. */
  ghost predicate SameKind(a: Doc, b: Doc) {
    match a
    case PayloadDoc(_) => b.PayloadDoc?
    case EnvelopeDoc(_) => b.EnvelopeDoc?
    case BindingDoc(_) => b.BindingDoc?
    case DeliveryDoc(_, _, _, _, _, _, _) => b.DeliveryDoc?
    case AckDoc(_) => b.AckDoc?
    case StoredDoc(_) => b.StoredDoc?
  }

  type Key = nat

  /** The parts this model does not open: canonical JSON, SHA-256, Ed25519, date parsing. */
  datatype Env = Env(
    canonical: Doc -> Option<string>,
    sha: Hash,
    isDigest: string -> bool,
    instant: string -> Option<int>,
    isSignature: string -> bool,
    publicKey: string -> Option<Key>,
    publicOf: Key -> Key,
    sign: (Domain, string, Key) -> string,
    checkSignature: (Domain, string, string, Key) -> bool)

  /** The canonicalizer loses nothing of documents of one kind; digests and signatures have their own shape; a signature
      verifies under the public half of the key that made it. */
  ghost predicate Honest(env: Env) {
    && (forall a, b :: SameKind(a, b) && env.canonical(a).Some? && env.canonical(a) == env.canonical(b) ==> a == b)
    && (forall t :: env.isDigest("sha256:" + env.sha(t)))
    && (forall d, t, k ::
          env.isSignature(env.sign(d, t, k)) && env.checkSignature(d, t, env.sign(d, t, k), env.publicOf(k)))
  }

  function DigestOf(env: Env, d: Doc): Option<string> {
    var text :- env.canonical(d);
    Some("sha256:" + env.sha(text))
  }

  predicate Verifies(env: Env, domain: Domain, d: Doc, signature: string, key: Key) {
    env.isSignature(signature) && env.canonical(d).Some?
    && env.checkSignature(domain, env.canonical(d).value, signature, key)
  }

  // ----- shapes ------------------------------------------------------------

  predicate AlphaNumeric(c: char) {
    'A' <= c <= 'Z' || 'a' <= c <= 'z' || '0' <= c <= '9'
  }

  predicate IdentifierChar(c: char) {
    AlphaNumeric(c) || c == ':' || c == '_' || c == '.' || c == '@' || c == '/' || c == '-'
  }

  predicate Identifier(s: string) {
    3 <= |s| <= 256 && AlphaNumeric(s[0]) && forall i :: 1 <= i < |s| ==> IdentifierChar(s[i])
  }

  predicate SignatureShape(env: Env, s: Signature) {
    s.algorithm == ED25519 && env.isSignature(s.value)
  }

  /** The field checks an envelope passes wherever it is looked at. */
  predicate EnvelopeShape(env: Env, e: Envelope) {
    && e.version == ENVELOPE_VERSION
    && Identifier(e.envelopeId) && Identifier(e.senderId) && Identifier(e.recipientId) && Identifier(e.threadId)
    && 1 <= e.sequence <= MAX_SAFE_INTEGER
    && e.messageType in MESSAGE_TYPES
    && env.isDigest(e.payloadDigest)
    && !e.authorizes
    && Identifier(e.signerKeyId)
    && SignatureShape(env, e.signature)
  }

  predicate AckShape(env: Env, a: Ack) {
    && a.version == ACKNOWLEDGEMENT_VERSION
    && Identifier(a.mailboxId) && Identifier(a.recipientId) && Identifier(a.envelopeId)
    && env.isDigest(a.envelopeDigest) && env.isDigest(a.bindingDigest)
    && env.instant(a.readAt).Some?
    && !a.authorizes
    && Identifier(a.signerKeyId)
    && SignatureShape(env, a.signature)
  }

  // ----- envelope verification ---------------------------------------------

  datatype Verdict =
    | Refused(reason: string, digest: Option<string>)
    | Accepted(accepted: string, sender: SenderVerification)

  function VerifyEnvelope(env: Env, raw: Option<Envelope>, directory: Directory, expectedRecipient: string,
                          asOf: string): Verdict
  {
    if raw.None? then Refused("envelope_shape_invalid", None) else
    var e := raw.value;
    var digest := DigestOf(env, EnvelopeDoc(e));
    if digest.None? then Refused("envelope_not_canonical", None)
    else if !EnvelopeShape(env, e) then Refused("envelope_shape_invalid", digest)
    else if e.recipientId != expectedRecipient then Refused("recipient_mismatch", digest)
    else
      var (created, expires, now) := (env.instant(e.createdAt), env.instant(e.expiresAt), env.instant(asOf));
      if created.None? || expires.None? || now.None? || expires.value <= created.value
      then Refused("envelope_time_invalid", digest)
      else if now.value > expires.value then Refused("envelope_expired", digest)
      else if now.value < created.value then Refused("envelope_not_yet_valid", digest)
      else if DigestOf(env, PayloadDoc(e.payload)).None? then Refused("envelope_not_canonical", digest)
      else if DigestOf(env, PayloadDoc(e.payload)).value != e.payloadDigest
        then Refused("payload_digest_mismatch", digest)
      else if e.senderId !in directory || directory[e.senderId].keyId != e.signerKeyId
      then Refused("sender_key_not_pinned", digest)
      else if directory[e.senderId].status != "active" then Refused("sender_key_not_active", digest)
      else
        var key := env.publicKey(directory[e.senderId].publicKey);
        if key.None? then Refused("sender_key_invalid", digest)
        else if !Verifies(env, EnvelopeDomain, EnvelopeDoc(e.(signature := UNSIGNED)), e.signature.value, key.value)
        then Refused("signature_invalid", digest)
        else Accepted(digest.value,
                      SenderVerification(VERIFICATION_PROFILE, e.senderId, e.signerKeyId,
                                         directory[e.senderId].publicKey, asOf, false))
  }

  // ----- stored deliveries -------------------------------------------------

  function DeliveryOf(r: Stored): Doc {
    DeliveryDoc(r.recipientId, r.envelopeId, r.envelopeDigest, r.envelope, r.receivedAt, r.sender,
                r.binding.(signature := UNSIGNED))
  }

  /** The acknowledgement belongs to this record and is not earlier than it. */
  predicate AckBelongs(env: Env, r: Stored, a: Ack) {
    && AckShape(env, a)
    && a.mailboxId == r.binding.mailboxId && a.recipientId == r.recipientId && a.envelopeId == r.envelopeId
    && a.envelopeDigest == r.envelopeDigest
    && DigestOf(env, BindingDoc(r.binding)) == Some(a.bindingDigest)
    && env.instant(a.readAt).Some? && env.instant(r.receivedAt).Some?
    && env.instant(a.readAt).value >= env.instant(r.receivedAt).value
  }

  predicate SenderShape(env: Env, r: Stored) {
    && r.sender.profile == VERIFICATION_PROFILE
    && Identifier(r.sender.senderId) && Identifier(r.sender.signerKeyId)
    && env.publicKey(r.sender.publicKey).Some?
    && r.sender.verifiedAt == r.receivedAt
    && !r.sender.authorizes
    && r.sender.senderId == r.envelope.senderId && r.sender.signerKeyId == r.envelope.signerKeyId
  }

  predicate BindingShape(env: Env, b: Binding) {
    && b.version == STORED_DELIVERY_VERSION
    && Identifier(b.mailboxId) && Identifier(b.signerKeyId)
    && !b.authorizes && SignatureShape(env, b.signature)
  }

  /** checkedStoredEnvelope: the record itself, or null. */
  predicate Checked(env: Env, r: Stored) {
    && env.canonical(StoredDoc(r)).Some?
    && Identifier(r.recipientId) && Identifier(r.envelopeId) && env.isDigest(r.envelopeDigest)
    && env.instant(r.receivedAt).Some?
    && SenderShape(env, r) && BindingShape(env, r.binding)
    && EnvelopeShape(env, r.envelope)
    && r.envelope.envelopeId == r.envelopeId && r.envelope.recipientId == r.recipientId
    && DigestOf(env, PayloadDoc(r.envelope.payload)) == Some(r.envelope.payloadDigest)
    && DigestOf(env, EnvelopeDoc(r.envelope)) == Some(r.envelopeDigest)
    && (r.ack.Some? ==> AckBelongs(env, r, r.ack.value))
  }

  type Keys = map<string, Key>

  predicate AckVerifies(env: Env, a: Ack, keys: Keys, asOf: string) {
    && env.instant(a.readAt).Some? && env.instant(asOf).Some?
    && env.instant(a.readAt).value <= env.instant(asOf).value
    && a.signerKeyId in keys
    && Verifies(env, AcknowledgementDomain, AckDoc(a.(signature := UNSIGNED)), a.signature.value, keys[a.signerKeyId])
    && !a.authorizes
  }

  /** The directory entry recorded at delivery time. */
  function RecordedDirectory(s: SenderVerification): Directory {
    map[s.senderId := DirectoryEntry(s.signerKeyId, s.publicKey, "active")]
  }

  predicate BindingVerifies(env: Env, r: Stored, mailboxId: string, keys: Keys) {
    && r.binding.mailboxId == mailboxId && r.binding.signerKeyId in keys
    && Verifies(env, DeliveryDomain, DeliveryOf(r), r.binding.signature.value, keys[r.binding.signerKeyId])
  }

  predicate VerifyStored(env: Env, r: Stored, mailboxId: string, keys: Keys, asOf: string) {
    && BindingVerifies(env, r, mailboxId, keys)
    && (var v := VerifyEnvelope(env, Some(r.envelope), RecordedDirectory(r.sender), r.recipientId, r.sender.verifiedAt);
        v.Accepted? && v.accepted == r.envelopeDigest)
    && (r.ack.Some? ==> AckVerifies(env, r.ack.value, keys, asOf))
  }

  /** Everything but the acknowledgement. */
  function Delivery(r: Stored): Stored {
    r.(ack := None)
  }

  /** Same recipient, sender, thread and sequence number. */
  predicate SameSlot(a: Stored, b: Stored) {
    a.recipientId == b.recipientId && a.envelope.senderId == b.envelope.senderId
    && a.envelope.threadId == b.envelope.threadId && a.envelope.sequence == b.envelope.sequence
  }

  // ----- sizes -------------------------------------------------------------

  const MAX_CANONICAL_NODES := 10000
  const MAX_CANONICAL_STRING_BYTES := 262144
  const MAX_CANONICAL_DEPTH := 32
  const SIGNATURE_CHARS := 86

  function SignatureNodes(s: Signature): nat {
    if s == UNSIGNED then 0 else 3
  }

  function EnvelopeNodes(e: Envelope): nat {
    // root, eleven scalars, payload, authority with one member, signature with two
    1 + 11 + e.payload.nodes + 2 + SignatureNodes(e.signature)
  }

  function BindingNodes(b: Binding): nat {
    5 + SignatureNodes(b.signature)
  }

  function AckNodes(a: Ack): nat {
    10 + SignatureNodes(a.signature)
  }

  /** How many JSON values a document has. */
  function Nodes(d: Doc): nat {
    match d
    case PayloadDoc(p) => p.nodes
    case EnvelopeDoc(e) => EnvelopeNodes(e)
    case BindingDoc(b) => BindingNodes(b)
    case DeliveryDoc(_, _, _, e, _, _, b) => BindingNodes(b) + 1 + 4 + EnvelopeNodes(e) + 7
    case AckDoc(a) => AckNodes(a)
    case StoredDoc(r) =>
      1 + 4 + EnvelopeNodes(r.envelope) + (if r.ack.Some? then AckNodes(r.ack.value) else 1) + 7
      + BindingNodes(r.binding)
  }

  function Utf8Bytes(s: string): nat {
    if s == [] then 0
    else (if s[0] as int < 0x80 then 1 else if s[0] as int < 0x800 then 2 else if s[0] as int < 0x10000 then 3 else 4)
         + Utf8Bytes(s[1..])
  }

  function SignatureBytes(s: Signature): nat {
    if s == UNSIGNED then 0
    else |"signature"| + |"algorithm"| + |"value"| + Utf8Bytes(s.algorithm) + Utf8Bytes(s.value)
  }

  function EnvelopeBytes(e: Envelope): nat {
    |"@version"| + |"envelope_id"| + |"sender_id"| + |"recipient_id"| + |"thread_id"| + |"sequence"| + |"message_type"|
    + |"payload"| + |"payload_digest"| + |"created_at"| + |"expires_at"| + |"authority"| + |"authorizes"|
    + |"signer_key_id"|
    + Utf8Bytes(e.version) + Utf8Bytes(e.envelopeId) + Utf8Bytes(e.senderId) + Utf8Bytes(e.recipientId)
    + Utf8Bytes(e.threadId) + Utf8Bytes(e.messageType) + e.payload.bytes + Utf8Bytes(e.payloadDigest)
    + Utf8Bytes(e.createdAt) + Utf8Bytes(e.expiresAt) + Utf8Bytes(e.signerKeyId) + SignatureBytes(e.signature)
  }

  function SenderBytes(s: SenderVerification): nat {
    |"verification_profile"| + |"sender_id"| + |"signer_key_id"| + |"public_key_spki_b64u"|
    + |"verified_at"| + |"authorizes"|
    + Utf8Bytes(s.profile) + Utf8Bytes(s.senderId) + Utf8Bytes(s.signerKeyId) + Utf8Bytes(s.publicKey)
    + Utf8Bytes(s.verifiedAt)
  }

  function BindingBytes(b: Binding): nat {
    |"@version"| + |"mailbox_id"| + |"signer_key_id"| + |"authorizes"|
    + Utf8Bytes(b.version) + Utf8Bytes(b.mailboxId) + Utf8Bytes(b.signerKeyId) + SignatureBytes(b.signature)
  }

  function AckBytes(a: Ack): nat {
    |"@version"| + |"mailbox_id"| + |"recipient_id"| + |"envelope_id"| + |"envelope_digest"|
    + |"delivery_binding_digest"|
    + |"read_at"| + |"authorizes"| + |"signer_key_id"|
    + Utf8Bytes(a.version) + Utf8Bytes(a.mailboxId) + Utf8Bytes(a.recipientId) + Utf8Bytes(a.envelopeId)
    + Utf8Bytes(a.envelopeDigest) + Utf8Bytes(a.bindingDigest) + Utf8Bytes(a.readAt) + Utf8Bytes(a.signerKeyId)
    + SignatureBytes(a.signature)
  }

  /** The six members that the signed delivery value and the stored record share. */
  function DeliveredBytes(recipientId: string, envelopeId: string, digest: string, e: Envelope, receivedAt: string,
                          sender: SenderVerification): nat
  {
    |"recipient_id"| + |"envelope_id"| + |"envelope_digest"| + |"envelope"| + |"received_at"| + |"sender_verification"|
    + Utf8Bytes(recipientId) + Utf8Bytes(envelopeId) + Utf8Bytes(digest) + EnvelopeBytes(e) + Utf8Bytes(receivedAt)
    + SenderBytes(sender)
  }

  /** How many bytes its strings and member names have together. */
  function StringBytes(d: Doc): nat {
    match d
    case PayloadDoc(p) => p.bytes
    case EnvelopeDoc(e) => EnvelopeBytes(e)
    case BindingDoc(b) => BindingBytes(b)
    case DeliveryDoc(recipientId, envelopeId, digest, e, receivedAt, sender, b) =>
      BindingBytes(b) + |"stored_delivery"| + DeliveredBytes(recipientId, envelopeId, digest, e, receivedAt, sender)
    case AckDoc(a) => AckBytes(a)
    case StoredDoc(r) =>
      DeliveredBytes(r.recipientId, r.envelopeId, r.envelopeDigest, r.envelope, r.receivedAt, r.sender)
      + |"delivery_binding"| + BindingBytes(r.binding)
      + |"read_acknowledgement"| + if r.ack.Some? then AckBytes(r.ack.value) else 0
  }

  function EnvelopeDepth(e: Envelope): nat {
    if e.payload.depth <= 1 then 2 else 1 + e.payload.depth
  }

  function SignedDepth(s: Signature): nat {
    if s == UNSIGNED then 1 else 2
  }

  /** How deep its innermost value lies. */
  function Depth(d: Doc): nat {
    match d
    case PayloadDoc(p) => p.depth
    case EnvelopeDoc(e) => EnvelopeDepth(e)
    case BindingDoc(b) => SignedDepth(b.signature)
    case DeliveryDoc(_, _, _, e, _, _, _) => 2 + EnvelopeDepth(e)
    case AckDoc(a) => SignedDepth(a.signature)
    case StoredDoc(r) => 1 + EnvelopeDepth(r.envelope)
  }

  predicate Fits(d: Doc) {
    Nodes(d) <= MAX_CANONICAL_NODES && StringBytes(d) <= MAX_CANONICAL_STRING_BYTES && Depth(d) <= MAX_CANONICAL_DEPTH
  }

  /** The canonicalizer refuses every value over one of its limits.  It may refuse others too. */
  ghost predicate Limited(env: Env) {
    forall d :: env.canonical(d).Some? ==> Fits(d)
  }

  /** A signature is the unpadded base64url form of 64 bytes. */
  ghost predicate SignatureSized(env: Env) {
    forall s :: env.isSignature(s) ==> Utf8Bytes(s) == SIGNATURE_CHARS
  }
}
