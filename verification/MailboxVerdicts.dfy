/** What the checks of lib/agent-mailbox.ts decide, said of the fields and of the cryptography alone:
    which envelopes are accepted and which stored records are believed. */
module MailboxVerdicts {
  import opened Common
  import opened MailboxRecords

  const UPPER := "ABCDEFGHIJKLMNOPQRSTUVWXYZ"
  const LOWER := "abcdefghijklmnopqrstuvwxyz"
  const DIGITS := "0123456789"
  const MARKS := ":_.@/-"

  /** The identifier pattern: 3 to 256 letters, digits and the marks `:_.@/-`, no mark first. */
  ghost predicate Named(s: string) {
    3 <= |s| <= 256 && s[0] in UPPER + LOWER + DIGITS
    && forall i :: 0 <= i < |s| ==> s[i] in UPPER + LOWER + DIGITS + MARKS
  }

  ghost predicate Digests(env: Env, d: Doc, digest: string) {
    env.canonical(d).Some? && digest == "sha256:" + env.sha(env.canonical(d).value)
  }

  /** The signature is one of the canonical text of d under this key, in this domain. */
  ghost predicate Signs(env: Env, domain: Domain, d: Doc, signature: string, key: Key) {
    env.isSignature(signature) && env.canonical(d).Some?
    && env.checkSignature(domain, env.canonical(d).value, signature, key)
  }

  ghost predicate Earlier(env: Env, a: string, b: string) {
    env.instant(a).Some? && env.instant(b).Some? && env.instant(a).value < env.instant(b).value
  }

  ghost predicate NotAfter(env: Env, a: string, b: string) {
    env.instant(a).Some? && env.instant(b).Some? && env.instant(a).value <= env.instant(b).value
  }

  /** The fields of an envelope are as the protocol wants them, its signature aside. */
  ghost predicate WellFilled(env: Env, e: Envelope) {
    && e.version == "EP-AGENT-MAILBOX-ENVELOPE-v0.1"
    && Named(e.envelopeId) && Named(e.senderId) && Named(e.recipientId) && Named(e.threadId) && Named(e.signerKeyId)
    && 0 < e.sequence < 0x20_0000_0000_0000
    && (e.messageType == "note" || e.messageType == "context_handoff" || e.messageType == "action_proposal"
        || e.messageType == "result")
    && env.isDigest(e.payloadDigest) && Digests(env, PayloadDoc(e.payload), e.payloadDigest)
    && e.authorizes == false
    && e.signature.algorithm == "Ed25519" && env.isSignature(e.signature.value)
    && env.canonical(EnvelopeDoc(e)).Some?
  }

  /** The envelope is addressed to the recipient, in time, and signed under the given key by its sender. */
  ghost predicate Authentic(env: Env, e: Envelope, recipientId: string, asOf: string, publicKey: string) {
    && WellFilled(env, e)
    && e.recipientId == recipientId
    && Earlier(env, e.createdAt, e.expiresAt) && NotAfter(env, e.createdAt, asOf) && NotAfter(env, asOf, e.expiresAt)
    && env.publicKey(publicKey).Some?
    && Signs(env, EnvelopeDomain, EnvelopeDoc(e.(signature := Signature("", ""))), e.signature.value,
             env.publicKey(publicKey).value)
  }

  /** The sender's directory entry is the signer's, and active. */
  ghost predicate Listed(directory: Directory, e: Envelope) {
    e.senderId in directory && directory[e.senderId].keyId == e.signerKeyId && directory[e.senderId].status == "active"
  }

  lemma Upper(c: char)
    ensures 'A' <= c <= 'Z' <==> c in UPPER
  {
    assert 'A' <= c <= 'Z' ==> UPPER[c as int - 'A' as int] == c;
  }

  lemma Lower(c: char)
    ensures 'a' <= c <= 'z' <==> c in LOWER
  {
    assert 'a' <= c <= 'z' ==> LOWER[c as int - 'a' as int] == c;
  }

  lemma Digit(c: char)
    ensures '0' <= c <= '9' <==> c in DIGITS
  {
    assert '0' <= c <= '9' ==> DIGITS[c as int - '0' as int] == c;
  }

  lemma AnyChar(c: char)
    ensures AlphaNumeric(c) <==> c in UPPER + LOWER + DIGITS
    ensures IdentifierChar(c) <==> c in UPPER + LOWER + DIGITS + MARKS
  {
    Upper(c);
    Lower(c);
    Digit(c);
    hide UPPER, LOWER, DIGITS;
    assert MARKS == [':', '_', '.', '@', '/', '-'];
  }

  lemma IdentifierExactly(s: string)
    ensures Identifier(s) <==> Named(s)
  {
    hide AlphaNumeric, IdentifierChar, UPPER, LOWER, DIGITS, MARKS;
    forall i | 0 <= i < |s|
      ensures AlphaNumeric(s[i]) <==> s[i] in UPPER + LOWER + DIGITS
      ensures IdentifierChar(s[i]) <==> s[i] in UPPER + LOWER + DIGITS + MARKS
    {
      AnyChar(s[i]);
    }
    FirstIsAny(s);
  }

  lemma FirstIsAny(s: string)
    ensures |s| > 0 && AlphaNumeric(s[0]) ==> IdentifierChar(s[0])
  {
  }

  // ----- envelopes ---------------------------------------------------------

  /** An envelope is accepted exactly when its sender is listed and it is authentic under the listed key; the answer
      names its digest and repeats that key. */
  lemma EnvelopeAcceptedExactly(env: Env, raw: Option<Envelope>, directory: Directory, recipientId: string,
                                asOf: string)
    ensures var v := VerifyEnvelope(env, raw, directory, recipientId, asOf);
            && (v.Accepted? <==>
                raw.Some? && Listed(directory, raw.value)
                && Authentic(env, raw.value, recipientId, asOf, directory[raw.value.senderId].publicKey))
            && (v.Accepted? ==>
                && Digests(env, EnvelopeDoc(raw.value), v.accepted)
                && v.sender == SenderVerification("EP-AGENT-MAILBOX-ENVELOPE-VERIFICATION-v0.1", raw.value.senderId,
                                                  raw.value.signerKeyId, directory[raw.value.senderId].publicKey,
                                                  asOf, false))
  {
    if raw.Some? {
      ShapeExactly(env, raw.value);
    }
    hide EnvelopeShape, WellFilled, Named, Identifier;
  }

  lemma ShapeExactly(env: Env, e: Envelope)
    ensures WellFilled(env, e) <==>
            EnvelopeShape(env, e) && env.canonical(EnvelopeDoc(e)).Some?
            && DigestOf(env, PayloadDoc(e.payload)) == Some(e.payloadDigest)
    ensures EnvelopeShape(env, e) ==> e.signature.algorithm == "Ed25519" && env.isSignature(e.signature.value)
  {
    IdentifierExactly(e.envelopeId);
    IdentifierExactly(e.senderId);
    IdentifierExactly(e.recipientId);
    IdentifierExactly(e.threadId);
    IdentifierExactly(e.signerKeyId);
    hide Named, Identifier;
  }

  /** Every refusal names something that is wrong with the envelope. */
  ghost predicate FaultNamed(env: Env, e: Envelope, directory: Directory, recipientId: string, asOf: string,
                             reason: string)
  {
    if reason == "envelope_shape_invalid" then !WellFilled(env, e)
    else if reason == "envelope_not_canonical" then
      env.canonical(EnvelopeDoc(e)).None? || env.canonical(PayloadDoc(e.payload)).None?
    else if reason == "payload_digest_mismatch" then !Digests(env, PayloadDoc(e.payload), e.payloadDigest)
    else if reason == "recipient_mismatch" then e.recipientId != recipientId
    else if reason == "envelope_time_invalid" then
      !Earlier(env, e.createdAt, e.expiresAt) || env.instant(asOf).None?
    else if reason == "envelope_expired" then Earlier(env, e.expiresAt, asOf)
    else if reason == "envelope_not_yet_valid" then Earlier(env, asOf, e.createdAt)
    else if reason == "sender_key_not_pinned" then
      e.senderId in directory ==> directory[e.senderId].keyId != e.signerKeyId
    else if reason == "sender_key_not_active" then
      e.senderId in directory && directory[e.senderId].status != "active"
    else if reason == "sender_key_invalid" then
      e.senderId in directory && env.publicKey(directory[e.senderId].publicKey).None?
    else
      && reason == "signature_invalid" && e.senderId in directory
      && env.publicKey(directory[e.senderId].publicKey).Some?
      && !Signs(env, EnvelopeDomain, EnvelopeDoc(e.(signature := Signature("", ""))), e.signature.value,
                env.publicKey(directory[e.senderId].publicKey).value)
  }

  lemma RefusalNamesItsFault(env: Env, e: Envelope, directory: Directory, recipientId: string, asOf: string)
    ensures var v := VerifyEnvelope(env, Some(e), directory, recipientId, asOf);
            v.Refused? ==> FaultNamed(env, e, directory, recipientId, asOf, v.reason)
  {
    ShapeExactly(env, e);
    hide EnvelopeShape, WellFilled, Named, Identifier;
  }

  /** With the digest of every envelope that can be canonicalized. */
  lemma RefusalKeepsDigest(env: Env, e: Envelope, directory: Directory, recipientId: string, asOf: string)
    ensures var v := VerifyEnvelope(env, Some(e), directory, recipientId, asOf);
            v.Refused? ==>
              && (v.digest.Some? <==> env.canonical(EnvelopeDoc(e)).Some?)
              && (v.digest.Some? ==> Digests(env, EnvelopeDoc(e), v.digest.value))
  {
    hide EnvelopeShape, Verifies;
  }

  // ----- stored records ----------------------------------------------------

  /** The parts of a stored record fit each other. */
  ghost predicate Coherent(env: Env, r: Stored) {
    && env.canonical(StoredDoc(r)).Some?
    && WellFilled(env, r.envelope)
    && r.recipientId == r.envelope.recipientId && r.envelopeId == r.envelope.envelopeId
    && env.isDigest(r.envelopeDigest) && Digests(env, EnvelopeDoc(r.envelope), r.envelopeDigest)
    && env.instant(r.receivedAt).Some? && env.publicKey(r.sender.publicKey).Some?
    && r.sender == SenderVerification("EP-AGENT-MAILBOX-ENVELOPE-VERIFICATION-v0.1", r.envelope.senderId,
                                      r.envelope.signerKeyId, r.sender.publicKey, r.receivedAt, false)
    && r.binding.version == "EP-AGENT-MAILBOX-STORED-DELIVERY-v0.1" && r.binding.authorizes == false
    && Named(r.binding.mailboxId) && Named(r.binding.signerKeyId)
    && r.binding.signature.algorithm == "Ed25519" && env.isSignature(r.binding.signature.value)
    && (r.ack.Some? ==> AcknowledgesIt(env, r, r.ack.value))
  }

  /** The acknowledgement repeats the names and digests of the record, and is not earlier than it. */
  ghost predicate AcknowledgesIt(env: Env, r: Stored, a: Ack) {
    && a == Ack("EP-AGENT-MAILBOX-READ-ACKNOWLEDGEMENT-v0.1", r.binding.mailboxId, r.recipientId, r.envelopeId,
                r.envelopeDigest, a.bindingDigest, a.readAt, false, a.signerKeyId, a.signature)
    && Named(a.mailboxId) && Named(a.recipientId) && Named(a.envelopeId) && Named(a.signerKeyId)
    && env.isDigest(a.envelopeDigest) && env.isDigest(a.bindingDigest)
    && Digests(env, BindingDoc(r.binding), a.bindingDigest)
    && NotAfter(env, r.receivedAt, a.readAt)
    && a.signature.algorithm == "Ed25519" && env.isSignature(a.signature.value)
  }

  lemma AckBelongsExactly(env: Env, r: Stored, a: Ack)
    ensures AckBelongs(env, r, a) <==> AcknowledgesIt(env, r, a)
  {
    IdentifierExactly(a.mailboxId);
    IdentifierExactly(a.recipientId);
    IdentifierExactly(a.envelopeId);
    IdentifierExactly(a.signerKeyId);
    hide Named, Identifier;
  }

  lemma CheckedExactly(env: Env, r: Stored)
    ensures Checked(env, r) <==> Coherent(env, r)
  {
    ShapeExactly(env, r.envelope);
    IdentifierExactly(r.recipientId);
    IdentifierExactly(r.envelopeId);
    IdentifierExactly(r.sender.senderId);
    IdentifierExactly(r.sender.signerKeyId);
    IdentifierExactly(r.envelope.senderId);
    IdentifierExactly(r.envelope.signerKeyId);
    IdentifierExactly(r.binding.mailboxId);
    IdentifierExactly(r.binding.signerKeyId);
    if r.ack.Some? {
      AckBelongsExactly(env, r, r.ack.value);
    }
    ShapeNames(env, r.envelope);
    hide Named, Identifier, AckBelongs, AcknowledgesIt, EnvelopeShape, WellFilled;
  }

  lemma ShapeNames(env: Env, e: Envelope)
    ensures EnvelopeShape(env, e) ==>
              Identifier(e.envelopeId) && Identifier(e.recipientId)
              && Identifier(e.senderId) && Identifier(e.signerKeyId)
  {
    hide Identifier;
  }

  /** Everything a record carries is signed: its envelope by the recorded sender key at the time it was received, the
      delivery by a key of this mailbox, and an acknowledgement, by then not in the future, by another. */
  ghost predicate Attested(env: Env, r: Stored, mailboxId: string, keys: Keys, asOf: string) {
    && Authentic(env, r.envelope, r.recipientId, r.sender.verifiedAt, r.sender.publicKey)
    && r.sender.senderId == r.envelope.senderId && r.sender.signerKeyId == r.envelope.signerKeyId
    && Digests(env, EnvelopeDoc(r.envelope), r.envelopeDigest)
    && r.binding.mailboxId == mailboxId && r.binding.signerKeyId in keys
    && Signs(env, DeliveryDomain,
                 DeliveryDoc(r.recipientId, r.envelopeId, r.envelopeDigest, r.envelope, r.receivedAt, r.sender,
                             r.binding.(signature := Signature("", ""))),
                 r.binding.signature.value, keys[r.binding.signerKeyId])
    && (r.ack.Some? ==>
          var a := r.ack.value;
          && a.signerKeyId in keys && !a.authorizes && NotAfter(env, a.readAt, asOf)
          && Signs(env, AcknowledgementDomain, AckDoc(a.(signature := Signature("", ""))), a.signature.value,
                       keys[a.signerKeyId]))
  }

  lemma StoredVerifiedExactly(env: Env, r: Stored, mailboxId: string, keys: Keys, asOf: string)
    ensures VerifyStored(env, r, mailboxId, keys, asOf) <==> Attested(env, r, mailboxId, keys, asOf)
  {
    var directory := RecordedDirectory(r.sender);
    EnvelopeAcceptedExactly(env, Some(r.envelope), directory, r.recipientId, r.sender.verifiedAt);
    assert Listed(directory, r.envelope) <==>
           r.sender.senderId == r.envelope.senderId && r.sender.signerKeyId == r.envelope.signerKeyId;
    hide VerifyEnvelope, Authentic, Listed, RecordedDirectory;
  }
}
