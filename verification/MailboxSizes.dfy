/** The documents of lib/agent-mailbox.ts as JSON objects with their member names, and the three sizes
    that the canonicalizer of packages/gate/src/strict-json.ts counts on its way through them. */
module MailboxSizes {
  import opened Common
  import opened MailboxRecords

  /** A JSON value as far as its sizes go; an array is counted like an object without member names. */
  datatype Value =
    | Text(s: string)
    | Other                      // a number, a boolean or null
    | Foreign(content: Content)  // a payload
    | Object(members: Members)

  datatype Members = End | Member(name: string, value: Value, rest: Members)

  /** canonicalizeValue counts each value once, and its depth from the root. */
  function CountNodes(v: Value): nat {
    match v
    case Foreign(c) => c.nodes
    case Object(ms) => 1 + CountMembers(ms)
    case _ => 1
  }

  function CountMembers(ms: Members): nat {
    if ms.End? then 0 else CountNodes(ms.value) + CountMembers(ms.rest)
  }

  /** countString: the UTF-8 bytes of every string and of every member name; all names here are ASCII. */
  function CountBytes(v: Value): nat {
    match v
    case Text(s) => Utf8Bytes(s)
    case Other => 0
    case Foreign(c) => c.bytes
    case Object(ms) => MemberBytes(ms)
  }

  function MemberBytes(ms: Members): nat {
    if ms.End? then 0 else |ms.name| + CountBytes(ms.value) + MemberBytes(ms.rest)
  }

  function Innermost(v: Value): nat {
    match v
    case Foreign(c) => c.depth
    case Object(ms) => if ms.End? then 0 else 1 + InnermostMember(ms)
    case _ => 0
  }

  function InnermostMember(ms: Members): nat {
    if ms.End? then 0 else Max(Innermost(ms.value), InnermostMember(ms.rest))
  }

  function Max(a: nat, b: nat): nat {
    if a < b then b else a
  }

  // ----- the documents -----------------------------------------------------

  /** An unsigned document has no signature member. */
  function SignatureMember(s: Signature): Members {
    if s == UNSIGNED then End
    else Member("signature", Object(Member("algorithm", Text(s.algorithm), Member("value", Text(s.value), End))), End)
  }

  function EnvelopeNames(e: Envelope): (ms: Members)
    ensures ms.Member?
  {
    Member("@version", Text(e.version),
    Member("envelope_id", Text(e.envelopeId),
    Member("sender_id", Text(e.senderId),
    Member("recipient_id", Text(e.recipientId),
    Member("thread_id", Text(e.threadId), EnvelopeBody(e))))))
  }

  function EnvelopeBody(e: Envelope): Members {
    Member("sequence", Other,
    Member("message_type", Text(e.messageType),
    Member("payload", Foreign(e.payload),
    Member("payload_digest", Text(e.payloadDigest), EnvelopeEnd(e)))))
  }

  function EnvelopeEnd(e: Envelope): Members {
    Member("created_at", Text(e.createdAt),
    Member("expires_at", Text(e.expiresAt),
    Member("authority", Object(Member("authorizes", Other, End)),
    Member("signer_key_id", Text(e.signerKeyId), SignatureMember(e.signature)))))
  }

  function SenderMembers(s: SenderVerification): (ms: Members)
    ensures ms.Member?
  {
    Member("verification_profile", Text(s.profile),
    Member("sender_id", Text(s.senderId),
    Member("signer_key_id", Text(s.signerKeyId),
    Member("public_key_spki_b64u", Text(s.publicKey),
    Member("verified_at", Text(s.verifiedAt),
    Member("authorizes", Other, End))))))
  }

  function BindingMembers(b: Binding, rest: Members): (ms: Members)
    ensures ms.Member?
  {
    Member("@version", Text(b.version),
    Member("mailbox_id", Text(b.mailboxId),
    Member("signer_key_id", Text(b.signerKeyId),
    Member("authorizes", Other, rest))))
  }

  function AckNames(a: Ack): (ms: Members)
    ensures ms.Member?
  {
    Member("@version", Text(a.version),
    Member("mailbox_id", Text(a.mailboxId),
    Member("recipient_id", Text(a.recipientId),
    Member("envelope_id", Text(a.envelopeId), AckEnd(a)))))
  }

  function AckEnd(a: Ack): Members {
    Member("envelope_digest", Text(a.envelopeDigest),
    Member("delivery_binding_digest", Text(a.bindingDigest),
    Member("read_at", Text(a.readAt),
    Member("authorizes", Other,
    Member("signer_key_id", Text(a.signerKeyId), SignatureMember(a.signature))))))
  }

  function DeliveredMembers(recipientId: string, envelopeId: string, digest: string, e: Envelope, receivedAt: string,
                            sender: SenderVerification, rest: Members): (ms: Members)
    ensures ms.Member?
  {
    Member("recipient_id", Text(recipientId),
    Member("envelope_id", Text(envelopeId),
    Member("envelope_digest", Text(digest),
    Member("envelope", Object(EnvelopeNames(e)),
    Member("received_at", Text(receivedAt),
    Member("sender_verification", Object(SenderMembers(sender)), rest))))))
  }

  function StoredEnd(r: Stored): Members {
    Member("read_acknowledgement", if r.ack.Some? then Object(AckNames(r.ack.value)) else Other,
    Member("delivery_binding", Object(BindingMembers(r.binding, SignatureMember(r.binding.signature))), End))
  }

  /** The value that is canonicalized. */
  function ValueOf(d: Doc): Value {
    match d
    case PayloadDoc(p) => Foreign(p)
    case EnvelopeDoc(e) => Object(EnvelopeNames(e))
    case BindingDoc(b) => Object(BindingMembers(b, SignatureMember(b.signature)))
    case DeliveryDoc(recipientId, envelopeId, digest, e, receivedAt, sender, b) =>
      Object(BindingMembers(b,
        Member("stored_delivery", Object(DeliveredMembers(recipientId, envelopeId, digest, e, receivedAt, sender, End)),
               SignatureMember(b.signature))))
    case AckDoc(a) => Object(AckNames(a))
    case StoredDoc(r) =>
      Object(DeliveredMembers(r.recipientId, r.envelopeId, r.envelopeDigest, r.envelope, r.receivedAt, r.sender,
                              StoredEnd(r)))
  }

  // ----- their sizes -------------------------------------------------------

  ghost predicate Sized(ms: Members, nodes: nat, bytes: nat, depth: nat) {
    CountMembers(ms) == nodes && MemberBytes(ms) == bytes && InnermostMember(ms) == depth
  }

  /** The sizes of the first member come on top of those of the rest. */
  lemma Unfold(ms: Members)
    requires ms.Member?
    ensures CountMembers(ms) == CountNodes(ms.value) + CountMembers(ms.rest)
    ensures MemberBytes(ms) == |ms.name| + CountBytes(ms.value) + MemberBytes(ms.rest)
    ensures InnermostMember(ms) == Max(Innermost(ms.value), InnermostMember(ms.rest))
    ensures match ms.value
            case Text(s) =>
              CountNodes(ms.value) == 1 && CountBytes(ms.value) == Utf8Bytes(s) && Innermost(ms.value) == 0
            case Other => CountNodes(ms.value) == 1 && CountBytes(ms.value) == 0 && Innermost(ms.value) == 0
            case Foreign(c) =>
              CountNodes(ms.value) == c.nodes && CountBytes(ms.value) == c.bytes && Innermost(ms.value) == c.depth
            case Object(inner) =>
              CountNodes(ms.value) == 1 + CountMembers(inner) && CountBytes(ms.value) == MemberBytes(inner)
              && (inner.Member? ==> Innermost(ms.value) == 1 + InnermostMember(inner))
  {
  }

  lemma Nothing()
    ensures Sized(End, 0, 0, 0)
  {
  }

  lemma SignatureCounted(s: Signature)
    ensures Sized(SignatureMember(s), SignatureNodes(s), SignatureBytes(s), if s == UNSIGNED then 0 else 1)
  {
    hide Utf8Bytes, CountNodes, CountMembers, CountBytes, MemberBytes, Innermost, InnermostMember;
    Nothing();
    if s != UNSIGNED {
      var m := SignatureMember(s);
      Unfold(m);
      Unfold(m.value.members);
      Unfold(m.value.members.rest);
    }
  }

  lemma EnvelopeEndSized(e: Envelope)
    ensures CountMembers(EnvelopeEnd(e)) == 5 + SignatureNodes(e.signature)
    ensures InnermostMember(EnvelopeEnd(e)) == 1
    ensures MemberBytes(EnvelopeEnd(e)) ==
            |"created_at"| + |"expires_at"| + |"authority"| + |"authorizes"| + |"signer_key_id"|
            + Utf8Bytes(e.createdAt) + Utf8Bytes(e.expiresAt) + Utf8Bytes(e.signerKeyId) + SignatureBytes(e.signature)
  {
    SignatureCounted(e.signature);
    hide Utf8Bytes, CountNodes, CountMembers, CountBytes, MemberBytes, Innermost, InnermostMember, SignatureMember,
         SignatureBytes;
    Nothing();
    var m := EnvelopeEnd(e);
    Unfold(m);
    Unfold(m.rest);
    Unfold(m.rest.rest);
    Unfold(m.rest.rest.rest);
    Unfold(m.rest.rest.value.members);
  }

  lemma EnvelopeBodySized(e: Envelope)
    ensures CountMembers(EnvelopeBody(e)) == 3 + e.payload.nodes + CountMembers(EnvelopeEnd(e))
    ensures InnermostMember(EnvelopeBody(e)) == Max(e.payload.depth, InnermostMember(EnvelopeEnd(e)))
    ensures MemberBytes(EnvelopeBody(e)) ==
            |"sequence"| + |"message_type"| + |"payload"| + |"payload_digest"|
            + Utf8Bytes(e.messageType) + e.payload.bytes + Utf8Bytes(e.payloadDigest) + MemberBytes(EnvelopeEnd(e))
  {
    hide Utf8Bytes, CountNodes, CountMembers, CountBytes, MemberBytes, Innermost, InnermostMember, EnvelopeEnd;
    var m := EnvelopeBody(e);
    Unfold(m);
    Unfold(m.rest);
    Unfold(m.rest.rest);
    Unfold(m.rest.rest.rest);
  }

  lemma EnvelopeNamesSized(e: Envelope)
    ensures CountMembers(EnvelopeNames(e)) == 5 + CountMembers(EnvelopeBody(e))
    ensures InnermostMember(EnvelopeNames(e)) == InnermostMember(EnvelopeBody(e))
    ensures MemberBytes(EnvelopeNames(e)) ==
            |"@version"| + |"envelope_id"| + |"sender_id"| + |"recipient_id"| + |"thread_id"|
            + Utf8Bytes(e.version) + Utf8Bytes(e.envelopeId) + Utf8Bytes(e.senderId) + Utf8Bytes(e.recipientId)
            + Utf8Bytes(e.threadId) + MemberBytes(EnvelopeBody(e))
  {
    hide Utf8Bytes, CountNodes, CountMembers, CountBytes, MemberBytes, Innermost, InnermostMember, EnvelopeBody;
    var m := EnvelopeNames(e);
    Unfold(m);
    Unfold(m.rest);
    Unfold(m.rest.rest);
    Unfold(m.rest.rest.rest);
    Unfold(m.rest.rest.rest.rest);
  }

  lemma EnvelopeSized(e: Envelope)
    ensures Sized(EnvelopeNames(e), EnvelopeNodes(e) - 1, EnvelopeBytes(e), EnvelopeDepth(e) - 1)
  {
    EnvelopeEndSized(e);
    EnvelopeBodySized(e);
    EnvelopeNamesSized(e);
    hide Utf8Bytes, CountNodes, CountMembers, CountBytes, MemberBytes, Innermost, InnermostMember,
         EnvelopeEnd, EnvelopeBody, EnvelopeNames, SignatureBytes;
  }

  lemma SenderSized(s: SenderVerification)
    ensures Sized(SenderMembers(s), 6, SenderBytes(s), 0)
  {
    hide Utf8Bytes, CountNodes, CountMembers, CountBytes, MemberBytes, Innermost, InnermostMember;
    Nothing();
    var m := SenderMembers(s);
    Unfold(m);
    Unfold(m.rest);
    Unfold(m.rest.rest);
    Unfold(m.rest.rest.rest);
    Unfold(m.rest.rest.rest.rest);
    Unfold(m.rest.rest.rest.rest.rest);
  }

  lemma BindingSized(b: Binding, rest: Members)
    ensures CountMembers(BindingMembers(b, rest)) == 4 + CountMembers(rest)
    ensures InnermostMember(BindingMembers(b, rest)) == InnermostMember(rest)
    ensures MemberBytes(BindingMembers(b, rest)) + SignatureBytes(b.signature) == BindingBytes(b) + MemberBytes(rest)
  {
    hide Utf8Bytes, CountNodes, CountMembers, CountBytes, MemberBytes, Innermost, InnermostMember, SignatureBytes;
    var m := BindingMembers(b, rest);
    Unfold(m);
    Unfold(m.rest);
    Unfold(m.rest.rest);
    Unfold(m.rest.rest.rest);
  }

  lemma AckEndSized(a: Ack)
    ensures CountMembers(AckEnd(a)) == 5 + SignatureNodes(a.signature)
    ensures InnermostMember(AckEnd(a)) == SignedDepth(a.signature) - 1
    ensures MemberBytes(AckEnd(a)) ==
            |"envelope_digest"| + |"delivery_binding_digest"| + |"read_at"| + |"authorizes"| + |"signer_key_id"|
            + Utf8Bytes(a.envelopeDigest) + Utf8Bytes(a.bindingDigest) + Utf8Bytes(a.readAt) + Utf8Bytes(a.signerKeyId)
            + SignatureBytes(a.signature)
  {
    SignatureCounted(a.signature);
    hide Utf8Bytes, CountNodes, CountMembers, CountBytes, MemberBytes, Innermost, InnermostMember, SignatureMember,
         SignatureBytes;
    var m := AckEnd(a);
    Unfold(m);
    Unfold(m.rest);
    Unfold(m.rest.rest);
    Unfold(m.rest.rest.rest);
    Unfold(m.rest.rest.rest.rest);
  }

  lemma AckSized(a: Ack)
    ensures Sized(AckNames(a), AckNodes(a) - 1, AckBytes(a), SignedDepth(a.signature) - 1)
  {
    AckEndSized(a);
    hide Utf8Bytes, CountNodes, CountMembers, CountBytes, MemberBytes, Innermost, InnermostMember, AckEnd,
         SignatureBytes;
    var m := AckNames(a);
    Unfold(m);
    Unfold(m.rest);
    Unfold(m.rest.rest);
    Unfold(m.rest.rest.rest);
  }

  lemma DeliveredSized(recipientId: string, envelopeId: string, digest: string, e: Envelope, receivedAt: string,
                       sender: SenderVerification, rest: Members)
    ensures var m := DeliveredMembers(recipientId, envelopeId, digest, e, receivedAt, sender, rest);
            && CountMembers(m) == 4 + EnvelopeNodes(e) + 7 + CountMembers(rest)
            && InnermostMember(m) == Max(EnvelopeDepth(e), InnermostMember(rest))
            && MemberBytes(m)
               == DeliveredBytes(recipientId, envelopeId, digest, e, receivedAt, sender) + MemberBytes(rest)
  {
    EnvelopeSized(e);
    SenderSized(sender);
    hide Utf8Bytes, CountNodes, CountMembers, CountBytes, MemberBytes, Innermost, InnermostMember,
         EnvelopeNames, SenderMembers, EnvelopeBytes, SenderBytes, EnvelopeNodes;
    var m := DeliveredMembers(recipientId, envelopeId, digest, e, receivedAt, sender, rest);
    Unfold(m);
    Unfold(m.rest);
    Unfold(m.rest.rest);
    Unfold(m.rest.rest.rest);
    Unfold(m.rest.rest.rest.rest);
    Unfold(m.rest.rest.rest.rest.rest);
  }

  lemma StoredEndSized(r: Stored)
    ensures CountMembers(StoredEnd(r)) == (if r.ack.Some? then AckNodes(r.ack.value) else 1) + BindingNodes(r.binding)
    ensures InnermostMember(StoredEnd(r)) <= 2
    ensures MemberBytes(StoredEnd(r)) == |"delivery_binding"| + BindingBytes(r.binding) + |"read_acknowledgement"|
            + if r.ack.Some? then AckBytes(r.ack.value) else 0
  {
    if r.ack.Some? {
      AckSized(r.ack.value);
    }
    SignatureCounted(r.binding.signature);
    BindingSized(r.binding, SignatureMember(r.binding.signature));
    Nothing();
    hide Utf8Bytes, CountNodes, CountMembers, CountBytes, MemberBytes, Innermost, InnermostMember,
         AckNames, BindingMembers, AckBytes, BindingBytes, SignatureBytes, SignatureMember;
    var m := StoredEnd(r);
    Unfold(m);
    Unfold(m.rest);
  }

  ghost predicate SizesOf(ms: Members, d: Doc) {
    CountMembers(ms) + 1 == Nodes(d) && MemberBytes(ms) == StringBytes(d) && InnermostMember(ms) + 1 == Depth(d)
  }

  lemma WholeObject(ms: Members)
    requires ms.Member?
    ensures CountNodes(Object(ms)) == 1 + CountMembers(ms) && CountBytes(Object(ms)) == MemberBytes(ms)
    ensures Innermost(Object(ms)) == 1 + InnermostMember(ms)
  {
  }

  lemma BindingDocSized(b: Binding)
    ensures SizesOf(BindingMembers(b, SignatureMember(b.signature)), BindingDoc(b))
  {
    BindingSized(b, SignatureMember(b.signature));
    SignatureCounted(b.signature);
    hide Utf8Bytes, CountNodes, CountMembers, CountBytes, MemberBytes, Innermost, InnermostMember,
         BindingMembers, BindingBytes, SignatureMember, SignatureBytes;
  }

  lemma DeliveryDocSized(d: Doc)
    requires d.DeliveryDoc?
    ensures ValueOf(d).Object? && ValueOf(d).members.Member? && SizesOf(ValueOf(d).members, d)
  {
    hide Utf8Bytes, CountNodes, CountMembers, CountBytes, MemberBytes, Innermost, InnermostMember,
         BindingMembers, DeliveredMembers, BindingBytes, DeliveredBytes, EnvelopeNodes, SignatureMember, SignatureBytes;
    var b := d.unsigned;
    var inner := DeliveredMembers(d.recipientId, d.envelopeId, d.digest, d.delivered, d.receivedAt, d.sender, End);
    var rest := Member("stored_delivery", Object(inner), SignatureMember(b.signature));
    assert ValueOf(d) == Object(BindingMembers(b, rest));
    DeliveredSized(d.recipientId, d.envelopeId, d.digest, d.delivered, d.receivedAt, d.sender, End);
    SignatureCounted(b.signature);
    BindingSized(b, rest);
    Nothing();
    Unfold(rest);
  }

  lemma StoredDocSized(r: Stored)
    ensures ValueOf(StoredDoc(r)).Object? && ValueOf(StoredDoc(r)).members.Member?
    ensures SizesOf(ValueOf(StoredDoc(r)).members, StoredDoc(r))
  {
    hide Utf8Bytes, CountNodes, CountMembers, CountBytes, MemberBytes, Innermost, InnermostMember,
         BindingBytes, DeliveredBytes, EnvelopeNodes, AckBytes, StoredEnd, DeliveredMembers;
    DeliveredSized(r.recipientId, r.envelopeId, r.envelopeDigest, r.envelope, r.receivedAt, r.sender, StoredEnd(r));
    StoredEndSized(r);
  }

  /** The counts that decide what fits are those of the documents as the source builds them. */
  lemma SizesAreOfTheDocument(d: Doc)
    ensures Nodes(d) == CountNodes(ValueOf(d))
    ensures StringBytes(d) == CountBytes(ValueOf(d))
    ensures Depth(d) == Innermost(ValueOf(d))
  {
    hide Nodes, StringBytes, Depth, CountMembers, MemberBytes, InnermostMember;
    match d
    case PayloadDoc(p) => PayloadSized(p);
    case EnvelopeDoc(e) => EnvelopeDocSized(e);
    case BindingDoc(b) =>
      BindingDocSized(b);
      WholeObject(ValueOf(d).members);
    case DeliveryDoc(_, _, _, _, _, _, _) =>
      DeliveryDocSized(d);
      WholeObject(ValueOf(d).members);
    case AckDoc(a) => AckDocSized(a);
    case StoredDoc(r) =>
      StoredDocSized(r);
      WholeObject(ValueOf(d).members);
  }

  /** What fits: at most ten thousand values, 256 kilobytes of strings and member names, and 32 levels. */
  lemma FitsExactly(d: Doc)
    ensures Fits(d) <==>
            CountNodes(ValueOf(d)) <= 10_000 && CountBytes(ValueOf(d)) <= 262_144 && Innermost(ValueOf(d)) <= 32
  {
    SizesAreOfTheDocument(d);
    hide Nodes, StringBytes, Depth, ValueOf;
  }

  lemma PayloadSized(p: Content)
    ensures Nodes(PayloadDoc(p)) == CountNodes(Foreign(p)) && StringBytes(PayloadDoc(p)) == CountBytes(Foreign(p))
    ensures Depth(PayloadDoc(p)) == Innermost(Foreign(p))
  {
  }

  lemma EnvelopeDocSized(e: Envelope)
    ensures var (d, v) := (EnvelopeDoc(e), Object(EnvelopeNames(e)));
            Nodes(d) == CountNodes(v) && StringBytes(d) == CountBytes(v) && Depth(d) == Innermost(v)
  {
    EnvelopeSized(e);
    WholeObject(EnvelopeNames(e));
    hide EnvelopeNames, EnvelopeNodes, EnvelopeBytes, EnvelopeDepth, CountNodes, CountBytes, Innermost;
  }

  lemma AckDocSized(a: Ack)
    ensures var (d, v) := (AckDoc(a), Object(AckNames(a)));
            Nodes(d) == CountNodes(v) && StringBytes(d) == CountBytes(v) && Depth(d) == Innermost(v)
  {
    AckSized(a);
    WholeObject(AckNames(a));
    hide AckNames, AckNodes, AckBytes, CountNodes, CountBytes, Innermost;
  }

  /** UTF-8 takes one byte for 7 bits, two for 11, three for 16 and four for the 21 bits of every other character. */
  lemma {:induction false} Utf8BytesExactly(s: string, t: string)
    ensures Utf8Bytes(s + t) == Utf8Bytes(s) + Utf8Bytes(t)
    ensures |s| == 1 ==> var c := s[0];
                         Utf8Bytes(s) == if c < '\U{80}' then 1 else if c < '\U{800}' then 2
                                         else if c < '\U{10000}' then 3 else 4
  {
    if s == [] {
      assert s + t == t;
    } else {
      Utf8BytesExactly(s[1..], t);
      assert (s + t)[1..] == s[1..] + t;
      assert |s| == 1 ==> Utf8Bytes(s[1..]) == 0;
    }
  }
}
