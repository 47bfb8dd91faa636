/** One concrete environment for the mailbox of lib/agent-mailbox.ts, with a printer that is injective
    and refuses exactly the values over a limit, and a delivery in it that blocks its recipient. */
module MailboxConcrete {
  import opened Common
  import opened MailboxRecords
  import opened MailboxStores
  import opened MailboxService
  import opened MailboxDelivery
  import JsonText

  // ----- an injective printer ----------------------------------------------

  /** Each character marked, then an end mark. */
  function Quote(s: string): string {
    if s == [] then "." else "_" + [s[0]] + Quote(s[1..])
  }

  function Print(fields: seq<string>): string {
    if fields == [] then "" else Quote(fields[0]) + Print(fields[1..])
  }

  lemma {:induction false} QuoteSplits(a: string, x: string, b: string, y: string)
    requires Quote(a) + x == Quote(b) + y
    ensures a == b && x == y
    decreases |a|
  {
    var s, t := Quote(a) + x, Quote(b) + y;
    assert s[0] == (if a == [] then '.' else '_') && t[0] == (if b == [] then '.' else '_');
    if a == [] {
      assert s[1..] == x && t[1..] == y;
    } else {
      assert s[1] == a[0] && t[1] == b[0];
      assert s[2..] == Quote(a[1..]) + x && t[2..] == Quote(b[1..]) + y;
      QuoteSplits(a[1..], x, b[1..], y);
      assert a == [a[0]] + a[1..] && b == [b[0]] + b[1..];
    }
  }

  lemma {:induction false} PrintInjective(a: seq<string>, b: seq<string>)
    requires |a| == |b| && Print(a) == Print(b)
    ensures a == b
    decreases |a|
  {
    if a != [] {
      QuoteSplits(a[0], Print(a[1..]), b[0], Print(b[1..]));
      PrintInjective(a[1..], b[1..]);
      assert a == [a[0]] + a[1..] && b == [b[0]] + b[1..];
    }
  }

  function Flag(b: bool): string {
    if b then "t" else "f"
  }

  lemma IntTextInjective(i: int, j: int)
    requires JsonText.IntText(i) == JsonText.IntText(j)
    ensures i == j
  {
    hide JsonText.Digits;
    assert i < 0 ==> JsonText.IntText(i)[0] == '-';
    assert j < 0 ==> JsonText.IntText(j)[0] == '-';
    assert i >= 0 ==> JsonText.IsDigit(JsonText.IntText(i)[0]);
    assert j >= 0 ==> JsonText.IsDigit(JsonText.IntText(j)[0]);
    if i < 0 {
      assert JsonText.IntText(i)[1..] == JsonText.Digits(-i) && JsonText.IntText(j)[1..] == JsonText.Digits(-j);
      JsonText.NatOfDigits(-i);
      JsonText.NatOfDigits(-j);
    } else {
      JsonText.NatOfDigits(i);
      JsonText.NatOfDigits(j);
    }
  }

  function ContentText(c: Content): string {
    Print([c.text, JsonText.IntText(c.nodes), JsonText.IntText(c.bytes), JsonText.IntText(c.depth)])
  }

  lemma ContentInjective(a: Content, b: Content)
    requires ContentText(a) == ContentText(b)
    ensures a == b
  {
    var x := [a.text, JsonText.IntText(a.nodes), JsonText.IntText(a.bytes), JsonText.IntText(a.depth)];
    var y := [b.text, JsonText.IntText(b.nodes), JsonText.IntText(b.bytes), JsonText.IntText(b.depth)];
    hide Print, JsonText.IntText;
    PrintInjective(x, y);
    assert x[0] == y[0] && x[1] == y[1] && x[2] == y[2] && x[3] == y[3];
    IntTextInjective(a.nodes, b.nodes);
    IntTextInjective(a.bytes, b.bytes);
    IntTextInjective(a.depth, b.depth);
  }

  function SignatureText(s: Signature): string {
    Print([s.algorithm, s.value])
  }

  lemma SignatureInjective(a: Signature, b: Signature)
    requires SignatureText(a) == SignatureText(b)
    ensures a == b
  {
    hide Print;
    var x, y := [a.algorithm, a.value], [b.algorithm, b.value];
    PrintInjective(x, y);
    assert x[0] == y[0] && x[1] == y[1];
  }

  function EnvelopeFields(e: Envelope): (r: seq<string>)
    ensures |r| == 14
  {
    [e.version, e.envelopeId, e.senderId, e.recipientId, e.threadId, JsonText.IntText(e.sequence), e.messageType,
     ContentText(e.payload), e.payloadDigest, e.createdAt, e.expiresAt, Flag(e.authorizes), e.signerKeyId,
     SignatureText(e.signature)]
  }

  lemma EnvelopeInjective(a: Envelope, b: Envelope)
    requires Print(EnvelopeFields(a)) == Print(EnvelopeFields(b))
    ensures a == b
  {
    hide Print, JsonText.IntText, ContentText, SignatureText;
    var x, y := EnvelopeFields(a), EnvelopeFields(b);
    PrintInjective(x, y);
    assert x[5] == y[5] && x[7] == y[7] && x[11] == y[11] && x[13] == y[13];
    IntTextInjective(a.sequence, b.sequence);
    ContentInjective(a.payload, b.payload);
    SignatureInjective(a.signature, b.signature);
    assert x[0] == y[0] && x[1] == y[1] && x[2] == y[2] && x[3] == y[3] && x[4] == y[4] && x[6] == y[6];
    assert x[8] == y[8] && x[9] == y[9] && x[10] == y[10] && x[12] == y[12];
  }

  function SenderFields(s: SenderVerification): (r: seq<string>)
    ensures |r| == 6
  {
    [s.profile, s.senderId, s.signerKeyId, s.publicKey, s.verifiedAt, Flag(s.authorizes)]
  }

  lemma SenderInjective(a: SenderVerification, b: SenderVerification)
    requires Print(SenderFields(a)) == Print(SenderFields(b))
    ensures a == b
  {
    hide Print;
    var x, y := SenderFields(a), SenderFields(b);
    PrintInjective(x, y);
    assert x[0] == y[0] && x[1] == y[1] && x[2] == y[2] && x[3] == y[3] && x[4] == y[4] && x[5] == y[5];
  }

  function BindingFields(b: Binding): (r: seq<string>)
    ensures |r| == 5
  {
    [b.version, b.mailboxId, b.signerKeyId, Flag(b.authorizes), SignatureText(b.signature)]
  }

  lemma BindingInjective(a: Binding, b: Binding)
    requires Print(BindingFields(a)) == Print(BindingFields(b))
    ensures a == b
  {
    hide Print, SignatureText;
    var x, y := BindingFields(a), BindingFields(b);
    PrintInjective(x, y);
    assert x[0] == y[0] && x[1] == y[1] && x[2] == y[2] && x[3] == y[3] && x[4] == y[4];
    SignatureInjective(a.signature, b.signature);
  }

  function AckFields(a: Ack): (r: seq<string>)
    ensures |r| == 10
  {
    [a.version, a.mailboxId, a.recipientId, a.envelopeId, a.envelopeDigest, a.bindingDigest, a.readAt,
        Flag(a.authorizes),
     a.signerKeyId, SignatureText(a.signature)]
  }

  lemma AckInjective(a: Ack, b: Ack)
    requires Print(AckFields(a)) == Print(AckFields(b))
    ensures a == b
  {
    hide Print, SignatureText;
    var x, y := AckFields(a), AckFields(b);
    PrintInjective(x, y);
    assert x[0] == y[0] && x[1] == y[1] && x[2] == y[2] && x[3] == y[3] && x[4] == y[4];
    assert x[5] == y[5] && x[6] == y[6] && x[7] == y[7] && x[8] == y[8] && x[9] == y[9];
    SignatureInjective(a.signature, b.signature);
  }

  function AckOptionText(a: Option<Ack>): string {
    if a.None? then "" else Quote("") + Print(AckFields(a.value))
  }

  lemma AckOptionInjective(a: Option<Ack>, b: Option<Ack>)
    requires AckOptionText(a) == AckOptionText(b)
    ensures a == b
  {
    hide Print;
    if a.Some? && b.Some? {
      QuoteSplits("", Print(AckFields(a.value)), "", Print(AckFields(b.value)));
      AckInjective(a.value, b.value);
    }
  }

  function StoredFields(r: Stored): (f: seq<string>)
    ensures |f| == 8
  {
    [r.recipientId, r.envelopeId, r.envelopeDigest, Print(EnvelopeFields(r.envelope)), r.receivedAt,
        AckOptionText(r.ack),
     Print(SenderFields(r.sender)), Print(BindingFields(r.binding))]
  }

  lemma StoredInjective(a: Stored, b: Stored)
    requires Print(StoredFields(a)) == Print(StoredFields(b))
    ensures a == b
  {
    hide Print, EnvelopeFields, SenderFields, BindingFields, AckOptionText;
    var x, y := StoredFields(a), StoredFields(b);
    PrintInjective(x, y);
    assert x[0] == y[0] && x[1] == y[1] && x[2] == y[2] && x[3] == y[3] && x[4] == y[4];
    assert x[5] == y[5] && x[6] == y[6] && x[7] == y[7];
    EnvelopeInjective(a.envelope, b.envelope);
    AckOptionInjective(a.ack, b.ack);
    SenderInjective(a.sender, b.sender);
    BindingInjective(a.binding, b.binding);
  }

  function Text(d: Doc): string {
    match d
    case PayloadDoc(p) => ContentText(p)
    case EnvelopeDoc(e) => Print(EnvelopeFields(e))
    case BindingDoc(b) => Print(BindingFields(b))
    case DeliveryDoc(recipientId, envelopeId, digest, e, receivedAt, sender, b) =>
      Print(StoredFields(Stored(recipientId, envelopeId, digest, e, receivedAt, None, sender, b)))
    case AckDoc(a) => Print(AckFields(a))
    case StoredDoc(r) => Print(StoredFields(r))
  }

  lemma TextInjective(a: Doc, b: Doc)
    requires SameKind(a, b) && Text(a) == Text(b)
    ensures a == b
  {
    hide Print, EnvelopeFields, SenderFields, BindingFields, AckFields, StoredFields, ContentText;
    match a
    case PayloadDoc(p) => ContentInjective(p, b.payload);
    case EnvelopeDoc(e) => EnvelopeInjective(e, b.envelope);
    case BindingDoc(x) => BindingInjective(x, b.binding);
    case DeliveryDoc(recipientId, envelopeId, digest, e, receivedAt, sender, x) =>
      StoredInjective(Stored(recipientId, envelopeId, digest, e, receivedAt, None, sender, x),
                      Stored(b.recipientId, b.envelopeId, b.digest, b.delivered, b.receivedAt, None, b.sender,
                          b.unsigned));
    case AckDoc(x) => AckInjective(x, b.ack);
    case StoredDoc(r) => StoredInjective(r, b.stored);
  }

  // ----- the environment ---------------------------------------------------

  function Repeat(c: char, n: nat): (s: string)
    ensures |s| == n && forall i :: 0 <= i < n ==> s[i] == c
  {
    if n == 0 then "" else [c] + Repeat(c, n - 1)
  }

  const ZEROS: Digest := Repeat('0', 64)
  const SIGNED: string := Repeat('A', SIGNATURE_CHARS)

  /** Later times are longer strings. */
  const SAMPLE: Env := Env(
    d => if Fits(d) then Some(Text(d)) else None,
    _ => ZEROS,
    s => |s| == 71,
    s => Some(|s|),
    s => Utf8Bytes(s) == SIGNATURE_CHARS,
    _ => Some(0),
    k => k,
    (_, _, _) => SIGNED,
    (_, _, _, _) => true)

  lemma {:induction false} AsciiBytes(s: string)
    requires forall i :: 0 <= i < |s| ==> s[i] as int < 0x80
    ensures Utf8Bytes(s) == |s|
  {
    if s != [] {
      AsciiBytes(s[1..]);
    }
  }

  lemma {:induction false} AtMostFourEach(s: string)
    ensures Utf8Bytes(s) <= 4 * |s|
  {
    if s != [] {
      AtMostFourEach(s[1..]);
    }
  }

  lemma SampleIsHonest()
    ensures Honest(SAMPLE) && Limited(SAMPLE) && SignatureSized(SAMPLE)
  {
    hide Repeat;
    AsciiBytes(SIGNED);
    hide Utf8Bytes, Text, Fits;
    forall a, b | SameKind(a, b) && SAMPLE.canonical(a).Some? && SAMPLE.canonical(a) == SAMPLE.canonical(b)
      ensures a == b
    {
      TextInjective(a, b);
    }
    forall t ensures SAMPLE.isDigest("sha256:" + SAMPLE.sha(t)) {
      assert |"sha256:" + ZEROS| == 71;
    }
  }

  /** What the sample environment answers. */
  ghost predicate Sampled(env: Env) {
    && (forall d :: env.canonical(d) == if Fits(d) then Some(Text(d)) else None)
    && (forall t :: env.sha(t) == ZEROS)
    && (forall s :: env.isDigest(s) <==> |s| == 71)
    && (forall s :: env.instant(s) == Some(|s|))
    && (forall s :: env.isSignature(s) <==> Utf8Bytes(s) == SIGNATURE_CHARS)
    && (forall s :: env.publicKey(s) == Some(0))
    && (forall k :: env.publicOf(k) == k)
    && (forall d, t, k :: env.sign(d, t, k) == SIGNED)
    && (forall d, t, s, k :: env.checkSignature(d, t, s, k))
  }

  lemma SampleIsSampled()
    ensures Sampled(SAMPLE)
  {
    hide Repeat;
    hide Utf8Bytes, Text, Fits;
  }

  // ----- a delivery that cannot be listed ----------------------------------

  const MAILBOX := Service("mailbox", "key-0", 0, map["key-0" := 0])
  const DIRECTORY: Directory := map["alice" := DirectoryEntry("key-1", "pk", "active")]
  const NOW := "aa"

  /** An envelope whose payload has the given number of values. */
  function SampleEnvelope(id: string, sequence: int, nodes: nat): Envelope {
    Envelope(ENVELOPE_VERSION, id, "alice", "bobby", "thread", sequence, "note", Content("p", nodes, 0, 0),
        "sha256:" + ZEROS,
             "a", "aaa", false, "key-1", Signature(ED25519, SIGNED))
  }

  ghost predicate SampleArguments(id: string, sequence: int) {
    Identifier(id) && |id| <= 10 && 1 <= sequence <= MAX_SAFE_INTEGER
  }

  lemma SampleNames()
    ensures Identifier("alice") && Identifier("bobby") && Identifier("thread") && Identifier("key-0")
            && Identifier("key-1")
    ensures Identifier("mailbox") && Identifier("env-1") && Identifier("env-2")
  {
    hide Repeat;
  }

  /** Everything but the payload of a sample envelope is short. */
  lemma SampleBytes(id: string, sequence: int, nodes: nat)
    requires |id| <= 10
    ensures EnvelopeBytes(SampleEnvelope(id, sequence, nodes)) <= 2000
    ensures EnvelopeBytes(SampleEnvelope(id, sequence, nodes).(signature := UNSIGNED)) <= 2000
  {
    hide Repeat;
    AtMostFourEach(ENVELOPE_VERSION);
    AtMostFourEach(id);
    AtMostFourEach("alice");
    AtMostFourEach("bobby");
    AtMostFourEach("thread");
    AtMostFourEach("note");
    AtMostFourEach("sha256:" + ZEROS);
    AtMostFourEach("a");
    AtMostFourEach("aaa");
    AtMostFourEach("key-1");
    AtMostFourEach(ED25519);
    AtMostFourEach(SIGNED);
    hide Utf8Bytes;
  }

  lemma SampleVerifies(env: Env, id: string, sequence: int, nodes: nat)
    requires Sampled(env) && SampleArguments(id, sequence) && nodes <= 9983
    ensures VerifyEnvelope(env, Some(SampleEnvelope(id, sequence, nodes)), DIRECTORY, "bobby", NOW)
         == Accepted("sha256:" + ZEROS, SAMPLE_SENDER)
  {
    hide Repeat;
    hide EnvelopeBytes, Text;
    var e := SampleEnvelope(id, sequence, nodes);
    SampleBytes(id, sequence, nodes);
    SampleShape(env, id, sequence, nodes);
    EnvelopeFits(e);
    SampleSeals(env, EnvelopeDoc(e));
    SampleSeals(env, PayloadDoc(e.payload));
    SampleSeals(env, EnvelopeDoc(e.(signature := UNSIGNED)));
    SamplePoints(env);
    hide Sampled, EnvelopeShape, DigestOf, Verifies, Fits, Text, EnvelopeBytes;
    AcceptedWhen(env, e, DIRECTORY, NOW, "sha256:" + ZEROS);
  }

  const SAMPLE_SENDER := SenderVerification(VERIFICATION_PROFILE, "alice", "key-1", "pk", NOW, false)

  lemma EnvelopeFits(e: Envelope)
    requires e.payload.nodes <= 9983 && e.payload.bytes == 0 && e.payload.depth == 0
    requires EnvelopeBytes(e) <= 2000 && EnvelopeBytes(e.(signature := UNSIGNED)) <= 2000
    ensures Fits(EnvelopeDoc(e)) && Fits(EnvelopeDoc(e.(signature := UNSIGNED))) && Fits(PayloadDoc(e.payload))
  {
    hide Repeat;
    hide EnvelopeBytes;
  }

  /** In the sample environment every value that fits is digested and signed alike. */
  lemma SampleSeals(env: Env, d: Doc)
    requires Sampled(env) && Fits(d)
    ensures DigestOf(env, d) == Some("sha256:" + ZEROS) && env.canonical(d).Some?
    ensures forall domain, key :: Verifies(env, domain, d, SIGNED, key)
  {
    hide Repeat, Fits, Text, Utf8Bytes;
    SamplePoints(env);
    assert env.canonical(d) == Some(Text(d)) && env.sha(Text(d)) == ZEROS;
    assert forall domain, key :: env.checkSignature(domain, Text(d), SIGNED, key);
    hide Sampled;
  }

  lemma SampleShape(env: Env, id: string, sequence: int, nodes: nat)
    requires Sampled(env) && SampleArguments(id, sequence)
    ensures EnvelopeShape(env, SampleEnvelope(id, sequence, nodes))
  {
    hide Repeat;
    SampleNames();
    SamplePoints(env);
    hide Sampled, Identifier;
  }

  lemma SamplePoints(env: Env)
    requires Sampled(env)
    ensures env.isDigest("sha256:" + ZEROS) && env.isSignature(SIGNED) && env.publicKey("pk") == Some(0)
    ensures env.instant("a") == Some(1) && env.instant("aaa") == Some(3) && env.instant(NOW) == Some(2)
  {
    hide Repeat;
    AsciiBytes(SIGNED);
    hide Utf8Bytes, Text, Fits;
    assert |"sha256:" + ZEROS| == 71;
  }

  /** The checks of verifyAgentMailboxEnvelope, all passed. */
  lemma AcceptedWhen(env: Env, e: Envelope, directory: Directory, now: string, digest: string)
    requires EnvelopeShape(env, e) && DigestOf(env, EnvelopeDoc(e)) == Some(digest)
    requires env.instant(e.createdAt).Some? && env.instant(e.expiresAt).Some? && env.instant(now).Some?
    requires env.instant(e.createdAt).value < env.instant(e.expiresAt).value
    requires env.instant(e.createdAt).value <= env.instant(now).value <= env.instant(e.expiresAt).value
    requires DigestOf(env, PayloadDoc(e.payload)) == Some(e.payloadDigest)
    requires e.senderId in directory && directory[e.senderId].keyId == e.signerKeyId
    requires directory[e.senderId].status == "active" && env.publicKey(directory[e.senderId].publicKey).Some?
    requires Verifies(env, EnvelopeDomain, EnvelopeDoc(e.(signature := UNSIGNED)), e.signature.value,
                      env.publicKey(directory[e.senderId].publicKey).value)
    ensures VerifyEnvelope(env, Some(e), directory, e.recipientId, now)
         == Accepted(digest, SenderVerification(VERIFICATION_PROFILE, e.senderId, e.signerKeyId,
                                                directory[e.senderId].publicKey, now, false))
  {
    hide Repeat;
    hide EnvelopeShape, DigestOf, Verifies;
  }

  lemma MailboxConfigured(env: Env)
    requires Sampled(env)
    ensures Configured(env, MAILBOX)
  {
    hide Repeat;
    SampleNames();
    hide Identifier, Fits, Text, Utf8Bytes;
  }

  const SAMPLE_BINDING := Binding(STORED_DELIVERY_VERSION, "mailbox", "key-0", false, Signature(ED25519, SIGNED))

  /** The record that delivering a sample envelope makes. */
  function SampleRecord(id: string, sequence: int, nodes: nat): Stored {
    Stored("bobby", id, "sha256:" + ZEROS, SampleEnvelope(id, sequence, nodes), NOW, None, SAMPLE_SENDER,
        SAMPLE_BINDING)
  }

  lemma SenderShort()
    ensures SenderBytes(SAMPLE_SENDER) <= 1000
  {
    hide Repeat;
    AtMostFourEach(VERIFICATION_PROFILE);
    AtMostFourEach("alice");
    AtMostFourEach("key-1");
    AtMostFourEach("pk");
    AtMostFourEach(NOW);
    hide Utf8Bytes;
  }

  lemma BindingShort()
    ensures BindingBytes(SAMPLE_BINDING) <= 1000 && BindingBytes(SAMPLE_BINDING.(signature := UNSIGNED)) <= 1000
  {
    hide Repeat;
    AtMostFourEach(STORED_DELIVERY_VERSION);
    AtMostFourEach("mailbox");
    AtMostFourEach("key-0");
    AtMostFourEach(ED25519);
    AtMostFourEach(SIGNED);
    hide Utf8Bytes;
  }

  lemma DeliveredShort(id: string, e: Envelope, sender: SenderVerification)
    requires |id| <= 10 && EnvelopeBytes(e) <= 2000 && SenderBytes(sender) <= 1000
    ensures DeliveredBytes("bobby", id, "sha256:" + ZEROS, e, NOW, sender) <= 4000
  {
    hide Repeat, EnvelopeBytes, SenderBytes;
    AtMostFourEach("bobby");
    AtMostFourEach(id);
    AtMostFourEach("sha256:" + ZEROS);
    AtMostFourEach(NOW);
    hide Utf8Bytes;
  }

  lemma RecordBytes(id: string, sequence: int, nodes: nat)
    requires |id| <= 10
    ensures StringBytes(DeliveryOf(SampleRecord(id, sequence, nodes))) <= 6000
    ensures StringBytes(StoredDoc(SampleRecord(id, sequence, nodes))) <= 6000
  {
    hide Repeat, EnvelopeBytes, SenderBytes, BindingBytes, DeliveredBytes, SampleEnvelope;
    SampleBytes(id, sequence, nodes);
    SenderShort();
    BindingShort();
    DeliveredShort(id, SampleEnvelope(id, sequence, nodes), SAMPLE_SENDER);
  }

  /** deliver up to the store, when nothing stands in the way. */
  lemma BoundWhen(env: Env, svc: Service, directory: Directory, now: string, e: Envelope, digest: string,
                  sender: SenderVerification, r: Stored)
    requires VerifyEnvelope(env, Some(e), directory, e.recipientId, now) == Accepted(digest, sender)
    requires r == Unbound(svc, e.recipientId, now, e, digest, sender).(binding := r.binding)
    requires r.binding.(signature := UNSIGNED) == UnsignedBinding(svc) && env.canonical(DeliveryOf(r)).Some?
    requires r.binding.signature
          == Signature(ED25519, env.sign(DeliveryDomain, env.canonical(DeliveryOf(r)).value, svc.privateKey))
    ensures Prepare(env, svc, directory, now, e.recipientId, Some(e)) == Bound(r)
  {
    hide VerifyEnvelope;
    assert DeliveryOf(Unbound(svc, e.recipientId, now, e, digest, sender)) == DeliveryOf(r);
  }

  lemma SampleFits(id: string, sequence: int, nodes: nat)
    requires |id| <= 10
    ensures nodes <= 9966 ==> Fits(DeliveryOf(SampleRecord(id, sequence, nodes)))
    ensures nodes <= 9962 <==> Fits(StoredDoc(SampleRecord(id, sequence, nodes)))
  {
    hide Repeat, StringBytes;
    RecordBytes(id, sequence, nodes);
  }

  lemma SamplePrepares(env: Env, id: string, sequence: int, nodes: nat)
    requires Sampled(env) && SampleArguments(id, sequence) && nodes <= 9966
    ensures Prepare(env, MAILBOX, DIRECTORY, NOW, "bobby", Some(SampleEnvelope(id, sequence, nodes)))
         == Bound(SampleRecord(id, sequence, nodes))
  {
    hide Repeat, VerifyEnvelope, Fits, Text, Prepare, Identifier;
    var r := SampleRecord(id, sequence, nodes);
    SampleVerifies(env, id, sequence, nodes);
    SampleFits(id, sequence, nodes);
    SampleSigns(env, DeliveryOf(r));
    hide Sampled;
    BoundWhen(env, MAILBOX, DIRECTORY, NOW, r.envelope, "sha256:" + ZEROS, SAMPLE_SENDER, r);
  }

  lemma SampleSigns(env: Env, d: Doc)
    requires Sampled(env) && Fits(d)
    ensures env.canonical(d).Some? && forall domain, key :: env.sign(domain, env.canonical(d).value, key) == SIGNED
  {
    hide Repeat, Fits, Text, Utf8Bytes;
  }

  /** Deliveries into an empty mailbox that can be signed and not listed block the list. */
  lemma OversizedRun(env: Env, svc: Service, directory: Directory, now: string, r: Stored) returns (t: State)
    requires Honest(env) && Limited(env) && env.instant(now).Some? && Configured(env, svc) && Identifier(r.recipientId)
    requires Prepare(env, svc, directory, now, r.recipientId, Some(r.envelope)) == Bound(r) && !Fits(StoredDoc(r))
    ensures Reaches(env, Start(svc, directory, now), [BeginDeliver(r.recipientId, Some(r.envelope)), StorePut(r)], t)
    ensures Conclude(env, svc, r, Some(MemoryPut(OrderedMap([], map[]), r).1)) == DeliveryRefused(STORE_RESULT_INVALID)
    ensures t.store.Valid() && !AllPass(env, svc, r.recipientId, now, Wrap(ListFor(Values(t.store), r.recipientId)))
  {
    hide Prepare, Honest, Limited, Configured, Identifier, Fits, Reaches, Good, Conclude, AllPass, KeyOf;
    var begin, put := BeginDeliver(r.recipientId, Some(r.envelope)), StorePut(r);
    var empty := Start(svc, directory, now);
    var s := empty.(bound := {r});
    assert Apply(env, empty, begin) == s && Enabled(env, empty, begin) && Enabled(env, s, put);
    t := Apply(env, s, put);
    TwoSteps(env, empty, begin, s, put, t);
    StartIsGood(env, svc, directory, now);
    StepKeepsGood(env, empty, begin);
    ReachesItself(env, t);
    OversizedBlocksTheList(env, s, r, [], t);
  }

  lemma ReachesItself(env: Env, t: State)
    ensures Reaches(env, t, [], t)
  {
  }

  lemma TwoSteps(env: Env, s: State, a: Step, t: State, b: Step, u: State)
    requires s.store.Valid() && Enabled(env, s, a) && Apply(env, s, a) == t
    requires t.store.Valid() && Enabled(env, t, b) && Apply(env, t, b) == u
    ensures Reaches(env, s, [a, b], u)
  {
    hide Apply, Enabled;
    ReachesItself(env, u);
    assert [a, b][1..] == [b] && [b][1..] == [];
    assert Reaches(env, t, [b], u);
  }

  const BLOCKING := SampleRecord("env-1", 1, 9963)

  /** An honest, limited environment and a delivery into an empty mailbox whose envelope has 9980
      values: it is answered REFUSED, and the recipient's list fails from then on. */
  lemma OversizedOccurs() returns (t: State)
    ensures Honest(SAMPLE) && Limited(SAMPLE) && SignatureSized(SAMPLE) && EnvelopeNodes(BLOCKING.envelope) == 9980
    ensures Reaches(SAMPLE, Start(MAILBOX, DIRECTORY, NOW),
              [BeginDeliver("bobby", Some(BLOCKING.envelope)), StorePut(BLOCKING)], t)
    ensures Conclude(SAMPLE, MAILBOX, BLOCKING, Some(MemoryPut(OrderedMap([], map[]), BLOCKING).1))
         == DeliveryRefused(STORE_RESULT_INVALID)
    ensures t.store.Valid() && !AllPass(SAMPLE, MAILBOX, "bobby", NOW, Wrap(ListFor(Values(t.store), "bobby")))
  {
    hide Repeat, Reaches, Conclude, AllPass, MemoryPut, Prepare, Fits, Identifier, Configured, Text;
    SampleIsHonest();
    SampleIsSampled();
    SampleNames();
    MailboxConfigured(SAMPLE);
    SamplePrepares(SAMPLE, "env-1", 1, 9963);
    SampleFits("env-1", 1, 9963);
    assert SAMPLE.instant(NOW).Some?;
    hide Sampled, Honest, Limited, SignatureSized;
    t := OversizedRun(SAMPLE, MAILBOX, DIRECTORY, NOW, BLOCKING);
  }
}
