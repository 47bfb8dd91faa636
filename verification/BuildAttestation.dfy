/** Build attestation records of attestation/merkle-log.ts and attestation/build-attestation.ts: the
    log entry that is appended, and the chain of links a record must pass. */
module BuildAttestation {
  import opened Common
  import opened MerkleShape
  import opened ReceiptMerkle

  datatype Source = Source(commit: string, packagePath: string)
  datatype Artifact = Artifact(filename: string, sha256: string, bytes: int)
  datatype LogEntry = LogEntry(alg: string, leafHash: string, proof: seq<Step<string>>, root: string,
                               treeSize: nat, checkpointRoot: Option<string>)

  /** `None` for the quote's structure check failing, else the quote's text. */
  type Quote = Option<string>
  datatype Record = Record(version: string, source: Source, artifact: Artifact, log: LogEntry, tpmQuote: Option<Quote>)

  /** What the log leaf commits to. */
  datatype Subject = Subject(commit: string, packagePath: string, filename: string, sha256: string)

  const RECORD_VERSION := "EP-BUILD-ATTESTATION-v1"
  const MERKLE_V2_ALG := "EP-MERKLE-v2"

  /** SHA-256, canonical JSON of a subject, and the whitespace test, none of them opened here. */
  datatype Host = Host(sha: Hash, canon: Subject -> string, blank: string -> bool)

  predicate HexChar(c: char) {
    '0' <= c <= '9' || 'a' <= c <= 'f'
  }

  predicate Hex(s: string, n: nat) {
    |s| == n && forall i :: 0 <= i < |s| ==> HexChar(s[i])
  }

  /** Digests are lower-case hexadecimal and the canonical text of a subject fixes it. */
  ghost predicate Honest(host: Host) {
    (forall x :: Hex(host.sha(x), 64)) && (forall a, b :: host.canon(a) == host.canon(b) ==> a == b)
  }

  function SubjectOf(source: Source, artifact: Artifact): Subject {
    Subject(source.commit, source.packagePath, artifact.filename, artifact.sha256)
  }

  function LeafHash(host: Host, subject: Subject): string {
    host.sha(LEAF_TAG + host.canon(subject))
  }

  function Texts(host: Host, subjects: seq<Subject>): (r: seq<string>)
    ensures |r| == |subjects| && forall i :: 0 <= i < |r| ==> r[i] == host.canon(subjects[i])
  {
    seq(|subjects|, i requires 0 <= i < |subjects| => host.canon(subjects[i]))
  }

  // ----- the log side ------------------------------------------------------

  /** buildLogEntry; `None` is the thrown error. */
  function BuildLogEntry(host: Host, subjects: seq<Subject>, index: int): Option<LogEntry> {
    if |subjects| == 0 || index < 0 || index >= |subjects| then None
    else
      var texts := Texts(host, subjects);
      Some(LogEntry(MERKLE_V2_ALG, LeafHash(host, subjects[index]), Path(host.sha, true, texts, index),
                    Root(host.sha, true, texts), |subjects|, None))
  }

  function AssembleRecord(host: Host, source: Source, artifact: Artifact, others: seq<Subject>): Record {
    var subjects := others + [SubjectOf(source, artifact)];
    Record(RECORD_VERSION, source, artifact, BuildLogEntry(host, subjects, |others|).value, None)
  }

  // ----- the verifier ------------------------------------------------------

  predicate WellFormed(host: Host, source: Source, artifact: Artifact) {
    Hex(source.commit, 40) && !host.blank(source.packagePath)
    && !host.blank(artifact.filename) && Hex(artifact.sha256, 64) && artifact.bytes >= 0
  }

  /** structuralError found nothing. */
  predicate Shaped(host: Host, r: Record) {
    r.version == RECORD_VERSION && WellFormed(host, r.source, r.artifact)
    && r.log.alg == MERKLE_V2_ALG && Hex(r.log.leafHash, 64) && Hex(r.log.root, 64)
  }

  /** verifyMerkleAnchor with `v2: true`. */
  ghost predicate AnchorAccepts(h: Hash, leafHash: string, proof: seq<Step<string>>, root: string) {
    leafHash != "" && root != "" && |proof| <= MAX_PROOF_STEPS
    && (forall i :: 0 <= i < |proof| ==> proof[i].position != Other)
    && Fold(Pairing(h, true), leafHash, proof) == root
  }

  method VerifyMerkleAnchor(h: Hash, leafHash: string, proof: seq<Step<string>>,
                            expectedRoot: string) returns (ok: bool)
    ensures ok <==> AnchorAccepts(h, leafHash, proof, expectedRoot)
  {
    if leafHash == "" || expectedRoot == "" || |proof| > MAX_PROOF_STEPS {
      return false;
    }
    var pair := Pairing(h, true);
    var current := leafHash;
    var i := 0;
    while i < |proof|
      invariant 0 <= i <= |proof|
      invariant forall j :: 0 <= j < i ==> proof[j].position != Other
      invariant Fold(pair, current, proof[i..]) == Fold(pair, leafHash, proof)
    {
      if proof[i].position == Other {
        return false;
      }
      assert proof[i..][1..] == proof[i + 1..];
      current := if proof[i].position == Left then pair(proof[i].hash, current) else pair(current, proof[i].hash);
      i := i + 1;
    }
    return current == expectedRoot;
  }

  /** What an injected rebuild did; a missing or ill-typed answer field is `None`. */
  datatype Rebuilt = Threw | Built(commit: Option<string>, sha256: Option<string>)
  type Rebuild = Source -> Rebuilt

  datatype Inclusion = NotIncluded | Included | IncludedAtCheckpoint
  datatype RebuildLink = NotChecked | RebuildError | SourceMismatch | HashMismatch | Matched
  datatype TpmLink = Absent | Malformed | HardwareRequired | Rejected | QuoteVerified
  datatype Links = Links(shape: bool, leafBinding: bool, inclusion: Inclusion, rebuild: RebuildLink, tpm: TpmLink)
  datatype Verdict = Verdict(valid: bool, complete: bool, links: Links)

  const NO_LINKS := Links(false, false, NotIncluded, NotChecked, Absent)

  /** The leaf is this record's own, and it is in the claimed tree. */
  ghost predicate Bound(host: Host, r: Record) {
    r.log.leafHash == LeafHash(host, SubjectOf(r.source, r.artifact))
  }

  ghost predicate Logged(host: Host, r: Record) {
    AnchorAccepts(host.sha, r.log.leafHash, r.log.proof, r.log.root)
    && (r.log.checkpointRoot.Some? ==> r.log.checkpointRoot.value == r.log.root)
  }

  /** The rebuild reported exactly the claimed commit and binary. */
  ghost predicate Reproduced(r: Record, rebuild: Rebuild) {
    Hex(r.artifact.sha256, 64) && Hex(r.source.commit, 40)
    && rebuild(r.source) == Built(Some(r.source.commit), Some(r.artifact.sha256))
  }

  ghost predicate QuoteHolds(r: Record, tpm: Option<string -> bool>) {
    r.tpmQuote.Some? ==> r.tpmQuote.value.Some? && (tpm.Some? ==> tpm.value(r.tpmQuote.value.value))
  }

  /** Every link that was checked holds. */
  ghost predicate Attested(host: Host, r: Record, rebuild: Option<Rebuild>, tpm: Option<string -> bool>) {
    Shaped(host, r) && Bound(host, r) && Logged(host, r)
    && (rebuild.Some? ==> Reproduced(r, rebuild.value)) && QuoteHolds(r, tpm)
  }

  function RebuildStatus(r: Record, rebuild: Rebuild): RebuildLink {
    match rebuild(r.source)
    case Threw => RebuildError
    case Built(commit, sha) =>
      if sha.None? || !Hex(sha.value, 64) then RebuildError
      else if commit.None? || !Hex(commit.value, 40) then RebuildError
      else if commit.value != r.source.commit then SourceMismatch
      else if sha.value != r.artifact.sha256 then HashMismatch
      else Matched
  }

  // ----- the links in their own terms --------------------------------------

  ghost predicate LowerHex(s: string, n: nat) {
    |s| == n && forall i :: 0 <= i < |s| ==> s[i] in "0123456789abcdef"
  }

  lemma HexExactly(s: string, n: nat)
    ensures Hex(s, n) <==> LowerHex(s, n)
  {
    forall i | 0 <= i < |s|
      ensures HexChar(s[i]) <==> s[i] in "0123456789abcdef"
    {
      HexCharExactly(s[i]);
    }
    hide HexChar;
  }

  lemma HexCharExactly(c: char)
    ensures HexChar(c) <==> c in "0123456789abcdef"
  {
    if HexChar(c) {
      var k := if c <= '9' then c as int - '0' as int else 10 + (c as int - 'a' as int);
      assert "0123456789abcdef"[k] == c;
    }
  }

  /** A source and a binary that a record can name. */
  ghost predicate Nameable(host: Host, source: Source, artifact: Artifact) {
    && LowerHex(source.commit, 40) && !host.blank(source.packagePath)
    && !host.blank(artifact.filename) && LowerHex(artifact.sha256, 64) && artifact.bytes >= 0
  }

  /** record_shape: every field is of its form. */
  ghost predicate WellShaped(host: Host, r: Record) {
    && r.version == "EP-BUILD-ATTESTATION-v1" && Nameable(host, r.source, r.artifact)
    && r.log.alg == "EP-MERKLE-v2" && LowerHex(r.log.leafHash, 64) && LowerHex(r.log.root, 64)
  }

  /** leaf_binding: the leaf is the tagged digest of this source and this binary. */
  ghost predicate LeafIsItsOwn(host: Host, r: Record) {
    var text := host.canon(Subject(r.source.commit, r.source.packagePath, r.artifact.filename, r.artifact.sha256));
    r.log.leafHash == host.sha(['\0'] + text)
  }

  /** log_inclusion: at most twenty labelled steps lead from the leaf to the root. */
  ghost predicate InTree(host: Host, r: Record) {
    var text := host.canon(Subject(r.source.commit, r.source.packagePath, r.artifact.filename, r.artifact.sha256));
    && |r.log.proof| <= 20
    && (forall i :: 0 <= i < |r.log.proof| ==> r.log.proof[i].position == Left || r.log.proof[i].position == Right)
    && exists digests ::
         LeadsUp(host.sha, true, text, r.log.proof, digests) && digests[|r.log.proof|] == r.log.root
  }

  ghost predicate CheckpointAgrees(r: Record) {
    r.log.checkpointRoot == None || r.log.checkpointRoot == Some(r.log.root)
  }

  /** rebuild: what an injected rebuild of the source reported about itself. */
  ghost predicate ReportsBuild(r: Record, rebuild: Rebuild, commit: string, sha: string) {
    rebuild(r.source) == Built(Some(commit), Some(sha)) && LowerHex(commit, 40) && LowerHex(sha, 64)
  }

  ghost predicate LinkIs(r: Record, rebuild: Rebuild, link: RebuildLink) {
    && (link == Matched <==> ReportsBuild(r, rebuild, r.source.commit, r.artifact.sha256))
    && (link == HashMismatch <==>
        exists sha :: ReportsBuild(r, rebuild, r.source.commit, sha) && sha != r.artifact.sha256)
    && (link == SourceMismatch <==>
        exists commit, sha :: ReportsBuild(r, rebuild, commit, sha) && commit != r.source.commit)
    && (link == RebuildError <==> forall commit, sha :: !ReportsBuild(r, rebuild, commit, sha))
  }

  ghost predicate QuoteLinkIs(r: Record, tpm: Option<string -> bool>, link: TpmLink) {
    && (link == Absent <==> r.tpmQuote == None)
    && (link == Malformed <==> r.tpmQuote == Some(None))
    && (link == HardwareRequired <==> r.tpmQuote.Some? && r.tpmQuote.value.Some? && tpm.None?)
    && (link == QuoteVerified <==>
        r.tpmQuote.Some? && r.tpmQuote.value.Some? && tpm.Some? && tpm.value(r.tpmQuote.value.value))
    && (link == Rejected <==>
        r.tpmQuote.Some? && r.tpmQuote.value.Some? && tpm.Some? && !tpm.value(r.tpmQuote.value.value))
  }

  /** The record's links up to the log. */
  ghost predicate Provenance(host: Host, r: Record) {
    WellShaped(host, r) && LeafIsItsOwn(host, r) && InTree(host, r) && CheckpointAgrees(r)
  }

  /** Every link that can be checked holds. */
  ghost predicate EveryLinkHolds(host: Host, r: Record, rebuild: Option<Rebuild>, tpm: Option<string -> bool>) {
    && Provenance(host, r)
    && (rebuild.Some? ==> rebuild.value(r.source) == Built(Some(r.source.commit), Some(r.artifact.sha256)))
    && (r.tpmQuote.Some? ==> r.tpmQuote.value.Some? && (tpm.Some? ==> tpm.value(r.tpmQuote.value.value)))
  }

  lemma ShapedExactly(host: Host, r: Record)
    ensures Shaped(host, r) <==> WellShaped(host, r)
  {
    HexExactly(r.source.commit, 40);
    HexExactly(r.artifact.sha256, 64);
    HexExactly(r.log.leafHash, 64);
    HexExactly(r.log.root, 64);
    hide Hex, LowerHex;
  }

  lemma AnchorExactly(host: Host, r: Record)
    requires WellShaped(host, r) && LeafIsItsOwn(host, r)
    ensures AnchorAccepts(host.sha, r.log.leafHash, r.log.proof, r.log.root) <==> InTree(host, r)
  {
    var text := host.canon(Subject(r.source.commit, r.source.packagePath, r.artifact.filename, r.artifact.sha256));
    FoldExactly(host.sha, true, text, r.log.proof, r.log.root);
    assert TreeLeaf(host.sha, true, text) == r.log.leafHash;
    hide Fold, LeadsUp;
  }

  lemma AttestedExactly(host: Host, r: Record, rebuild: Option<Rebuild>, tpm: Option<string -> bool>)
    ensures Attested(host, r, rebuild, tpm) <==> EveryLinkHolds(host, r, rebuild, tpm)
  {
    ShapedExactly(host, r);
    if WellShaped(host, r) {
      HexExactly(r.source.commit, 40);
      HexExactly(r.artifact.sha256, 64);
      if LeafIsItsOwn(host, r) {
        AnchorExactly(host, r);
      }
    }
    hide Hex, LowerHex, AnchorAccepts, InTree, Shaped;
  }

  lemma RebuildStatusExactly(r: Record, rebuild: Rebuild)
    ensures LinkIs(r, rebuild, RebuildStatus(r, rebuild))
  {
    var built := rebuild(r.source);
    if built.Built? && built.commit.Some? && built.sha256.Some? {
      HexExactly(built.commit.value, 40);
      HexExactly(built.sha256.value, 64);
      assert built == Built(Some(built.commit.value), Some(built.sha256.value));
      hide Hex, LowerHex;
      assert ReportsBuild(r, rebuild, built.commit.value, built.sha256.value)
             <==> Hex(built.commit.value, 40) && Hex(built.sha256.value, 64);
    }
    hide Hex, LowerHex;
  }

  /** verifyBuildAttestation; an ill-shaped record is `None`. */
  method VerifyBuildAttestation(host: Host, raw: Option<Record>, rebuild: Option<Rebuild>, tpm: Option<string -> bool>)
    returns (v: Verdict)
    ensures v.valid <==> raw.Some? && EveryLinkHolds(host, raw.value, rebuild, tpm)
    ensures v.complete <==>
            raw.Some? && Provenance(host, raw.value) && rebuild.Some?
            && exists sha :: ReportsBuild(raw.value, rebuild.value, raw.value.source.commit, sha)
    ensures v.valid ==> (v.complete <==> rebuild.Some?)
    ensures v.links.shape <==> raw.Some? && WellShaped(host, raw.value)
    ensures v.links.leafBinding <==> v.links.shape && LeafIsItsOwn(host, raw.value)
    ensures v.links.inclusion != NotIncluded <==> v.links.leafBinding && InTree(host, raw.value)
    ensures v.links.inclusion == IncludedAtCheckpoint <==>
            v.links.leafBinding && InTree(host, raw.value) && raw.value.log.checkpointRoot == Some(raw.value.log.root)
    ensures v.links.rebuild == NotChecked <==> raw.None? || !Provenance(host, raw.value) || rebuild.None?
    ensures v.links.rebuild != NotChecked ==> LinkIs(raw.value, rebuild.value, v.links.rebuild)
    ensures if raw.Some? && Provenance(host, raw.value) && (rebuild.None? || v.links.rebuild == Matched)
            then QuoteLinkIs(raw.value, tpm, v.links.tpm) else v.links.tpm == Absent
  {
    hide LinkIs, ReportsBuild, LeadsUp;
    if raw.Some? {
      ShapedExactly(host, raw.value);
      AttestedExactly(host, raw.value, rebuild, tpm);
      if WellShaped(host, raw.value) && LeafIsItsOwn(host, raw.value) {
        AnchorExactly(host, raw.value);
      }
      if rebuild.Some? {
        RebuildStatusExactly(raw.value, rebuild.value);
        ReportedCommit(raw.value, rebuild.value, RebuildStatus(raw.value, rebuild.value));
      }
    }
    hide WellShaped, InTree, RebuildStatus;
    hide AnchorAccepts, Hex, LeafHash, WellFormed;
    var links, complete := NO_LINKS, false;
    if raw.None? || !Shaped(host, raw.value) {
      return Verdict(false, false, links);
    }
    var r := raw.value;
    links := links.(shape := true);
    if r.log.leafHash != LeafHash(host, SubjectOf(r.source, r.artifact)) {
      return Verdict(false, false, links);
    }
    links := links.(leafBinding := true);
    var included := VerifyMerkleAnchor(host.sha, r.log.leafHash, r.log.proof, r.log.root);
    if !included {
      return Verdict(false, false, links);
    }
    links := links.(inclusion := Included);
    if r.log.checkpointRoot.Some? {
      if r.log.checkpointRoot.value != r.log.root {
        return Verdict(false, false, links);
      }
      links := links.(inclusion := IncludedAtCheckpoint);
    }
    if rebuild.Some? {
      ShapedHex(host, r);
      links := links.(rebuild := RebuildStatus(r, rebuild.value));
      if links.rebuild != Matched {
        return Verdict(false, links.rebuild == HashMismatch, links);
      }
      complete := true;
    }
    if r.tpmQuote.Some? {
      if r.tpmQuote.value.None? {
        return Verdict(false, complete, links.(tpm := Malformed));
      }
      if tpm.None? {
        links := links.(tpm := HardwareRequired);
      } else if tpm.value(r.tpmQuote.value.value) {
        links := links.(tpm := QuoteVerified);
      } else {
        return Verdict(false, complete, links.(tpm := Rejected));
      }
    }
    return Verdict(true, complete, links);
  }

  lemma ReportedCommit(r: Record, rebuild: Rebuild, link: RebuildLink)
    requires LinkIs(r, rebuild, link)
    ensures link in {Matched, HashMismatch} <==> exists sha :: ReportsBuild(r, rebuild, r.source.commit, sha)
    ensures link != NotChecked ==> link in {RebuildError, SourceMismatch, HashMismatch, Matched}
  {
    hide ReportsBuild;
  }

  lemma ShapedHex(host: Host, r: Record)
    requires Shaped(host, r)
    ensures Hex(r.source.commit, 40) && Hex(r.artifact.sha256, 64)
  {
  }

  // ----- what the chain gives ----------------------------------------------

  lemma NameableExactly(host: Host, source: Source, artifact: Artifact)
    ensures WellFormed(host, source, artifact) <==> Nameable(host, source, artifact)
  {
    HexExactly(source.commit, 40);
    HexExactly(artifact.sha256, 64);
    hide Hex, LowerHex;
  }

  /** An entry can be built for exactly the positions of the log; it states the root and the size of the whole log, and
      its proof is accepted unless it has more than twenty steps. */
  lemma EntryOfLog(host: Host, subjects: seq<Subject>, index: int)
    ensures BuildLogEntry(host, subjects, index).Some? <==> 0 <= index < |subjects|
    ensures BuildLogEntry(host, subjects, index).Some? ==>
              var e := BuildLogEntry(host, subjects, index).value;
              && e.alg == "EP-MERKLE-v2" && e.treeSize == |subjects| && e.checkpointRoot == None
              && e.leafHash == host.sha(['\0'] + host.canon(subjects[index]))
              && e.root == Root(host.sha, true, Texts(host, subjects))
              && (AnchorAccepts(host.sha, e.leafHash, e.proof, e.root) <==> |e.proof| <= 20)
  {
    hide Root, Path, AnchorAccepts;
    if 0 <= index < |subjects| {
      GeneratedAnchor(host, Texts(host, subjects), index);
    }
  }

  /** A record appended to a log of any length keeps its source and binary, states the grown log's root and size, and
      passes the verifier exactly when the length has at most 20 one-bits: the newest leaf has one sibling per bit, and
      the guard counts them. */
  lemma AssembledIsValid(host: Host, source: Source, artifact: Artifact, others: seq<Subject>)
    requires Honest(host) && Nameable(host, source, artifact)
    ensures var r := AssembleRecord(host, source, artifact, others);
            && r.source == source && r.artifact == artifact && r.log.treeSize == |others| + 1
            && r.log.root == Root(host.sha, true, Texts(host, others + [SubjectOf(source, artifact)]))
            && (EveryLinkHolds(host, r, None, None) <==> PopCount(|others|) <= MAX_PROOF_STEPS)
  {
    hide Path, Root, AnchorAccepts, PopCount, InclusionPath, Mth, LowerHex, Hex;
    var r := AssembleRecord(host, source, artifact, others);
    AttestedExactly(host, r, None, None);
    hide EveryLinkHolds;
    NameableExactly(host, source, artifact);
    var subjects := others + [SubjectOf(source, artifact)];
    var texts := Texts(host, subjects);
    assert subjects[|others|] == SubjectOf(source, artifact);
    GeneratedAnchor(host, texts, |others|);
    RootIsHex(host, texts);
    NewestPathLength(host, texts);
    assert r.log.leafHash == LeafHash(host, SubjectOf(source, artifact));
    hide WellFormed, LeafHash;
  }

  lemma NewestPathLength(host: Host, texts: seq<string>)
    requires |texts| > 0
    ensures |Path(host.sha, true, texts, |texts| - 1)| == PopCount(|texts| - 1)
  {
    LastPathLength(Pairing(host.sha, true), TreeLeaves(host.sha, true, texts));
  }

  /** A generated proof is accepted unless the depth guard counts too many steps. */
  lemma GeneratedAnchor(host: Host, texts: seq<string>, i: nat)
    requires i < |texts|
    ensures var leaf := host.sha(LEAF_TAG + texts[i]);
            AnchorAccepts(host.sha, leaf, Path(host.sha, true, texts, i), Root(host.sha, true, texts))
            <==> |Path(host.sha, true, texts, i)| <= MAX_PROOF_STEPS
  {
    var leaves := TreeLeaves(host.sha, true, texts);
    PathFolds(Pairing(host.sha, true), i, leaves);
    PathHashesNonEmpty(Pairing(host.sha, true), i, leaves);
  }

  lemma RootIsHex(host: Host, texts: seq<string>)
    requires Honest(host) && |texts| > 0
    ensures Hex(Root(host.sha, true, texts), 64)
  {
    if |texts| > 1 {
      RootSplit(host.sha, texts, Split(|texts|));
    }
  }

  /** The first log that is too long for the guard has 2^21 - 1 entries before the new one. */
  lemma {:induction false} PopCountBound(n: nat, d: nat)
    requires n < Pow2(d)
    ensures PopCount(n) <= d && (PopCount(n) == d <==> n == Pow2(d) - 1)
    decreases d
  {
    if d > 0 {
      PopCountBound(n / 2, d - 1);
    }
  }

  lemma FirstLogTooLong(host: Host, source: Source, artifact: Artifact, others: seq<Subject>)
    requires Honest(host) && Nameable(host, source, artifact) && |others| < Pow2(21)
    ensures EveryLinkHolds(host, AssembleRecord(host, source, artifact, others), None, None)
            <==> |others| != Pow2(21) - 1
  {
    hide EveryLinkHolds, AssembleRecord, Nameable, Pow2, PopCount;
    PopCountBound(|others|, 21);
    AssembledIsValid(host, source, artifact, others);
  }

  /** Two attested records with one leaf hash describe one build, or collide. */
  lemma LeafFixesBuild(host: Host, a: Record, b: Record, ra: Option<Rebuild>, rb: Option<Rebuild>,
                       ta: Option<string -> bool>, tb: Option<string -> bool>)
    requires Honest(host) && EveryLinkHolds(host, a, ra, ta) && EveryLinkHolds(host, b, rb, tb)
    requires a.log.leafHash == b.log.leafHash
    ensures (a.source == b.source && a.artifact.filename == b.artifact.filename
            && a.artifact.sha256 == b.artifact.sha256)
         || Collides(host.sha, LEAF_TAG + host.canon(SubjectOf(a.source, a.artifact)),
                     LEAF_TAG + host.canon(SubjectOf(b.source, b.artifact)))
  {
    hide WellShaped, InTree;
    var x, y := host.canon(SubjectOf(a.source, a.artifact)), host.canon(SubjectOf(b.source, b.artifact));
    assert (LEAF_TAG + x)[1..] == x && (LEAF_TAG + y)[1..] == y;
  }

  /** An attested record under the root of an honest log is in that log, with the log's own
      proof, or a collision is exhibited. */
  lemma AttestedIsInLog(host: Host, r: Record, log: seq<Subject>, rebuild: Option<Rebuild>, tpm: Option<string -> bool>)
    requires Honest(host) && EveryLinkHolds(host, r, rebuild, tpm)
    requires |log| > 0 && r.log.root == Root(host.sha, true, Texts(host, log))
    ensures (exists i :: 0 <= i < |log| && log[i] == SubjectOf(r.source, r.artifact)
                         && r.log.proof == Path(host.sha, true, Texts(host, log), i))
         || (exists x, y :: x in TreePreimages(host.sha, Texts(host, log))
                            && y in FoldPreimages(host.sha, host.canon(SubjectOf(r.source, r.artifact)), r.log.proof)
                            && Collides(host.sha, x, y))
  {
    hide TreePreimages, FoldPreimages, Path, Root, Hex, Mth, InclusionPath;
    AttestedExactly(host, r, rebuild, tpm);
    hide EveryLinkHolds;
    var subject := SubjectOf(r.source, r.artifact);
    var texts := Texts(host, log);
    var found := Locate(host.sha, texts, host.canon(subject), r.log.proof);
    if found.At? {
      assert host.canon(log[found.index]) == host.canon(subject);
    }
  }
}
