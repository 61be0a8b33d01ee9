/** Exporting a bundle's members and verifying an archive of them
    (internal/bundle/export.go, verify.go).

    A tar.gz is the sequence of its regular members in tar order; gzip and tar framing are left
    out. Hashing, Ed25519, hex and JSON are the abstract functions of Foreign. */
module BundleArchive {
  import opened Wrappers
  import opened LedgerEntry
  import opened LedgerVerify
  import opened Lines
  import opened BundleLines
  import opened BundleSlice
  import opened TarNames

  const MANIFEST_NAME := "manifest.json"
  const SIGNATURE_NAME := "manifest.sig"
  const SLICE_NAME := "ledger/slice.jsonl"
  const CONTEXT_DIR := "context/"
  const MAX_DECOMPRESSED_BYTES := 268435456
  const PUBLIC_KEY_SIZE := 32
  const SIGNATURE_SIZE := 64

  datatype FileRef = FileRef(name: string, sha256: string)
  datatype LedgerSlice = LedgerSlice(name: string, sha256: string, entryCount: nat, firstPrev: string)
  // `rest` stands for the identity, scope, count and evidence fields, which no check reads.
  datatype Manifest = Manifest(contextFiles: seq<FileRef>, slice: LedgerSlice, rest: string)
  datatype Signature = Signature(publicKeyHex: string, signatureHex: string)

  datatype Foreign = Foreign(
    H: HashFn,
    codec: EntryCodec,
    sha: Bytes -> string,
    encodeManifest: Manifest -> Option<Bytes>, decodeManifest: Bytes -> Option<Manifest>,
    encodeSignature: Signature -> Option<Bytes>, decodeSignature: Bytes -> Option<Signature>,
    encodeHex: Bytes -> string, decodeHex: string -> Option<Bytes>,
    publicOf: Bytes -> Bytes, sign: (Bytes, Bytes) -> Bytes, verify: (Bytes, Bytes, Bytes) -> bool,
    clean: string -> string)

  // Encodings decode to what they encoded, and signatures made with a key verify under it.
  ghost predicate ForeignOk(F: Foreign) {
    && CodecOk(F.codec)
    && (forall m :: F.encodeManifest(m).Some? ==> F.decodeManifest(F.encodeManifest(m).value) == Some(m))
    && (forall g :: F.encodeSignature(g).Some? ==> F.decodeSignature(F.encodeSignature(g).value) == Some(g))
    && (forall b :: F.decodeHex(F.encodeHex(b)) == Some(b))
    && (forall key :: |F.publicOf(key)| == PUBLIC_KEY_SIZE)
    && (forall key, msg :: |F.sign(key, msg)| == SIGNATURE_SIZE && F.verify(F.publicOf(key), msg, F.sign(key, msg)))
  }

  ghost predicate ShaCollisionFree(F: Foreign) {
    forall a, b :: F.sha(a) == F.sha(b) ==> a == b
  }

  function MemberName(F: Foreign, path: string): string {
    CONTEXT_DIR + TarSafeName(F.clean, path)
  }

  lemma ContextNamesAreApart(F: Foreign, path: string)
    ensures MemberName(F, path) != MANIFEST_NAME
    ensures MemberName(F, path) != SIGNATURE_NAME
    ensures MemberName(F, path) != SLICE_NAME
  {
    assert MemberName(F, path)[0] == 'c';
  }

  // Among plain relative paths a member name belongs to one clean path.
  lemma PlainNamesAreDistinct(F: Foreign, p: string, q: string)
    requires PlainRelative(F.clean, p) && PlainRelative(F.clean, q) && MemberName(F, p) == MemberName(F, q)
    ensures F.clean(p) == F.clean(q)
  {
    assert MemberName(F, p)[|CONTEXT_DIR|..] == TarSafeName(F.clean, p);
    assert MemberName(F, q)[|CONTEXT_DIR|..] == TarSafeName(F.clean, q);
    PlainPathsApart(F.clean, p, q);
  }

  // ---------- Reading an archive ----------

  type Members = map<string, Bytes>
  type Archive = seq<(string, Bytes)>

  function TotalSize(archive: Archive): nat {
    if archive == [] then 0 else TotalSize(archive[..|archive| - 1]) + |archive[|archive| - 1].1|
  }

  // Later members of one name replace earlier ones.
  function Unpacked(archive: Archive): Members {
    if archive == [] then map[]
    else Unpacked(archive[..|archive| - 1])[archive[|archive| - 1].0 := archive[|archive| - 1].1]
  }

  lemma {:induction false} TotalSizeGrows(archive: Archive, i: nat)
    requires i <= |archive|
    ensures TotalSize(archive[..i]) <= TotalSize(archive)
    decreases |archive| - i
  {
    if i < |archive| {
      assert archive[..i + 1][..i] == archive[..i];
      TotalSizeGrows(archive, i + 1);
    } else {
      assert archive[..i] == archive;
    }
  }

  // The last member of that name holds the data.
  ghost predicate LastMember(archive: Archive, name: string, data: Bytes) {
    exists i :: LastNamedAt(archive, name, i) && archive[i].1 == data
  }

  predicate LastNamedAt(archive: Archive, name: string, i: int) {
    0 <= i < |archive| && archive[i].0 == name && forall j :: i < j < |archive| ==> archive[j].0 != name
  }

  lemma {:induction false} UnpackedExactly(archive: Archive, name: string, data: Bytes)
    ensures name in Unpacked(archive) && Unpacked(archive)[name] == data <==> LastMember(archive, name, data)
  {
    if archive != [] {
      var n := |archive| - 1;
      UnpackedExactly(archive[..n], name, data);
      assert archive == archive[..n] + [archive[n]];
      if archive[n].0 == name {
        assert LastNamedAt(archive, name, n);
      } else {
        forall i ensures LastNamedAt(archive, name, i) <==> LastNamedAt(archive[..n], name, i) {
        }
      }
    }
  }

  // The size is what all members hold together.
  lemma {:induction false} TotalSizeAdds(a: Archive, b: Archive)
    ensures TotalSize(a + b) == TotalSize(a) + TotalSize(b)
    ensures |b| == 1 ==> TotalSize(b) == |b[0].1|
    decreases |b|
  {
    if b == [] {
      assert a + b == a;
    } else {
      var n := |b| - 1;
      TotalSizeAdds(a, b[..n]);
      assert (a + b)[..|a + b| - 1] == a + b[..n];
    }
  }

  method ReadTarGz(archive: Archive) returns (r: Option<Members>)
    ensures r == if TotalSize(archive) <= MAX_DECOMPRESSED_BYTES then Some(Unpacked(archive)) else None
    ensures r.Some? ==> forall name, data ::
      name in r.value && r.value[name] == data <==> LastMember(archive, name, data)
  {
    forall name, data
      ensures name in Unpacked(archive) && Unpacked(archive)[name] == data <==> LastMember(archive, name, data)
    {
      UnpackedExactly(archive, name, data);
    }
    var members: Members := map[];
    var total := 0;
    var i := 0;
    while i < |archive|
      invariant 0 <= i <= |archive|
      invariant total == TotalSize(archive[..i]) <= MAX_DECOMPRESSED_BYTES
      invariant members == Unpacked(archive[..i])
    {
      var (name, data) := archive[i];
      assert archive[..i + 1][..i] == archive[..i];
      TotalSizeGrows(archive, i + 1);
      total := total + |data|;
      if total > MAX_DECOMPRESSED_BYTES {
        return None;
      }
      members := members[name := data];
      i := i + 1;
    }
    assert archive[..|archive|] == archive;
    return Some(members);
  }

  // ---------- The checks, one by one ----------

  // A missing member reads as no bytes.
  function MemberBytes(members: Members, name: string): Bytes {
    if name in members then members[name] else ""
  }

  function HexOfSize(F: Foreign, s: string, size: nat): Option<Bytes> {
    match F.decodeHex(s)
    case Some(b) => if |b| == size then Some(b) else None
    case None => None
  }

  // The key argument itself is unusable, which is an error rather than a verdict.
  predicate SignatureReadable(F: Foreign, sig: Bytes) {
    F.decodeSignature(sig).Some? && HexOfSize(F, F.decodeSignature(sig).value.publicKeyHex, PUBLIC_KEY_SIZE).Some?
  }

  predicate BadExpectedKey(F: Foreign, sig: Bytes, expectedKey: string) {
    SignatureReadable(F, sig) && expectedKey != "" && HexOfSize(F, expectedKey, PUBLIC_KEY_SIZE).None?
  }

  predicate SignatureOk(F: Foreign, manifest: Bytes, sig: Bytes, expectedKey: string) {
    SignatureReadable(F, sig) &&
    var s := F.decodeSignature(sig).value;
    var pub := HexOfSize(F, s.publicKeyHex, PUBLIC_KEY_SIZE);
    var raw := HexOfSize(F, s.signatureHex, SIGNATURE_SIZE);
    && (expectedKey != "" ==> HexOfSize(F, expectedKey, PUBLIC_KEY_SIZE) == pub)
    && raw.Some? && F.verify(pub.value, manifest, raw.value)
  }

  predicate RefOk(F: Foreign, members: Members, ref: FileRef) {
    ref.name in members && F.sha(members[ref.name]) == ref.sha256
  }

  predicate DigestsOk(F: Foreign, m: Manifest, members: Members) {
    && (forall i :: 0 <= i < |m.contextFiles| ==> RefOk(F, members, m.contextFiles[i]))
    && F.sha(MemberBytes(members, m.slice.name)) == m.slice.sha256
  }

  ghost predicate ChainOk(F: Foreign, data: Bytes, es: seq<Entry>) {
    Says(F.codec, data, Some(es)) && SliceOk(F.H, es)
  }

  // Everything bundle verification promises about an archive it passes.
  ghost predicate ArchiveOk(F: Foreign, archive: Archive, expectedKey: string, m: Manifest) {
    var members := Unpacked(archive);
    && TotalSize(archive) <= MAX_DECOMPRESSED_BYTES
    && MANIFEST_NAME in members && SIGNATURE_NAME in members
    && SignatureOk(F, members[MANIFEST_NAME], members[SIGNATURE_NAME], expectedKey)
    && F.decodeManifest(members[MANIFEST_NAME]) == Some(m)
    && DigestsOk(F, m, members)
    && exists es :: ChainOk(F, MemberBytes(members, m.slice.name), es) && |es| == m.slice.entryCount
  }

  datatype Verdict =
    | Unreadable                   // the archive could not be read
    | KeyArgumentInvalid           // --expected-key is not a key
    | Rejected(reason: Rejection)
    | Passed(manifest: Manifest)

  datatype Rejection =
    | MissingManifest | MissingSignature | BadSignature | UnreadableManifest
    | DigestMismatch | BadSlice | EntryCountMismatch

  method VerifySignature(F: Foreign, manifest: Bytes, sigBytes: Bytes, expectedKey: string) returns (r: Option<bool>)
    ensures r.None? <==> BadExpectedKey(F, sigBytes, expectedKey)
    ensures r.Some? ==> (r.value <==> SignatureOk(F, manifest, sigBytes, expectedKey))
  {
    var sig := F.decodeSignature(sigBytes);
    if sig.None? {
      return Some(false);
    }
    var pub := F.decodeHex(sig.value.publicKeyHex);
    if pub.None? || |pub.value| != PUBLIC_KEY_SIZE {
      return Some(false);
    }
    if expectedKey != "" {
      var expected := F.decodeHex(expectedKey);
      if expected.None? || |expected.value| != PUBLIC_KEY_SIZE {
        return None;
      }
      if pub.value != expected.value {
        return Some(false);
      }
    }
    var raw := F.decodeHex(sig.value.signatureHex);
    if raw.None? || |raw.value| != SIGNATURE_SIZE {
      return Some(false);
    }
    return Some(F.verify(pub.value, manifest, raw.value));
  }

  method VerifyContentDigests(F: Foreign, m: Manifest, members: Members) returns (ok: bool)
    ensures ok <==> DigestsOk(F, m, members)
  {
    var i := 0;
    while i < |m.contextFiles|
      invariant 0 <= i <= |m.contextFiles|
      invariant forall j :: 0 <= j < i ==> RefOk(F, members, m.contextFiles[j])
    {
      var ref := m.contextFiles[i];
      if ref.name !in members || F.sha(members[ref.name]) != ref.sha256 {
        assert !RefOk(F, members, m.contextFiles[i]);
        return false;
      }
      i := i + 1;
    }
    return F.sha(MemberBytes(members, m.slice.name)) == m.slice.sha256;
  }

  lemma SaysUnique(c: EntryCodec, data: Bytes, r: Option<seq<Entry>>, s: Option<seq<Entry>>)
    requires Says(c, data, r) && Says(c, data, s)
    ensures r == s
  {
    var a :| IsSplit(data, a) && DecodeLines(c, a) == r;
    var b :| IsSplit(data, b) && DecodeLines(c, b) == s;
    SplitUnique(data, a, b);
  }

  method DecodeAndVerifyLedgerSlice(F: Foreign, data: Bytes) returns (r: Option<seq<Entry>>)
    ensures r.Some? <==> exists es :: ChainOk(F, data, es)
    ensures r.Some? ==> ChainOk(F, data, r.value)
  {
    var es := ParseLedgerJSONL(F.codec, data);
    forall other | ChainOk(F, data, other) ensures Some(other) == es {
      SaysUnique(F.codec, data, Some(other), es);
    }
    if es.None? {
      return es;
    }
    if |es.value| == 0 {
      assert ChainOk(F, data, es.value);
      return es;
    }
    var v := VerifyEntriesFrom(F.H, es.value, es.value[0].prev);
    assert v.ok <==> ChainOk(F, data, es.value);
    return if v.ok then es else None;
  }

  // Both control members are there.
  predicate Sealed(archive: Archive) {
    && TotalSize(archive) <= MAX_DECOMPRESSED_BYTES
    && MANIFEST_NAME in Unpacked(archive) && SIGNATURE_NAME in Unpacked(archive)
  }

  predicate Signed(F: Foreign, archive: Archive, expectedKey: string) {
    Sealed(archive) && SignatureOk(F, Unpacked(archive)[MANIFEST_NAME], Unpacked(archive)[SIGNATURE_NAME], expectedKey)
  }

  predicate Described(F: Foreign, archive: Archive, expectedKey: string, m: Manifest) {
    Signed(F, archive, expectedKey) && F.decodeManifest(Unpacked(archive)[MANIFEST_NAME]) == Some(m)
  }

  // The slice decodes and its chain holds.
  ghost predicate SliceIs(F: Foreign, archive: Archive, m: Manifest, es: seq<Entry>) {
    ChainOk(F, MemberBytes(Unpacked(archive), m.slice.name), es)
  }

  ghost predicate BadCount(F: Foreign, archive: Archive, m: Manifest) {
    exists es :: SliceIs(F, archive, m, es) && |es| != m.slice.entryCount
  }

  // The one check that an archive fails first, or that it passes them all.
  ghost predicate Outcome(F: Foreign, archive: Archive, expectedKey: string, r: Verdict) {
    match r
    case Unreadable => TotalSize(archive) > MAX_DECOMPRESSED_BYTES
    case KeyArgumentInvalid => Sealed(archive) && BadExpectedKey(F, Unpacked(archive)[SIGNATURE_NAME], expectedKey)
    case Passed(m) => ArchiveOk(F, archive, expectedKey, m)
    case Rejected(reason) => RejectedFor(F, archive, expectedKey, reason)
  }

  ghost predicate RejectedFor(F: Foreign, archive: Archive, expectedKey: string, reason: Rejection) {
    match reason
    case MissingManifest => TotalSize(archive) <= MAX_DECOMPRESSED_BYTES && MANIFEST_NAME !in Unpacked(archive)
    case MissingSignature =>
      && TotalSize(archive) <= MAX_DECOMPRESSED_BYTES
      && MANIFEST_NAME in Unpacked(archive) && SIGNATURE_NAME !in Unpacked(archive)
    case BadSignature =>
      && Sealed(archive) && !Signed(F, archive, expectedKey)
      && !BadExpectedKey(F, Unpacked(archive)[SIGNATURE_NAME], expectedKey)
    case UnreadableManifest =>
      Signed(F, archive, expectedKey) && F.decodeManifest(Unpacked(archive)[MANIFEST_NAME]).None?
    case DigestMismatch =>
      exists m :: Described(F, archive, expectedKey, m) && !DigestsOk(F, m, Unpacked(archive))
    case BadSlice =>
      exists m :: Described(F, archive, expectedKey, m) && DigestsOk(F, m, Unpacked(archive))
        && !exists es :: SliceIs(F, archive, m, es)
    case EntryCountMismatch =>
      exists m :: Described(F, archive, expectedKey, m) && DigestsOk(F, m, Unpacked(archive)) && BadCount(F, archive, m)
  }

  lemma SliceUnique(F: Foreign, archive: Archive, m: Manifest, a: seq<Entry>, b: seq<Entry>)
    requires SliceIs(F, archive, m, a) && SliceIs(F, archive, m, b)
    ensures a == b
  {
    SaysUnique(F.codec, MemberBytes(Unpacked(archive), m.slice.name), Some(a), Some(b));
  }

  lemma PassedIsSigned(F: Foreign, archive: Archive, expectedKey: string, m: Manifest)
    requires ArchiveOk(F, archive, expectedKey, m)
    ensures Described(F, archive, expectedKey, m) && DigestsOk(F, m, Unpacked(archive))
    ensures (exists es :: SliceIs(F, archive, m, es)) && !BadCount(F, archive, m)
  {
    var es :| ChainOk(F, MemberBytes(Unpacked(archive), m.slice.name), es) && |es| == m.slice.entryCount;
    assert SliceIs(F, archive, m, es);
    forall other | SliceIs(F, archive, m, other) ensures other == es {
      SliceUnique(F, archive, m, es, other);
    }
  }

  lemma RejectionUnique(F: Foreign, archive: Archive, expectedKey: string, r: Rejection, s: Rejection)
    requires RejectedFor(F, archive, expectedKey, r) && RejectedFor(F, archive, expectedKey, s)
    ensures r == s
  {
  }

  lemma PassedIsNotRejected(F: Foreign, archive: Archive, expectedKey: string, m: Manifest, reason: Rejection)
    requires ArchiveOk(F, archive, expectedKey, m)
    ensures !RejectedFor(F, archive, expectedKey, reason)
  {
    PassedIsSigned(F, archive, expectedKey, m);
  }

  lemma PassedUnique(F: Foreign, archive: Archive, expectedKey: string, m: Manifest, s: Verdict)
    requires ArchiveOk(F, archive, expectedKey, m) && Outcome(F, archive, expectedKey, s)
    ensures s == Passed(m)
  {
    match s
    case Rejected(reason) => PassedIsNotRejected(F, archive, expectedKey, m, reason);
    case _ =>
  }

  lemma UnreadUnique(F: Foreign, archive: Archive, expectedKey: string, reason: Rejection)
    requires RejectedFor(F, archive, expectedKey, reason)
    ensures !Outcome(F, archive, expectedKey, Unreadable) && !Outcome(F, archive, expectedKey, KeyArgumentInvalid)
  {
  }

  // So each outcome holds exactly when its condition does.
  lemma OutcomeUnique(F: Foreign, archive: Archive, expectedKey: string, r: Verdict, s: Verdict)
    requires Outcome(F, archive, expectedKey, r) && Outcome(F, archive, expectedKey, s)
    ensures r == s
  {
    if r.Passed? {
      PassedUnique(F, archive, expectedKey, r.manifest, s);
    } else if s.Passed? {
      PassedUnique(F, archive, expectedKey, s.manifest, r);
    } else if r.Rejected? && s.Rejected? {
      RejectionUnique(F, archive, expectedKey, r.reason, s.reason);
    } else if r.Rejected? {
      UnreadUnique(F, archive, expectedKey, r.reason);
    } else if s.Rejected? {
      UnreadUnique(F, archive, expectedKey, s.reason);
    }
  }

  method VerifyArchive(F: Foreign, archive: Archive, expectedKey: string) returns (r: Verdict)
    ensures Outcome(F, archive, expectedKey, r)
    ensures forall m :: r == Passed(m) <==> ArchiveOk(F, archive, expectedKey, m)
    ensures r.Unreadable? <==> TotalSize(archive) > MAX_DECOMPRESSED_BYTES
    ensures r == Rejected(MissingManifest) <==>
      TotalSize(archive) <= MAX_DECOMPRESSED_BYTES && MANIFEST_NAME !in Unpacked(archive)
    ensures r.KeyArgumentInvalid? <==>
      && TotalSize(archive) <= MAX_DECOMPRESSED_BYTES
      && MANIFEST_NAME in Unpacked(archive) && SIGNATURE_NAME in Unpacked(archive)
      && BadExpectedKey(F, Unpacked(archive)[SIGNATURE_NAME], expectedKey)
  {
    var read := ReadTarGz(archive);
    if read.None? {
      return Unreadable;
    }
    var members := read.value;
    if MANIFEST_NAME !in members {
      return Rejected(MissingManifest);
    }
    if SIGNATURE_NAME !in members {
      return Rejected(MissingSignature);
    }
    var signature := VerifySignature(F, members[MANIFEST_NAME], members[SIGNATURE_NAME], expectedKey);
    if signature.None? {
      return KeyArgumentInvalid;
    }
    if !signature.value {
      return Rejected(BadSignature);
    }
    var manifest := F.decodeManifest(members[MANIFEST_NAME]);
    if manifest.None? {
      return Rejected(UnreadableManifest);
    }
    var digests := VerifyContentDigests(F, manifest.value, members);
    if !digests {
      assert Described(F, archive, expectedKey, manifest.value);
      return Rejected(DigestMismatch);
    }
    var data := MemberBytes(members, manifest.value.slice.name);
    var es := DecodeAndVerifyLedgerSlice(F, data);
    forall other | ChainOk(F, data, other) ensures Some(other) == es {
      SaysUnique(F.codec, data, Some(other), es);
    }
    assert Described(F, archive, expectedKey, manifest.value);
    if es.None? {
      return Rejected(BadSlice);
    }
    assert SliceIs(F, archive, manifest.value, es.value);
    if |es.value| != manifest.value.slice.entryCount {
      return Rejected(EntryCountMismatch);
    }
    return Passed(manifest.value);
  }

  // ---------- Export ----------

  datatype ContextFile = ContextFile(path: string, raw: Bytes)

  datatype ExportError = NoSigner | NoContextFiles | CannotEncode

  // Members in the order writeTarGz assigns them; a repeated name is overwritten.
  function ContextMembers(F: Foreign, files: seq<ContextFile>, base: Members): Members {
    if files == [] then base
    else ContextMembers(F, files[..|files| - 1], base)[MemberName(F, files[|files| - 1].path) := files[|files| - 1].raw]
  }

  function Refs(F: Foreign, files: seq<ContextFile>): seq<FileRef> {
    seq(|files|, i requires 0 <= i < |files| => FileRef(MemberName(F, files[i].path), F.sha(files[i].raw)))
  }

  function ExportManifest(F: Foreign, files: seq<ContextFile>, kept: seq<Entry>, rest: string): Manifest
    requires Encodable(F.codec, kept)
  {
    Manifest(Refs(F, files),
      LedgerSlice(SLICE_NAME, F.sha(Unlines(Encoded(F.codec, kept))), |kept|, if kept == [] then "" else kept[0].prev),
      rest)
  }

  ghost predicate Exports(
    F: Foreign, key: Bytes, files: seq<ContextFile>, kept: seq<Entry>, rest: string, members: Members)
  {
    Encodable(F.codec, kept) &&
    var encoded := F.encodeManifest(ExportManifest(F, files, kept, rest));
    encoded.Some? &&
    var sig := F.encodeSignature(Signature(F.encodeHex(F.publicOf(key)), F.encodeHex(F.sign(key, encoded.value))));
    sig.Some? &&
    members == ContextMembers(F, files, map[MANIFEST_NAME := encoded.value, SIGNATURE_NAME := sig.value])
                 [SLICE_NAME := Unlines(Encoded(F.codec, kept))]
  }

  method LoadContextFiles(F: Foreign, files: seq<ContextFile>) returns (refs: seq<FileRef>)
    ensures refs == Refs(F, files)
  {
    refs := [];
    var i := 0;
    while i < |files|
      invariant 0 <= i <= |files|
      invariant refs == Refs(F, files)[..i]
    {
      refs := refs + [FileRef(MemberName(F, files[i].path), F.sha(files[i].raw))];
      i := i + 1;
    }
  }

  method WriteMembers(F: Foreign, manifest: Bytes, signature: Bytes, files: seq<ContextFile>, jsonl: Bytes)
    returns (members: Members)
    ensures members ==
      ContextMembers(F, files, map[MANIFEST_NAME := manifest, SIGNATURE_NAME := signature])[SLICE_NAME := jsonl]
  {
    ghost var base: Members := map[MANIFEST_NAME := manifest, SIGNATURE_NAME := signature];
    members := map[MANIFEST_NAME := manifest, SIGNATURE_NAME := signature];
    var i := 0;
    while i < |files|
      invariant 0 <= i <= |files|
      invariant members == ContextMembers(F, files[..i], base)
    {
      assert files[..i + 1][..i] == files[..i];
      members := members[MemberName(F, files[i].path) := files[i].raw];
      i := i + 1;
    }
    assert files[..|files|] == files;
    members := members[SLICE_NAME := jsonl];
  }

  // The slice member reads as exactly the entries asked for, and the manifest tells of them.
  ghost predicate ExportHolds(
    F: Foreign, files: seq<ContextFile>, ledger: seq<Entry>, since: int, now: Time, rest: string, members: Members)
  {
    && SLICE_NAME in members
    && (forall es :: Says(F.codec, members[SLICE_NAME], Some(es)) <==> IsSlice(ledger, since, now, es))
    && (forall es :: IsSlice(ledger, since, now, es) ==> ManifestTells(F, members, files, es, rest))
  }

  lemma ExportHoldsSlice(
    F: Foreign, key: Bytes, files: seq<ContextFile>, ledger: seq<Entry>, since: int, now: Time,
    rest: string, members: Members)
    requires ForeignOk(F) && Exports(F, key, files, Kept(ledger, since, now), rest, members)
    ensures ExportHolds(F, files, ledger, since, now, rest, members)
  {
    forall es
      ensures SLICE_NAME in members
      ensures Says(F.codec, members[SLICE_NAME], Some(es)) <==> IsSlice(ledger, since, now, es)
      ensures IsSlice(ledger, since, now, es) ==> ManifestTells(F, members, files, es, rest)
    {
      ExportedSliceExactly(F, key, files, ledger, since, now, rest, members, es);
    }
  }

  method Export(F: Foreign, key: Option<Bytes>, files: seq<ContextFile>, ledger: seq<Entry>, since: int, now: Time,
    rest: string)
    returns (r: Result<Members, ExportError>)
    ensures r == Err(NoSigner) <==> key.None?
    ensures r == Err(NoContextFiles) <==> key.Some? && files == []
    ensures r.Ok? ==> Exports(F, key.value, files, Kept(ledger, since, now), rest, r.value)
    ensures r.Ok? && ForeignOk(F) ==> ExportHolds(F, files, ledger, since, now, rest, r.value)
    ensures r == Err(CannotEncode) ==>
      !exists members :: Exports(F, key.value, files, Kept(ledger, since, now), rest, members)
  {
    if key.None? {
      return Err(NoSigner);
    }
    if |files| == 0 {
      return Err(NoContextFiles);
    }
    var refs := LoadContextFiles(F, files);
    var kept := BuildLedgerSlice(ledger, since, now);
    var jsonl := LedgerJSONL(F.codec, kept);
    if jsonl.None? {
      return Err(CannotEncode);
    }
    var slice := LedgerSlice(SLICE_NAME, F.sha(jsonl.value), |kept|, if |kept| > 0 then kept[0].prev else "");
    var encoded := F.encodeManifest(Manifest(refs, slice, rest));
    if encoded.None? {
      return Err(CannotEncode);
    }
    var sig := F.encodeSignature(Signature(F.encodeHex(F.publicOf(key.value)),
      F.encodeHex(F.sign(key.value, encoded.value))));
    if sig.None? {
      return Err(CannotEncode);
    }
    var members := WriteMembers(F, encoded.value, sig.value, files, jsonl.value);
    if ForeignOk(F) {
      ExportHoldsSlice(F, key.value, files, ledger, since, now, rest, members);
    }
    return Ok(members);
  }

  // An archive holding exactly these members, in whatever order the map was walked.
  ghost predicate Packs(archive: Archive, members: Members) {
    && (forall i, j :: 0 <= i < j < |archive| ==> archive[i].0 != archive[j].0)
    && (forall i :: 0 <= i < |archive| ==> archive[i].0 in members && members[archive[i].0] == archive[i].1)
    && (forall name :: name in members ==> exists i :: 0 <= i < |archive| && archive[i].0 == name)
  }

  lemma {:induction false} UnpackedLookup(archive: Archive, i: nat)
    requires i < |archive|
    requires forall i, j :: 0 <= i < j < |archive| ==> archive[i].0 != archive[j].0
    ensures archive[i].0 in Unpacked(archive) && Unpacked(archive)[archive[i].0] == archive[i].1
  {
    if i < |archive| - 1 {
      UnpackedLookup(archive[..|archive| - 1], i);
    }
  }

  lemma {:induction false} UnpackedNames(archive: Archive, name: string)
    ensures name in Unpacked(archive) ==> exists i :: 0 <= i < |archive| && archive[i].0 == name
  {
    if archive != [] {
      var init := archive[..|archive| - 1];
      UnpackedNames(init, name);
      if i :| 0 <= i < |init| && init[i].0 == name {
        assert archive[i].0 == name;
      }
    }
  }

  lemma UnpackUndoesPack(archive: Archive, members: Members)
    requires Packs(archive, members)
    ensures Unpacked(archive) == members
  {
    forall name ensures name in Unpacked(archive) <==> name in members {
      UnpackedNames(archive, name);
      if name in members {
        var i :| 0 <= i < |archive| && archive[i].0 == name;
        UnpackedLookup(archive, i);
      }
    }
    forall name | name in members ensures Unpacked(archive)[name] == members[name] {
      var i :| 0 <= i < |archive| && archive[i].0 == name;
      UnpackedLookup(archive, i);
    }
  }

  // ---------- What an exported bundle's verification comes down to ----------

  // Files that would share a member have one content.
  predicate NamesAgree(F: Foreign, files: seq<ContextFile>) {
    forall i, j :: 0 <= i < j < |files| && MemberName(F, files[i].path) == MemberName(F, files[j].path)
      ==> files[i].raw == files[j].raw
  }

  // The last file of a name is the one in the archive.
  lemma {:induction false} ContextMemberIsLast(F: Foreign, files: seq<ContextFile>, base: Members, i: nat)
    returns (j: nat)
    requires i < |files|
    ensures i <= j < |files| && MemberName(F, files[j].path) == MemberName(F, files[i].path)
    ensures forall k :: j < k < |files| ==> MemberName(F, files[k].path) != MemberName(F, files[i].path)
    ensures MemberName(F, files[i].path) in ContextMembers(F, files, base)
    ensures ContextMembers(F, files, base)[MemberName(F, files[i].path)] == files[j].raw
  {
    var last := |files| - 1;
    if MemberName(F, files[last].path) == MemberName(F, files[i].path) {
      j := last;
    } else {
      j := ContextMemberIsLast(F, files[..last], base, i);
      assert forall k :: j < k < last ==> files[..last][k] == files[k];
    }
  }

  lemma {:induction false} FixedMembersKept(F: Foreign, files: seq<ContextFile>, base: Members, name: string)
    requires name in base && (name == MANIFEST_NAME || name == SIGNATURE_NAME)
    ensures name in ContextMembers(F, files, base) && ContextMembers(F, files, base)[name] == base[name]
  {
    if files != [] {
      FixedMembersKept(F, files[..|files| - 1], base, name);
      ContextNamesAreApart(F, files[|files| - 1].path);
    }
  }

  lemma ExportedRefsOk(F: Foreign, key: Bytes, files: seq<ContextFile>, kept: seq<Entry>, rest: string,
    members: Members)
    requires ShaCollisionFree(F) && Exports(F, key, files, kept, rest, members)
    ensures DigestsOk(F, ExportManifest(F, files, kept, rest), members) <==> NamesAgree(F, files)
  {
    var m := ExportManifest(F, files, kept, rest);
    var encoded := F.encodeManifest(m).value;
    var sig := F.encodeSignature(Signature(F.encodeHex(F.publicOf(key)), F.encodeHex(F.sign(key, encoded)))).value;
    var base := map[MANIFEST_NAME := encoded, SIGNATURE_NAME := sig];
    forall i | 0 <= i < |files|
      ensures MemberName(F, files[i].path) in members
      ensures RefOk(F, members, m.contextFiles[i]) <==> members[MemberName(F, files[i].path)] == files[i].raw
    {
      var j := ContextMemberIsLast(F, files, base, i);
      ContextNamesAreApart(F, files[i].path);
    }
    if NamesAgree(F, files) {
      forall i | 0 <= i < |m.contextFiles| ensures RefOk(F, members, m.contextFiles[i]) {
        var j := ContextMemberIsLast(F, files, base, i);
        ContextNamesAreApart(F, files[i].path);
        assert i == j || files[i].raw == files[j].raw;
      }
    }
    if DigestsOk(F, m, members) {
      forall i, j | 0 <= i < j < |files| && MemberName(F, files[i].path) == MemberName(F, files[j].path)
        ensures files[i].raw == files[j].raw
      {
        assert RefOk(F, members, m.contextFiles[i]) && RefOk(F, members, m.contextFiles[j]);
      }
    }
  }

  lemma ExportedSignatureOk(F: Foreign, key: Bytes, files: seq<ContextFile>, kept: seq<Entry>, rest: string,
    members: Members, expectedKey: string)
    requires ForeignOk(F) && Exports(F, key, files, kept, rest, members)
    requires expectedKey == "" || F.decodeHex(expectedKey) == Some(F.publicOf(key))
    ensures MANIFEST_NAME in members && SIGNATURE_NAME in members
    ensures SignatureOk(F, members[MANIFEST_NAME], members[SIGNATURE_NAME], expectedKey)
    ensures F.decodeManifest(members[MANIFEST_NAME]) == Some(ExportManifest(F, files, kept, rest))
  {
    var m := ExportManifest(F, files, kept, rest);
    var encoded := F.encodeManifest(m).value;
    var signature := Signature(F.encodeHex(F.publicOf(key)), F.encodeHex(F.sign(key, encoded)));
    var base := map[MANIFEST_NAME := encoded, SIGNATURE_NAME := F.encodeSignature(signature).value];
    FixedMembersKept(F, files, base, MANIFEST_NAME);
    FixedMembersKept(F, files, base, SIGNATURE_NAME);
    assert members[MANIFEST_NAME] == encoded;
    assert F.decodeSignature(members[SIGNATURE_NAME]) == Some(signature);
  }

  // The printed slice verifies, with its own length, exactly when the slice itself does.
  lemma PrintedChain(F: Foreign, kept: seq<Entry>, data: Bytes)
    requires CodecOk(F.codec) && Encodable(F.codec, kept) && data == Unlines(Encoded(F.codec, kept))
    ensures (exists es :: ChainOk(F, data, es) && |es| == |kept|) <==> SliceOk(F.H, kept)
  {
    JsonlRoundTrip(F.codec, kept, Some(kept));
    forall es | ChainOk(F, data, es) ensures es == kept {
      JsonlRoundTrip(F.codec, kept, Some(es));
    }
    assert SliceOk(F.H, kept) ==> ChainOk(F, data, kept);
  }

  // An archive of exported members passes its own verification if and only if it fits the size
  // limit, files sharing a member name agree, and the slice's chain holds.
  lemma ExportedArchiveExactly(F: Foreign, key: Bytes, files: seq<ContextFile>, kept: seq<Entry>, rest: string,
                               members: Members, archive: Archive, expectedKey: string)
    requires ForeignOk(F) && ShaCollisionFree(F)
    requires Exports(F, key, files, kept, rest, members) && Packs(archive, members)
    requires expectedKey == "" || F.decodeHex(expectedKey) == Some(F.publicOf(key))
    ensures ArchiveOk(F, archive, expectedKey, ExportManifest(F, files, kept, rest)) <==>
      TotalSize(archive) <= MAX_DECOMPRESSED_BYTES && NamesAgree(F, files) && SliceOk(F.H, kept)
  {
    UnpackUndoesPack(archive, members);
    ExportedSignatureOk(F, key, files, kept, rest, members, expectedKey);
    ExportedRefsOk(F, key, files, kept, rest, members);
    var m := ExportManifest(F, files, kept, rest);
    var data := MemberBytes(members, m.slice.name);
    assert data == Unlines(Encoded(F.codec, kept));
    PrintedChain(F, kept, data);
    assert Unpacked(archive) == members && m.slice.entryCount == |kept|;
  }

  // Whatever reads an exported slice gets exactly the entries the window asks for, and the manifest
  // counts them and holds where their chain begins.
  lemma ExportedSliceExactly(
    F: Foreign, key: Bytes, files: seq<ContextFile>, ledger: seq<Entry>, since: int, now: Time,
    rest: string, members: Members, es: seq<Entry>)
    requires ForeignOk(F) && Exports(F, key, files, Kept(ledger, since, now), rest, members)
    ensures SLICE_NAME in members
    ensures Says(F.codec, members[SLICE_NAME], Some(es)) <==> IsSlice(ledger, since, now, es)
    ensures IsSlice(ledger, since, now, es) ==> ManifestTells(F, members, files, es, rest)
  {
    var kept := Kept(ledger, since, now);
    SliceExactly(ledger, since, now, es);
    JsonlRoundTrip(F.codec, kept, Some(es));
    ExportedManifest(F, key, files, kept, rest, members);
  }

  // The manifest in the members lists each context file by name and digest, and names, digests and
  // counts the slice.
  ghost predicate ManifestTells(
    F: Foreign, members: Members, files: seq<ContextFile>, es: seq<Entry>, rest: string)
  {
    && MANIFEST_NAME in members && F.decodeManifest(members[MANIFEST_NAME]).Some?
    && SLICE_NAME in members &&
    var m := F.decodeManifest(members[MANIFEST_NAME]).value;
    && m.rest == rest && |m.contextFiles| == |files|
    && (forall i :: 0 <= i < |files| ==>
          m.contextFiles[i].name == "context/" + TarSafeName(F.clean, files[i].path)
          && m.contextFiles[i].sha256 == F.sha(files[i].raw))
    && m.slice.name == "ledger/slice.jsonl" && m.slice.sha256 == F.sha(members[SLICE_NAME])
    && m.slice.entryCount == |es| && m.slice.firstPrev == (if es == [] then "" else es[0].prev)
  }

  lemma ExportedManifest(
    F: Foreign, key: Bytes, files: seq<ContextFile>, kept: seq<Entry>, rest: string, members: Members)
    requires ForeignOk(F) && Exports(F, key, files, kept, rest, members)
    ensures ManifestTells(F, members, files, kept, rest)
  {
    ExportedSignatureOk(F, key, files, kept, rest, members, "");
    var m := ExportManifest(F, files, kept, rest);
    forall i | 0 <= i < |files|
      ensures m.contextFiles[i].name == "context/" + TarSafeName(F.clean, files[i].path)
      ensures m.contextFiles[i].sha256 == F.sha(files[i].raw)
    {
      assert m.contextFiles[i] == FileRef(MemberName(F, files[i].path), F.sha(files[i].raw));
    }
    assert members[SLICE_NAME] == Unlines(Encoded(F.codec, kept));
  }

  // What is left of the window's end when a window is given.
  ghost predicate CutHolds(H: HashFn, ledger: seq<Entry>, since: int, now: Time) {
    since > 0 ==> SeamsMeet(ledger, now - since) && AnchorsKept(H, ledger, now - since)
  }

  // A bundle of an accepted ledger passes its own verification if and only if it fits the size
  // limit, files sharing a member name agree, and the cut keeps links and anchors.
  lemma ExportedLedgerExactly(
    F: Foreign, key: Bytes, files: seq<ContextFile>, ledger: seq<Entry>, since: int, now: Time,
    rest: string, members: Members, archive: Archive, expectedKey: string)
    requires ForeignOk(F) && ShaCollisionFree(F) && Accepted(F.H, ledger, GENESIS_HASH)
    requires Exports(F, key, files, Kept(ledger, since, now), rest, members) && Packs(archive, members)
    requires expectedKey == "" || F.decodeHex(expectedKey) == Some(F.publicOf(key))
    ensures ArchiveOk(F, archive, expectedKey, ExportManifest(F, files, Kept(ledger, since, now), rest)) <==>
      TotalSize(archive) <= MAX_DECOMPRESSED_BYTES && NamesAgree(F, files) && CutHolds(F.H, ledger, since, now)
  {
    ExportedArchiveExactly(F, key, files, Kept(ledger, since, now), rest, members, archive, expectedKey);
    CutHoldsExactly(F.H, ledger, since, now);
  }

  lemma CutHoldsExactly(H: HashFn, ledger: seq<Entry>, since: int, now: Time)
    requires Accepted(H, ledger, GENESIS_HASH)
    ensures SliceOk(H, Kept(ledger, since, now)) <==> CutHolds(H, ledger, since, now)
  {
    if since > 0 {
      SliceOkExactly(H, ledger, GENESIS_HASH, now - since);
    } else if ledger != [] {
      SuffixAccepted(H, ledger, GENESIS_HASH, 0);
      assert ledger[0..] == ledger;
    }
  }

  // Files listed by plain relative paths; a path listed twice was read alike twice.
  predicate PlainFiles(F: Foreign, files: seq<ContextFile>) {
    && (forall i :: 0 <= i < |files| ==> PlainRelative(F.clean, files[i].path))
    && (forall i, j :: 0 <= i < j < |files| && F.clean(files[i].path) == F.clean(files[j].path)
          ==> files[i].raw == files[j].raw)
  }

  lemma PlainFilesAgree(F: Foreign, files: seq<ContextFile>)
    requires PlainFiles(F, files)
    ensures NamesAgree(F, files)
  {
    forall i, j | 0 <= i < j < |files| && MemberName(F, files[i].path) == MemberName(F, files[j].path)
      ensures files[i].raw == files[j].raw
    {
      PlainNamesAreDistinct(F, files[i].path, files[j].path);
    }
  }

  // A bundle exported from an accepted ledger with nondecreasing times, whose context files are
  // listed by plain relative paths, passes verification within the size limit.
  lemma OrderedLedgerExportVerifies(
    F: Foreign, key: Bytes, files: seq<ContextFile>, ledger: seq<Entry>, since: int, now: Time,
    rest: string, members: Members, archive: Archive, expectedKey: string)
    requires ForeignOk(F) && ShaCollisionFree(F)
    requires Accepted(F.H, ledger, GENESIS_HASH) && TimesNondecreasing(ledger) && PlainFiles(F, files)
    requires Exports(F, key, files, Kept(ledger, since, now), rest, members) && Packs(archive, members)
    requires TotalSize(archive) <= MAX_DECOMPRESSED_BYTES
    requires expectedKey == "" || F.decodeHex(expectedKey) == Some(F.publicOf(key))
    ensures ArchiveOk(F, archive, expectedKey, ExportManifest(F, files, Kept(ledger, since, now), rest))
  {
    SliceOfOrderedLedgerOk(F.H, ledger, GENESIS_HASH, since, now);
    PlainFilesAgree(F, files);
    ExportedArchiveExactly(F, key, files, Kept(ledger, since, now), rest, members, archive, expectedKey);
  }
}
