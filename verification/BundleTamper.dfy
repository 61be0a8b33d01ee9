/** What a passing verification proves of an archive, and that a changed one does not pass
    (internal/bundle/verify.go). */
module BundleTamper {
  import opened Wrappers
  import opened LedgerEntry
  import opened LedgerVerify
  import opened Lines
  import opened BundleLines
  import opened BundleSlice
  import opened BundleArchive

  // ---------- What passing means, member by member ----------

  // The signature is well formed and verifies the manifest's bytes under the key it carries, which is
  // the expected one if one is given.
  predicate Verifies(
    F: Foreign, manifest: Bytes, s: Signature, pub: Bytes, raw: Bytes, expectedKey: string)
  {
    && F.decodeHex(s.publicKeyHex) == Some(pub) && |pub| == 32
    && F.decodeHex(s.signatureHex) == Some(raw) && |raw| == 64
    && F.verify(pub, manifest, raw)
    && (expectedKey != "" ==> F.decodeHex(expectedKey) == Some(pub))
  }

  ghost predicate SignedManifest(F: Foreign, archive: Archive, expectedKey: string, m: Manifest) {
    exists manifest, sig, pub, raw ::
      && LastMember(archive, "manifest.json", manifest) && LastMember(archive, "manifest.sig", sig)
      && F.decodeManifest(manifest) == Some(m) && F.decodeSignature(sig).Some?
      && Verifies(F, manifest, F.decodeSignature(sig).value, pub, raw, expectedKey)
  }

  ghost predicate FileThere(F: Foreign, archive: Archive, ref: FileRef) {
    exists data :: LastMember(archive, ref.name, data) && F.sha(data) == ref.sha256
  }

  // The slice member, or no bytes if there is none.
  ghost predicate SliceBytes(archive: Archive, name: string, data: Bytes) {
    LastMember(archive, name, data) || (data == "" && forall i :: 0 <= i < |archive| ==> archive[i].0 != name)
  }

  // The slice has the manifest's digest and number of entries, and its chain holds from its own start.
  ghost predicate SliceThere(F: Foreign, archive: Archive, m: Manifest, es: seq<Entry>) {
    && (exists data :: SliceBytes(archive, m.slice.name, data) && F.sha(data) == m.slice.sha256
          && Says(F.codec, data, Some(es)))
    && |es| == m.slice.entryCount
    && forall i :: 0 <= i < |es| ==> AcceptedAt(F.H, es, es[0].prev, i)
  }

  ghost predicate Genuine(F: Foreign, archive: Archive, expectedKey: string, m: Manifest) {
    && TotalSize(archive) <= 268435456
    && SignedManifest(F, archive, expectedKey, m)
    && (forall i :: 0 <= i < |m.contextFiles| ==> FileThere(F, archive, m.contextFiles[i]))
    && exists es :: SliceThere(F, archive, m, es)
  }

  lemma UnpackedAll(archive: Archive)
    ensures forall name, data ::
      name in Unpacked(archive) && Unpacked(archive)[name] == data <==> LastMember(archive, name, data)
  {
    forall name, data
      ensures name in Unpacked(archive) && Unpacked(archive)[name] == data <==> LastMember(archive, name, data)
    {
      UnpackedExactly(archive, name, data);
    }
  }

  lemma SignatureOkExactly(F: Foreign, manifest: Bytes, sig: Bytes, expectedKey: string)
    ensures SignatureOk(F, manifest, sig, expectedKey) <==>
      F.decodeSignature(sig).Some? &&
      exists pub, raw :: Verifies(F, manifest, F.decodeSignature(sig).value, pub, raw, expectedKey)
  {
    if F.decodeSignature(sig).Some? {
      var s := F.decodeSignature(sig).value;
      if SignatureOk(F, manifest, sig, expectedKey) {
        assert Verifies(F, manifest, s, F.decodeHex(s.publicKeyHex).value, F.decodeHex(s.signatureHex).value,
          expectedKey);
      }
    }
  }

  lemma SignedExactly(F: Foreign, archive: Archive, expectedKey: string, m: Manifest)
    requires TotalSize(archive) <= 268435456
    ensures Described(F, archive, expectedKey, m) <==> SignedManifest(F, archive, expectedKey, m)
  {
    UnpackedAll(archive);
    var members := Unpacked(archive);
    if Described(F, archive, expectedKey, m) {
      var manifest, sig := members[MANIFEST_NAME], members[SIGNATURE_NAME];
      SignatureOkExactly(F, manifest, sig, expectedKey);
      var pub, raw :| Verifies(F, manifest, F.decodeSignature(sig).value, pub, raw, expectedKey);
      assert LastMember(archive, "manifest.json", manifest) && LastMember(archive, "manifest.sig", sig);
    }
    if SignedManifest(F, archive, expectedKey, m) {
      var manifest, sig, pub, raw :|
        && LastMember(archive, "manifest.json", manifest) && LastMember(archive, "manifest.sig", sig)
        && F.decodeManifest(manifest) == Some(m) && F.decodeSignature(sig).Some?
        && Verifies(F, manifest, F.decodeSignature(sig).value, pub, raw, expectedKey);
      SignatureOkExactly(F, manifest, sig, expectedKey);
    }
  }

  lemma FileThereExactly(F: Foreign, archive: Archive, ref: FileRef)
    ensures RefOk(F, Unpacked(archive), ref) <==> FileThere(F, archive, ref)
  {
    UnpackedAll(archive);
    if ref.name in Unpacked(archive) {
      assert LastMember(archive, ref.name, Unpacked(archive)[ref.name]);
    }
  }

  lemma {:induction false} SliceBytesExactly(archive: Archive, name: string, data: Bytes)
    ensures SliceBytes(archive, name, data) <==> data == MemberBytes(Unpacked(archive), name)
  {
    UnpackedExactly(archive, name, data);
    if name in Unpacked(archive) {
      UnpackedNames(archive, name);
    } else {
      NotUnpacked(archive, name);
    }
  }

  lemma {:induction false} NotUnpacked(archive: Archive, name: string)
    requires name !in Unpacked(archive)
    ensures forall i :: 0 <= i < |archive| ==> archive[i].0 != name
  {
    if archive != [] {
      var n := |archive| - 1;
      NotUnpacked(archive[..n], name);
      assert forall i :: 0 <= i < n ==> archive[..n][i] == archive[i];
    }
  }

  lemma ChainHoldsExactly(F: Foreign, es: seq<Entry>)
    ensures SliceOk(F.H, es) <==> forall i :: 0 <= i < |es| ==> AcceptedAt(F.H, es, es[0].prev, i)
  {
    if es != [] {
      AcceptedExactly(F.H, es, es[0].prev);
    }
  }

  lemma SliceThereExactly(F: Foreign, archive: Archive, m: Manifest, es: seq<Entry>)
    requires F.sha(MemberBytes(Unpacked(archive), m.slice.name)) == m.slice.sha256
    ensures SliceThere(F, archive, m, es) <==>
      ChainOk(F, MemberBytes(Unpacked(archive), m.slice.name), es) && |es| == m.slice.entryCount
  {
    ChainHoldsExactly(F, es);
    var own := MemberBytes(Unpacked(archive), m.slice.name);
    SliceBytesExactly(archive, m.slice.name, own);
    forall data ensures SliceBytes(archive, m.slice.name, data) <==> data == own {
      SliceBytesExactly(archive, m.slice.name, data);
    }
  }

  lemma SliceDigestNeeded(F: Foreign, archive: Archive, m: Manifest, es: seq<Entry>)
    requires SliceThere(F, archive, m, es)
    ensures F.sha(MemberBytes(Unpacked(archive), m.slice.name)) == m.slice.sha256
  {
    var data :| SliceBytes(archive, m.slice.name, data) && F.sha(data) == m.slice.sha256
      && Says(F.codec, data, Some(es));
    SliceBytesExactly(archive, m.slice.name, data);
  }

  // An archive passes with a manifest if and only if it is genuine: signed as said, with every listed
  // file and the slice as listed, and a slice whose chain holds.
  lemma PassesExactly(F: Foreign, archive: Archive, expectedKey: string, m: Manifest)
    ensures ArchiveOk(F, archive, expectedKey, m) <==> Genuine(F, archive, expectedKey, m)
  {
    if TotalSize(archive) <= 268435456 {
      SignedExactly(F, archive, expectedKey, m);
      forall i | 0 <= i < |m.contextFiles|
        ensures RefOk(F, Unpacked(archive), m.contextFiles[i]) <==> FileThere(F, archive, m.contextFiles[i])
      {
        FileThereExactly(F, archive, m.contextFiles[i]);
      }
      if ArchiveOk(F, archive, expectedKey, m) {
        var es :| ChainOk(F, MemberBytes(Unpacked(archive), m.slice.name), es) && |es| == m.slice.entryCount;
        SliceThereExactly(F, archive, m, es);
      }
      if Genuine(F, archive, expectedKey, m) {
        var es :| SliceThere(F, archive, m, es);
        SliceDigestNeeded(F, archive, m, es);
        SliceThereExactly(F, archive, m, es);
      }
    }
  }

  // ---------- A change is noticed ----------

  // Two archives that pass with one manifest hold the same bytes in every listed file and in the slice.
  lemma OneManifestOneContent(
    F: Foreign, a: Archive, b: Archive, keyA: string, keyB: string, m: Manifest, i: nat, x: Bytes, y: Bytes)
    requires ShaCollisionFree(F) && Genuine(F, a, keyA, m) && Genuine(F, b, keyB, m)
    ensures i < |m.contextFiles| && LastMember(a, m.contextFiles[i].name, x) && LastMember(b, m.contextFiles[i].name, y)
      ==> x == y
    ensures SliceBytes(a, m.slice.name, x) && SliceBytes(b, m.slice.name, y) ==> x == y
  {
    PassesExactly(F, a, keyA, m);
    PassesExactly(F, b, keyB, m);
    SliceBytesExactly(a, m.slice.name, x);
    SliceBytesExactly(b, m.slice.name, y);
    if i < |m.contextFiles| {
      assert RefOk(F, Unpacked(a), m.contextFiles[i]) && RefOk(F, Unpacked(b), m.contextFiles[i]);
      UnpackedExactly(a, m.contextFiles[i].name, x);
      UnpackedExactly(b, m.contextFiles[i].name, y);
    }
  }

  // Some listed file is missing or holds other bytes, or the slice does.
  ghost predicate ContentDiffers(a: Archive, b: Archive, m: Manifest) {
    || (exists i, x :: 0 <= i < |m.contextFiles| && LastMember(a, m.contextFiles[i].name, x)
          && !LastMember(b, m.contextFiles[i].name, x))
    || (exists x :: SliceBytes(a, m.slice.name, x) && !SliceBytes(b, m.slice.name, x))
  }

  // Of an archive that passes, any other that keeps manifest and signature and differs in what they
  // list is rejected, for a digest that does not match.
  lemma ChangeIsRejected(F: Foreign, a: Archive, b: Archive, expectedKey: string, m: Manifest, r: Verdict)
    requires ShaCollisionFree(F) && Genuine(F, a, expectedKey, m)
    requires TotalSize(b) <= 268435456 && SignedManifest(F, b, expectedKey, m) && ContentDiffers(a, b, m)
    requires Outcome(F, b, expectedKey, r)
    ensures r == Rejected(DigestMismatch)
  {
    PassesExactly(F, a, expectedKey, m);
    SignedExactly(F, b, expectedKey, m);
    if DigestsOk(F, m, Unpacked(b)) {
      SameDigestsSameContent(F, a, b, m);
    }
    OutcomeUnique(F, b, expectedKey, r, Rejected(DigestMismatch));
  }

  lemma SameDigestsSameContent(F: Foreign, a: Archive, b: Archive, m: Manifest)
    requires ShaCollisionFree(F) && DigestsOk(F, m, Unpacked(a)) && DigestsOk(F, m, Unpacked(b))
    ensures !ContentDiffers(a, b, m)
  {
    forall i, x | 0 <= i < |m.contextFiles| && LastMember(a, m.contextFiles[i].name, x)
      ensures LastMember(b, m.contextFiles[i].name, x)
    {
      assert RefOk(F, Unpacked(a), m.contextFiles[i]) && RefOk(F, Unpacked(b), m.contextFiles[i]);
      UnpackedExactly(a, m.contextFiles[i].name, x);
      UnpackedExactly(b, m.contextFiles[i].name, x);
    }
    forall x | SliceBytes(a, m.slice.name, x) ensures SliceBytes(b, m.slice.name, x) {
      SliceBytesExactly(a, m.slice.name, x);
      SliceBytesExactly(b, m.slice.name, x);
    }
  }

  // Nobody but the key's holder makes signatures under it.
  ghost predicate Unforgeable(F: Foreign, key: Bytes, signed: set<Bytes>) {
    forall msg, sig :: F.verify(F.publicOf(key), msg, sig) ==> msg in signed
  }

  // What passes under an expected key carries a manifest that the key's holder signed.
  lemma OnlySignedPasses(F: Foreign, archive: Archive, key: Bytes, signed: set<Bytes>, expectedKey: string, m: Manifest)
    requires Unforgeable(F, key, signed) && expectedKey != "" && F.decodeHex(expectedKey) == Some(F.publicOf(key))
    requires Genuine(F, archive, expectedKey, m)
    ensures exists manifest ::
      manifest in signed && LastMember(archive, "manifest.json", manifest) && F.decodeManifest(manifest) == Some(m)
  {
    var manifest, sig, pub, raw :|
      && LastMember(archive, "manifest.json", manifest) && LastMember(archive, "manifest.sig", sig)
      && F.decodeManifest(manifest) == Some(m) && F.decodeSignature(sig).Some?
      && Verifies(F, manifest, F.decodeSignature(sig).value, pub, raw, expectedKey);
    assert F.verify(F.publicOf(key), manifest, raw);
  }
}
