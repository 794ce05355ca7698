/** The signature search of a verified pull (client.go).  The registry and the
    verifier are oracles; errors are told apart only as far as the search does. */
module Signatures {
  import opened Disk

  datatype Referrer = Referrer(digest: string, artifactType: string)

  /** `verifies(manifest digest, manifest, signature data, media type)`. */
  datatype Registry = Registry(
    manifest: string -> Option<(string, string)>,
    platformDigest: string -> Option<string>,
    referrers: string -> Option<seq<Referrer>>,
    referrer: string -> Option<string>,
    knownNonSignature: string -> bool,
    parses: string -> bool,
    verifies: (string, string, string, string) -> bool)

  datatype Manifest = Manifest(digest: string, content: string)

  datatype Outcome = Verified(reference: string) | NoSignature | SignatureInvalid | Unresolved

  datatype ManifestOutcome = ManifestVerified | ManifestUnsigned | ManifestInvalid | ReferrersFailed

  // ---------- references pinned to a digest ----------

  function LastIndex(s: string, c: char): (i: int)
    ensures -1 <= i < |s|
    ensures i >= 0 ==> s[i] == c
    ensures forall k | i < k < |s| :: s[k] != c
  {
    if s == "" then -1
    else if s[|s| - 1] == c then |s| - 1
    else LastIndex(s[..|s| - 1], c)
  }

  /** The repository part of digestReference. */
  function Repository(ref: string): string {
    var at, colon, slash := LastIndex(ref, '@'), LastIndex(ref, ':'), LastIndex(ref, '/');
    if at != -1 then ref[..at]
    else if colon != -1 && slash != -1 && colon > slash then ref[..colon]
    else ref
  }

  function DigestReference(ref: string, digest: string): string {
    Repository(ref) + "@" + digest
  }

  lemma LastIndexIs(s: string, c: char, i: int)
    requires -1 <= i < |s| && (i >= 0 ==> s[i] == c) && forall k | i < k < |s| :: s[k] != c
    ensures LastIndex(s, c) == i
  {
  }

  /** Pinning again replaces the digest and keeps the repository. */
  lemma PinningAgainReplacesDigest(ref: string, d1: string, d2: string)
    requires '@' !in d1
    ensures DigestReference(DigestReference(ref, d1), d2) == DigestReference(ref, d2)
  {
    var pinned := DigestReference(ref, d1);
    var at := |Repository(ref)|;
    forall k | at < k < |pinned|
      ensures pinned[k] != '@'
    {
      assert pinned[k] == d1[k - at - 1];
    }
    LastIndexIs(pinned, '@', at);
    assert pinned[..at] == Repository(ref);
  }

  /** A tag is dropped exactly when the name before it has a slash: without one the
      colon is not taken for a tag separator. */
  lemma TagDroppedIffSlash(name: string, tag: string, d: string)
    requires '@' !in name && '@' !in tag && ':' !in tag && '/' !in tag
    ensures DigestReference(name + ":" + tag, d) ==
      (if '/' in name then name else name + ":" + tag) + "@" + d
  {
    var ref := name + ":" + tag;
    forall k | 0 <= k < |ref|
      ensures ref[k] != '@'
      ensures k > |name| ==> ref[k] != ':' && ref[k] != '/'
    {
      assert ref[k] == if k < |name| then name[k] else if k == |name| then ':' else tag[k - |name| - 1];
    }
    LastIndexIs(ref, '@', -1);
    LastIndexIs(ref, ':', |name|);
    assert ref[..|name|] == name;
    if '/' in name {
      var i :| 0 <= i < |name| && name[i] == '/';
      assert ref[i] == '/';
    } else {
      forall k | 0 <= k < |ref|
        ensures ref[k] != '/'
      {
        assert k < |name| ==> ref[k] in name;
      }
      LastIndexIs(ref, '/', -1);
    }
  }

  /** A colon before the last slash separates a port and stays. */
  lemma PortIsKept(host: string, path: string, d: string)
    requires '@' !in host && '@' !in path && ':' !in path && '/' in path
    ensures DigestReference(host + ":" + path, d) == host + ":" + path + "@" + d
  {
    var ref := host + ":" + path;
    forall k | 0 <= k < |ref|
      ensures ref[k] != '@'
      ensures k > |host| ==> ref[k] != ':'
    {
      assert ref[k] == if k < |host| then host[k] else if k == |host| then ':' else path[k - |host| - 1];
    }
    LastIndexIs(ref, '@', -1);
    LastIndexIs(ref, ':', |host|);
    var i :| 0 <= i < |path| && path[i] == '/';
    assert ref[|host| + 1 + i] == '/';
    assert LastIndex(ref, '/') > |host|;
  }

  // ---------- one manifest ----------

  predicate Candidate(reg: Registry, r: Referrer) {
    !reg.knownNonSignature(r.artifactType)
  }

  predicate Accepts(reg: Registry, m: Manifest, r: Referrer) {
    && Candidate(reg, r)
    && reg.referrer(r.digest).Some?
    && reg.parses(m.digest)
    && reg.verifies(m.digest, m.content, reg.referrer(r.digest).value, r.artifactType)
  }

  /** Some candidate referrer fetches and verifies. */
  predicate Signed(reg: Registry, m: Manifest) {
    reg.referrers(m.digest).Some? && exists r <- reg.referrers(m.digest).value :: Accepts(reg, m, r)
  }

  /** The referrers were listed, and none can be a signature. */
  predicate Unsigned(reg: Registry, m: Manifest) {
    reg.referrers(m.digest).Some? && forall r <- reg.referrers(m.digest).value :: !Candidate(reg, r)
  }

  method VerifyManifestSignature(reg: Registry, m: Manifest) returns (outcome: ManifestOutcome)
    ensures outcome.ReferrersFailed? <==> reg.referrers(m.digest).None?
    ensures outcome.ManifestVerified? <==> Signed(reg, m)
    ensures outcome.ManifestUnsigned? <==> Unsigned(reg, m)
    ensures outcome.ManifestVerified? ==>
      exists r <- reg.referrers(m.digest).value ::
        && !reg.knownNonSignature(r.artifactType) && reg.referrer(r.digest).Some?
        && reg.verifies(m.digest, m.content, reg.referrer(r.digest).value, r.artifactType)
  {
    var listed := reg.referrers(m.digest);
    if listed.None? {
      return ReferrersFailed;
    }
    var referrers := listed.value;
    var candidates: seq<Referrer> := [];
    for i := 0 to |referrers|
      invariant forall r :: r in candidates <==> r in referrers[..i] && Candidate(reg, r)
    {
      assert referrers[..i + 1] == referrers[..i] + [referrers[i]];
      if !reg.knownNonSignature(referrers[i].artifactType) {
        candidates := candidates + [referrers[i]];
      }
    }
    assert referrers[..|referrers|] == referrers;
    if |candidates| == 0 {
      return ManifestUnsigned;
    }
    assert candidates[0] in candidates;
    for i := 0 to |candidates|
      invariant forall k | 0 <= k < i :: !Accepts(reg, m, candidates[k])
    {
      var fetched := reg.referrer(candidates[i].digest);
      if fetched.None? || !reg.parses(m.digest) {
        continue;
      }
      if !reg.verifies(m.digest, m.content, fetched.value, candidates[i].artifactType) {
        continue;
      }
      assert candidates[i] in candidates;
      return ManifestVerified;
    }
    outcome := ManifestInvalid;
  }

  /** What a search of these manifests reports. */
  predicate Reports(reg: Registry, ms: seq<Manifest>, pinned: string, outcome: Outcome) {
    && (outcome == Verified(pinned) <==> exists m <- ms :: Signed(reg, m))
    && (outcome == NoSignature <==> forall m <- ms :: Unsigned(reg, m))
    && (outcome == SignatureInvalid <==> !(exists m <- ms :: Signed(reg, m)) && !(forall m <- ms :: Unsigned(reg, m)))
  }

  // ---------- the whole search ----------

  /** The search needs the manifest behind the reference and the platform's digest, and if
      that is another manifest, its bytes; it is unresolved exactly when one is missing.
      A single manifest is verified exactly when it is signed; of two, the platform's and
      the index, either will do.  In both cases the reference is pinned to the platform
      manifest.  There is no signature exactly when every referrer list was read and held
      no candidate, and everything else is an invalid signature, in any referrer order. */
  method VerifySignature(reg: Registry, ref: string) returns (outcome: Outcome)
    ensures reg.manifest(ref).None? ==> outcome.Unresolved?
    ensures reg.manifest(ref).Some? ==>
      var (bytes, index) := reg.manifest(ref).value;
      var platform := reg.platformDigest(DigestReference(ref, index));
      if platform.None? || platform.value == "" then outcome.Unresolved?
      else if platform.value == index then
        Reports(reg, [Manifest(index, bytes)], DigestReference(ref, index), outcome)
      else
        var fetched := reg.manifest(DigestReference(ref, platform.value));
        if fetched.None? then outcome.Unresolved?
        else
          Reports(reg, [Manifest(platform.value, fetched.value.0), Manifest(index, bytes)],
                  DigestReference(ref, platform.value), outcome)
  {
    var top := reg.manifest(ref);
    if top.None? {
      return Unresolved;
    }
    var (indexBytes, indexDigest) := top.value;
    var resolved := reg.platformDigest(DigestReference(ref, indexDigest));
    if resolved.None? || resolved.value == "" {
      return Unresolved;
    }
    var platformDigest := resolved.value;
    var platformBytes := indexBytes;
    if platformDigest != indexDigest {
      var fetched := reg.manifest(DigestReference(ref, platformDigest));
      if fetched.None? {
        return Unresolved;
      }
      platformBytes := fetched.value.0;
    }
    var manifests := [Manifest(platformDigest, platformBytes)];
    if indexDigest != platformDigest {
      manifests := manifests + [Manifest(indexDigest, indexBytes)];
    }

    var failed := false;
    for i := 0 to |manifests|
      invariant forall k | 0 <= k < i :: !Signed(reg, manifests[k])
      invariant failed <==> exists k | 0 <= k < i :: !Unsigned(reg, manifests[k])
    {
      var verified := VerifyManifestSignature(reg, manifests[i]);
      if verified.ManifestVerified? {
        assert manifests[i] in manifests;
        assert !Unsigned(reg, manifests[i]);
        return Verified(DigestReference(ref, platformDigest));
      } else if !verified.ManifestUnsigned? {
        failed := true;
      }
    }
    forall m <- manifests
      ensures !Signed(reg, m)
      ensures !failed ==> Unsigned(reg, m)
    {
      var k :| 0 <= k < |manifests| && manifests[k] == m;
    }
    if failed {
      var k :| 0 <= k < |manifests| && !Unsigned(reg, manifests[k]);
      assert manifests[k] in manifests;
    }
    outcome := if failed then SignatureInvalid else NoSignature;
  }
}
