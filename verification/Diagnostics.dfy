// Which diagnostics are reported about a catalog, and where: every code and path, by the
// record that causes it.

module Diagnostics {
  import opened Basics
  import opened JsonValue
  import opened Catalog
  import opened Trust
  import opened Identity
  import opened Validation
  import opened Agreement
  import opened Validity

  /** The report has this error, or this warning. */
  predicate Says(r: Report, error: bool, code: Code, path: string) {
    Diagnostic(code, path) in if error then r.errors else r.warnings
  }

  /** The path stands below `p`. */
  predicate IsBelow(path: string, p: string) { HasPrefix(path, p) }

  function Below(path: string, p: string): string
    requires IsBelow(path, p)
  {
    path[|p|..]
  }

  lemma SaysAt(p: string, r: Report, error: bool, code: Code, path: string)
    ensures Says(At(p, r), error, code, path) <==> IsBelow(path, p) && Says(r, error, code, Below(path, p))
  {
    PrefixedHas(p, if error then r.errors else r.warnings, code, path);
    hide Prefixed, IsBelow, Below;
  }

  lemma PrefixedHas(p: string, ds: seq<Diagnostic>, code: Code, path: string)
    ensures Diagnostic(code, path) in Prefixed(p, ds) <==> IsBelow(path, p) && Diagnostic(code, Below(path, p)) in ds
  {
    var put := Prefixed(p, ds);
    if i :| 0 <= i < |put| && put[i] == Diagnostic(code, path) {
      Joined(path, p, ds[i].path);
      assert ds[i] == Diagnostic(code, Below(path, p));
    }
    if IsBelow(path, p) && Diagnostic(code, Below(path, p)) in ds {
      var i :| 0 <= i < |ds| && ds[i] == Diagnostic(code, Below(path, p));
      Joined(path, p, ds[i].path);
      assert put[i] == Diagnostic(code, path);
    }
    hide IsBelow, Below;
  }

  lemma SaysOne(p: string, x: Code, error: bool, code: Code, path: string)
    ensures Says(At(p, Fault(x)), error, code, path) <==> error && Is(code, path, x, p)
    ensures Says(At(p, Concern(x)), error, code, path) <==> !error && Is(code, path, x, p)
  {
    SaysAt(p, Fault(x), error, code, path);
    SaysAt(p, Concern(x), error, code, path);
    IsJust(path, p);
    hide At, IsBelow, Below;
  }

  /** The diagnostic has this code and path. */
  predicate Is(code: Code, path: string, x: Code, p: string) { code == x && path == p }

  /** What a report says is what its parts say. */
  lemma SaysParts()
    ensures forall e, code, path {:trigger Says(QUIET, e, code, path)} :: !Says(QUIET, e, code, path)
    ensures forall x, e, code, path {:trigger Says(Fault(x), e, code, path)} :: Says(Fault(x), e, code, path) <==> e && Is(code, path, x, "")
    ensures forall x, e, code, path {:trigger Says(Concern(x), e, code, path)} :: Says(Concern(x), e, code, path) <==> !e && Is(code, path, x, "")
    ensures forall a: Report, b, e, code, path {:trigger Says(a.And(b), e, code, path)} ::
              Says(a.And(b), e, code, path) <==> Says(a, e, code, path) || Says(b, e, code, path)
    ensures forall c, r, e, code, path {:trigger Says(When(c, r), e, code, path)} :: Says(When(c, r), e, code, path) <==> c && Says(r, e, code, path)
    ensures forall p, x, e, code, path {:trigger Says(At(p, Fault(x)), e, code, path)} ::
              Says(At(p, Fault(x)), e, code, path) <==> e && Is(code, path, x, p)
    ensures forall p, x, e, code, path {:trigger Says(At(p, Concern(x)), e, code, path)} ::
              Says(At(p, Concern(x)), e, code, path) <==> !e && Is(code, path, x, p)
  {
    forall p, x, e, code, path {:trigger Says(At(p, Fault(x)), e, code, path)}
      ensures Says(At(p, Fault(x)), e, code, path) <==> e && Is(code, path, x, p)
    {
      SaysOne(p, x, e, code, path);
    }
    forall p, x, e, code, path {:trigger Says(At(p, Concern(x)), e, code, path)}
      ensures Says(At(p, Concern(x)), e, code, path) <==> !e && Is(code, path, x, p)
    {
      SaysOne(p, x, e, code, path);
    }
    hide At;
  }

  lemma MorePart(a: Report, b: Report, e: bool, code: Code, path: string)
    ensures Says(a.And(b), e, code, path) <==> Says(a, e, code, path) || Says(b, e, code, path)
    ensures !Says(QUIET, e, code, path)
  {
  }

  lemma SaysWhen(c: bool, r: Report, e: bool, code: Code, path: string)
    ensures Says(When(c, r), e, code, path) <==> c && Says(r, e, code, path)
  {
  }

  /** A report with one more error, or one more warning, at a place below. */
  lemma OneMore(r: Report, c: bool, p: string, x: Code, e: bool, code: Code, path: string)
    ensures Says(r.And(When(c, At(p, Fault(x)))), e, code, path) <==> Says(r, e, code, path) || (e && c && Is(code, path, x, p))
    ensures Says(r.And(When(c, At(p, Concern(x)))), e, code, path) <==> Says(r, e, code, path) || (!e && c && Is(code, path, x, p))
  {
    hide *;
    SaysOne(p, x, e, code, path);
    SaysWhen(c, At(p, Fault(x)), e, code, path);
    SaysWhen(c, At(p, Concern(x)), e, code, path);
    MorePart(r, When(c, At(p, Fault(x))), e, code, path);
    MorePart(r, When(c, At(p, Concern(x))), e, code, path);
  }

  lemma SaysBare(x: Code, e: bool, code: Code, path: string)
    ensures Says(Fault(x), e, code, path) <==> e && Is(code, path, x, "")
  {
    var d := Diagnostic(x, "");
    if e {
      assert Fault(x).errors[0] == d;
    } else {
      assert Fault(x).warnings == [];
    }
  }

  /** A report with one more error about the object itself. */
  lemma OneMoreBare(r: Report, c: bool, x: Code, e: bool, code: Code, path: string)
    ensures Says(r.And(When(c, Fault(x))), e, code, path) <==> Says(r, e, code, path) || (e && c && Is(code, path, x, ""))
  {
    hide *;
    SaysBare(x, e, code, path);
    SaysWhen(c, Fault(x), e, code, path);
    MorePart(r, When(c, Fault(x)), e, code, path);
  }

  lemma IsJust(path: string, p: string)
    ensures IsBelow(path, p) && Below(path, p) == "" <==> path == p
  {
    Joined(path, p, "");
    Append(p, "");
  }

  lemma Joined(path: string, p: string, q: string)
    ensures IsBelow(path, p) && Below(path, p) == q <==> path == p + q
  {
    if IsBelow(path, p) {
      assert path == p + Below(path, p);
    }
    if path == p + q {
      assert path[..|p|] == p && path[|p|..] == q;
    }
  }

  /** A diagnostic at `q` below `p` is one at `pq`. */
  lemma IsJoined(code: Code, path: string, x: Code, p: string, q: string, pq: string)
    requires p + q == pq
    ensures IsBelow(path, p) && Is(code, Below(path, p), x, q) <==> Is(code, path, x, pq)
  {
    Joined(path, p, q);
  }

  // ---------------------------------------------------------------- signatures

  /** The errors in the JWS at `p`. */
  predicate JwsSays(env: Env, jws: string, kind: Kind, code: Code, path: string, p: string) {
    && jws != ""
    && (if !IsDetached(jws) then Is(code, path, SignatureForm, p)
        else if ParseHeader(env.crypto, jws).None? then Is(code, path, SignatureMalformed, p)
        else HeaderSays(ParseHeader(env.crypto, jws).value, kind, code, path, p))
  }

  predicate HeaderSays(header: Header, kind: Kind, code: Code, path: string, p: string) {
    || (Is(code, path, SignatureAlgorithm, p) && Lower(header.algorithm) == "none")
    || (Is(code, path, SignatureB64, p) && "b64" in header.members)
    || (Is(code, path, SignatureType, p) && !IsTyped(header, kind))
  }

  /** The errors in a signature. */
  predicate SignatureSays(env: Env, s: Signature, kind: Kind, code: Code, path: string) {
    || (Is(code, path, SignatureMember, ".signer") && s.signer == "")
    || (Is(code, path, SignatureMember, ".profile") && s.profile == "")
    || (Is(code, path, SignatureMember, ".issuedAt") && s.issuedAt == "")
    || (Is(code, path, SignatureMember, ".jws") && s.jws == "")
    || (Is(code, path, SignatureSigner, ".signer") && s.signer != "" && !IsAbsoluteUri(s.signer))
    || (Is(code, path, Timestamp, ".issuedAt") && !IsTimestamp(env, s.issuedAt))
    || (Is(code, path, Timestamp, ".expiresAt") && s.expiresAt.Some? && !IsTimestamp(env, s.expiresAt.value))
    || (Is(code, path, SignatureExpiry, ".expiresAt") && EndsEarly(env, s))
    || JwsSays(env, s.jws, kind, code, path, ".jws")
  }

  /** The signature expires when it is issued or before. */
  predicate EndsEarly(env: Env, s: Signature) {
    && s.expiresAt.Some? && env.instant(s.issuedAt).Some? && env.instant(s.expiresAt.value).Some?
    && env.instant(s.expiresAt.value).value <= env.instant(s.issuedAt).value
  }

  lemma AtTimestamp(env: Env, value: string, p: string, error: bool, code: Code, path: string)
    ensures Says(At(p, TimestampReport(env, value)), error, code, path) <==> error && Is(code, path, Timestamp, p) && !IsTimestamp(env, value)
  {
    Append(p, "");
    IsJoined(code, path, Timestamp, p, "", p);
    SaysAt(p, TimestampReport(env, value), error, code, path);
    SaysParts();
    hide Says, At, Fault, IsBelow, Below, Is;
  }

  lemma WindowSays(env: Env, s: Signature, error: bool, code: Code, path: string)
    ensures Says(WindowReport(env, s), error, code, path) <==>
            && error
            && (|| (Is(code, path, Timestamp, ".expiresAt") && s.expiresAt.Some? && !IsTimestamp(env, s.expiresAt.value))
                || (Is(code, path, SignatureExpiry, ".expiresAt") && EndsEarly(env, s)))
  {
    hide Says, Report.And, At, When, Fault, TimestampReport, IsTimestamp, Is;
    MorePart(QUIET, QUIET, error, code, path);
    if s.expiresAt.Some? {
      AtTimestamp(env, s.expiresAt.value, ".expiresAt", error, code, path);
      var first := At(".expiresAt", TimestampReport(env, s.expiresAt.value));
      MorePart(QUIET, first, error, code, path);
      OneMore(QUIET.And(first), ExpiresBeforeIssued(env, s), ".expiresAt", SignatureExpiry, error, code, path);
    }
  }

  lemma ThreeFaults(a: bool, x: Code, b: bool, y: Code, c: bool, z: Code, e: bool, code: Code, path: string)
    ensures Says(QUIET.And(When(a, Fault(x))).And(When(b, Fault(y))).And(When(c, Fault(z))), e, code, path) <==>
            e && ((a && Is(code, path, x, "")) || (b && Is(code, path, y, "")) || (c && Is(code, path, z, "")))
  {
    hide *;
    MorePart(QUIET, QUIET, e, code, path);
    OneMoreBare(QUIET, a, x, e, code, path);
    OneMoreBare(QUIET.And(When(a, Fault(x))), b, y, e, code, path);
    OneMoreBare(QUIET.And(When(a, Fault(x))).And(When(b, Fault(y))), c, z, e, code, path);
  }

  lemma HeaderReportSays(header: Header, kind: Kind, error: bool, code: Code, path: string)
    ensures Says(HeaderReport(header, kind), error, code, path) <==> error && HeaderSays(header, kind, code, path, "")
  {
    TypedExact(header, kind);
    ThreeFaults(IsForbidden(header.algorithm), SignatureAlgorithm, header.Has("b64"), SignatureB64, header.typ != Typ(kind), SignatureType,
                error, code, path);
    hide Says, Report.And, When, Fault, Typ, IsTyped, Is, Lower;
  }

  lemma TypedExact(header: Header, kind: Kind)
    ensures header.typ == Typ(kind) <==> IsTyped(header, kind)
  {
  }

  lemma AtJws(env: Env, jws: string, kind: Kind, error: bool, code: Code, path: string)
    ensures Says(At(".jws", JwsReport(env, jws, kind)), error, code, path) <==> error && JwsSays(env, jws, kind, code, path, ".jws")
  {
    SaysAt(".jws", JwsReport(env, jws, kind), error, code, path);
    if IsBelow(path, ".jws") && IsDetached(jws) && ParseHeader(env.crypto, jws).Some? {
      HeaderReportSays(ParseHeader(env.crypto, jws).value, kind, error, code, Below(path, ".jws"));
    }
    SaysParts();
    JwsJoined(code, path);
    hide Says, At, HeaderReport, Fault, IsDetached, ParseHeader, IsTyped, IsBelow, Below, Is, Lower;
  }

  lemma JwsJoined(code: Code, path: string)
    ensures forall x :: IsBelow(path, ".jws") && Is(code, Below(path, ".jws"), x, "") <==> Is(code, path, x, ".jws")
  {
    forall x ensures IsBelow(path, ".jws") && Is(code, Below(path, ".jws"), x, "") <==> Is(code, path, x, ".jws") {
      Append(".jws", "");
      IsJoined(code, path, x, ".jws", "", ".jws");
    }
  }

  lemma SignatureReportSays(env: Env, s: Signature, kind: Kind, error: bool, code: Code, path: string)
    ensures Says(SignatureReport(env, s, kind), error, code, path) <==> error && SignatureSays(env, s, kind, code, path)
  {
    hide Says, Report.And, At, When, Fault, TimestampReport, IsTimestamp, WindowReport, JwsReport, IsAbsoluteUri, JwsSays, EndsEarly, Is;
    MorePart(QUIET, QUIET, error, code, path);
    var r0 := QUIET.And(When(s.signer == "", At(".signer", Fault(SignatureMember))));
    OneMore(QUIET, s.signer == "", ".signer", SignatureMember, error, code, path);
    var r1 := r0.And(When(s.profile == "", At(".profile", Fault(SignatureMember))));
    OneMore(r0, s.profile == "", ".profile", SignatureMember, error, code, path);
    var r2 := r1.And(When(s.issuedAt == "", At(".issuedAt", Fault(SignatureMember))));
    OneMore(r1, s.issuedAt == "", ".issuedAt", SignatureMember, error, code, path);
    var r3 := r2.And(When(s.jws == "", At(".jws", Fault(SignatureMember))));
    OneMore(r2, s.jws == "", ".jws", SignatureMember, error, code, path);
    var r4 := r3.And(When(s.signer != "" && !IsAbsoluteUri(s.signer), At(".signer", Fault(SignatureSigner))));
    OneMore(r3, s.signer != "" && !IsAbsoluteUri(s.signer), ".signer", SignatureSigner, error, code, path);
    var r5 := r4.And(At(".issuedAt", TimestampReport(env, s.issuedAt)));
    MorePart(r4, At(".issuedAt", TimestampReport(env, s.issuedAt)), error, code, path);
    AtTimestamp(env, s.issuedAt, ".issuedAt", error, code, path);
    MorePart(r5, WindowReport(env, s), error, code, path);
    WindowSays(env, s, error, code, path);
    MorePart(r5.And(WindowReport(env, s)), At(".jws", JwsReport(env, s.jws, kind)), error, code, path);
    AtJws(env, s.jws, kind, error, code, path);
  }

  predicate HasSource(header: Header) {
    "jku" in header.members || "jwk" in header.members || "x5u" in header.members || "x5c" in header.members
  }

  /** What the did:web profile warns about in a signature at `p`, given the paths below it. */
  predicate SignerSays(s: Signature, header: Header, code: Code, path: string, signer: string, jws: string) {
    || (Is(code, path, ProfileSigner, signer) && !IsRootDidWeb(s.signer))
    || (Is(code, path, ProfileAlgorithm, jws) && header.algorithm != "ES256" && Lower(header.algorithm) != "none")
    || (Is(code, path, ProfileKeyId, jws) && !IsKeyOf(s.signer, header.keyId))
    || (Is(code, path, ProfileHeader, jws) && HasSource(header))
  }

  predicate CurrentSays(env: Env, s: Signature, code: Code, path: string, issuedAt: string, expiresAt: string) {
    || (Is(code, path, SignatureNotYetValid, issuedAt) && env.instant(s.issuedAt).Some? && env.now < env.instant(s.issuedAt).value)
    || (Is(code, path, SignatureExpired, expiresAt) && s.expiresAt.Some? && env.instant(s.expiresAt.value).Some?
        && env.instant(s.expiresAt.value).value <= env.now)
  }

  /** The warnings about a manifest: none but those of the did:web profile, for a signature that selects it and can be read. */
  predicate ProfileSays(env: Env, m: ManifestFields, code: Code, path: string) {
    && m.signature.Some?
    && var s := m.signature.value;
       && s.profile == "did-web-v1" && IsDetached(s.jws) && ParseHeader(env.crypto, s.jws).Some?
       && (|| SignerSays(s, ParseHeader(env.crypto, s.jws).value, code, path, ".signature.signer", ".signature.jws")
           || CurrentSays(env, s, code, path, ".signature.issuedAt", ".signature.expiresAt"))
  }

  lemma {:induction false} KeySourceSays(header: Header, names: seq<string>, error: bool, code: Code, path: string)
    ensures Says(KeySourceReport(header, names), error, code, path) <==>
            !error && Is(code, path, ProfileHeader, ".jws") && !forall i :: 0 <= i < |names| ==> !header.Has(names[i])
  {
    SaysParts();
    hide Says, Report.And, At, When, Concern, Is;
    if names != [] {
      KeySourceSays(header, names[..|names| - 1], error, code, path);
      assert names == names[..|names| - 1] + [names[|names| - 1]];
    }
  }

  lemma SignerProfileSays(s: Signature, header: Header, error: bool, code: Code, path: string)
    ensures Says(SignerProfileReport(s, header), error, code, path) <==> !error && SignerSays(s, header, code, path, ".signer", ".jws")
  {
    KeySourceSays(header, KEY_SOURCES, error, code, path);
    SourcesAre(header);
    hide Says, Report.And, At, When, Concern, KeySourceReport, IsRootDidWeb, IsKeyOf, HasSource, Is;
    MorePart(QUIET, QUIET, error, code, path);
    var other := header.algorithm != ALGORITHM && !IsForbidden(header.algorithm);
    var r0 := QUIET.And(When(!IsRootDidWeb(s.signer), At(".signer", Concern(ProfileSigner))));
    OneMore(QUIET, !IsRootDidWeb(s.signer), ".signer", ProfileSigner, error, code, path);
    var r1 := r0.And(When(other, At(".jws", Concern(ProfileAlgorithm))));
    OneMore(r0, other, ".jws", ProfileAlgorithm, error, code, path);
    OneMore(r1, !IsKeyOf(s.signer, header.keyId), ".jws", ProfileKeyId, error, code, path);
    MorePart(r1.And(When(!IsKeyOf(s.signer, header.keyId), At(".jws", Concern(ProfileKeyId)))), KeySourceReport(header, KEY_SOURCES),
             error, code, path);
  }

  lemma SourcesAre(header: Header)
    ensures HasSource(header) <==> !forall i :: 0 <= i < |KEY_SOURCES| ==> !header.Has(KEY_SOURCES[i])
  {
    KeySourcesAre(header);
  }

  lemma SignatureJoined(code: Code, path: string)
    ensures forall x {:trigger Is(code, path, x, ".signature.signer")} ::
              IsBelow(path, ".signature") && Is(code, Below(path, ".signature"), x, ".signer") <==> Is(code, path, x, ".signature.signer")
    ensures forall x {:trigger Is(code, path, x, ".signature.jws")} ::
              IsBelow(path, ".signature") && Is(code, Below(path, ".signature"), x, ".jws") <==> Is(code, path, x, ".signature.jws")
    ensures forall x {:trigger Is(code, path, x, ".signature.issuedAt")} ::
              IsBelow(path, ".signature") && Is(code, Below(path, ".signature"), x, ".issuedAt") <==> Is(code, path, x, ".signature.issuedAt")
    ensures forall x {:trigger Is(code, path, x, ".signature.expiresAt")} ::
              IsBelow(path, ".signature") && Is(code, Below(path, ".signature"), x, ".expiresAt") <==> Is(code, path, x, ".signature.expiresAt")
  {
    JoinedAll(code, path, ".signature", ".signer", ".signature.signer");
    JoinedAll(code, path, ".signature", ".jws", ".signature.jws");
    JoinedAll(code, path, ".signature", ".issuedAt", ".signature.issuedAt");
    JoinedAll(code, path, ".signature", ".expiresAt", ".signature.expiresAt");
    hide Is, IsBelow, Below;
  }

  lemma JoinedAll(code: Code, path: string, p: string, q: string, pq: string)
    requires p + q == pq
    ensures forall x {:trigger Is(code, path, x, pq)} :: IsBelow(path, p) && Is(code, Below(path, p), x, q) <==> Is(code, path, x, pq)
  {
    forall x ensures IsBelow(path, p) && Is(code, Below(path, p), x, q) <==> Is(code, path, x, pq) {
      IsJoined(code, path, x, p, q, pq);
    }
  }

  lemma AtSigner(s: Signature, header: Header, error: bool, code: Code, path: string)
    ensures Says(At(".signature", SignerProfileReport(s, header)), error, code, path) <==>
            !error && SignerSays(s, header, code, path, ".signature.signer", ".signature.jws")
  {
    SaysAt(".signature", SignerProfileReport(s, header), error, code, path);
    SignatureJoined(code, path);
    if IsBelow(path, ".signature") {
      SignerProfileSays(s, header, error, code, Below(path, ".signature"));
    }
    hide Says, At, SignerProfileReport, IsRootDidWeb, IsKeyOf, HasSource, IsBelow, Below, Is;
  }

  lemma AtCurrent(env: Env, s: Signature, error: bool, code: Code, path: string)
    ensures Says(At(".signature", CurrentReport(env, s)), error, code, path) <==>
            !error && CurrentSays(env, s, code, path, ".signature.issuedAt", ".signature.expiresAt")
  {
    SaysAt(".signature", CurrentReport(env, s), error, code, path);
    SignatureJoined(code, path);
    SaysParts();
    hide Says, Report.And, At, When, Concern, IsBelow, Below, Is;
  }

  lemma ProfileReportSays(env: Env, m: ManifestFields, error: bool, code: Code, path: string)
    ensures Says(ProfileReport(env, m), error, code, path) <==> !error && ProfileSays(env, m, code, path)
  {
    hide Says, Report.And, At, SignerProfileReport, CurrentReport, SignerSays, CurrentSays, IsDetached, ParseHeader;
    MorePart(QUIET, QUIET, error, code, path);
    if m.signature.Some? && SelectsProfile(env, m.signature.value) {
      var s, header := m.signature.value, ParseHeader(env.crypto, m.signature.value.jws).value;
      AtSigner(s, header, error, code, path);
      AtCurrent(env, s, error, code, path);
      MorePart(QUIET, At(".signature", SignerProfileReport(s, header)), error, code, path);
      MorePart(QUIET.And(At(".signature", SignerProfileReport(s, header))), At(".signature", CurrentReport(env, s)), error, code, path);
    }
  }

  // ---------------------------------------------------------------- parts of manifests

  predicate SubjectSays(s: Subject, code: Code, path: string) {
    || (Is(code, path, SubjectMember, ".identifier") && s.identifier == "")
    || (Is(code, path, SubjectMember, ".type") && s.subjectType == "")
    || (Is(code, path, SubjectMember, ".digest") && s.digest == "")
    || (Is(code, path, DigestInvalid, ".digest") && !IsDigest(s.digest))
  }

  lemma AtDigest(value: string, p: string, error: bool, code: Code, path: string)
    ensures Says(At(p, DigestReport(value)), error, code, path) <==> error && Is(code, path, DigestInvalid, p) && !IsDigest(value)
  {
    ParseDigestExact(value);
    SaysAt(p, DigestReport(value), error, code, path);
    Append(p, "");
    IsJoined(code, path, DigestInvalid, p, "", p);
    SaysParts();
    hide Says, At, ParseDigest, IsDigestText, Fault, IsBelow, Below, Is;
  }

  lemma SubjectReportSays(s: Subject, error: bool, code: Code, path: string)
    ensures Says(SubjectReport(s), error, code, path) <==> error && SubjectSays(s, code, path)
  {
    hide Says, Report.And, At, When, Fault, DigestReport, IsDigest, Is;
    MorePart(QUIET, QUIET, error, code, path);
    var r0 := QUIET.And(When(s.identifier == "", At(".identifier", Fault(SubjectMember))));
    OneMore(QUIET, s.identifier == "", ".identifier", SubjectMember, error, code, path);
    var r1 := r0.And(When(s.subjectType == "", At(".type", Fault(SubjectMember))));
    OneMore(r0, s.subjectType == "", ".type", SubjectMember, error, code, path);
    OneMore(r1, s.digest == "", ".digest", SubjectMember, error, code, path);
    AtDigest(s.digest, ".digest", error, code, path);
    MorePart(r1.And(When(s.digest == "", At(".digest", Fault(SubjectMember)))), At(".digest", DigestReport(s.digest)), error, code, path);
  }

  /** The members in which subject and entry differ. */
  predicate MismatchSays(entry: CatalogEntry, s: Subject, code: Code, path: string) {
    || (Is(code, path, SubjectMismatch, ".subject.identifier") && s.identifier != "" && s.identifier != entry.identifier)
    || (Is(code, path, SubjectMismatch, ".subject.type") && s.subjectType != "" && entry.entryType != "" && s.subjectType != entry.entryType)
    || (Is(code, path, SubjectMismatch, ".subject.digest") && s.digest != "" && Text(entry.digest) != "" && s.digest != Text(entry.digest))
    || (Is(code, path, SubjectMismatch, ".subject.version") && s.version != entry.version)
  }

  lemma {:induction false} MismatchReportSays(members: seq<string>, error: bool, code: Code, path: string)
    ensures Says(MismatchReport(members), error, code, path) <==>
            error && exists i :: 0 <= i < |members| && Is(code, path, SubjectMismatch, ".subject." + members[i])
  {
    SaysParts();
    hide Says, Report.And, At, Fault, Is;
    if members != [] {
      MismatchReportSays(members[..|members| - 1], error, code, path);
      assert members == members[..|members| - 1] + [members[|members| - 1]];
    }
  }

  lemma MismatchMembers(entry: CatalogEntry, s: Subject, code: Code, path: string)
    ensures (exists i :: 0 <= i < |Mismatches(entry, s)| && Is(code, path, SubjectMismatch, ".subject." + Mismatches(entry, s)[i])) <==>
            MismatchSays(entry, s, code, path)
  {
    var members := Mismatches(entry, s);
    MismatchNames(entry, s);
    hide Mismatches, Is, MismatchSays;
    assert (exists i :: 0 <= i < |members| && Is(code, path, SubjectMismatch, ".subject." + members[i])) <==>
           exists name :: name in members && Is(code, path, SubjectMismatch, ".subject." + name) by {
      forall name | name in members ensures exists i :: 0 <= i < |members| && members[i] == name {
      }
    }
    NamedSays(entry, s, code, path, members);
  }

  lemma NamedSays(entry: CatalogEntry, s: Subject, code: Code, path: string, members: seq<string>)
    requires forall name :: name in members <==>
               || (name == "identifier" && s.identifier != "" && s.identifier != entry.identifier)
               || (name == "type" && s.subjectType != "" && entry.entryType != "" && s.subjectType != entry.entryType)
               || (name == "digest" && s.digest != "" && Text(entry.digest) != "" && s.digest != Text(entry.digest))
               || (name == "version" && s.version != entry.version)
    ensures (exists name :: name in members && Is(code, path, SubjectMismatch, ".subject." + name)) <==> MismatchSays(entry, s, code, path)
  {
    assert ".subject." + "identifier" == ".subject.identifier" && ".subject." + "type" == ".subject.type";
    assert ".subject." + "digest" == ".subject.digest" && ".subject." + "version" == ".subject.version";
    var i, t := s.identifier != "" && s.identifier != entry.identifier, s.subjectType != "" && entry.entryType != "" && s.subjectType != entry.entryType;
    var d, v := s.digest != "" && Text(entry.digest) != "" && s.digest != Text(entry.digest), s.version != entry.version;
    hide Is, MismatchSays;
    MismatchIs(entry, s, code, path);
    assert forall name :: name in members <==> (name == "identifier" && i) || (name == "type" && t) || (name == "digest" && d) || (name == "version" && v);
    FourNames("identifier", i, "type", t, "digest", d, "version", v, members, code, path);
  }

  lemma MismatchIs(entry: CatalogEntry, s: Subject, code: Code, path: string)
    ensures MismatchSays(entry, s, code, path) <==>
            || (Is(code, path, SubjectMismatch, ".subject.identifier") && s.identifier != "" && s.identifier != entry.identifier)
            || (Is(code, path, SubjectMismatch, ".subject.type") && s.subjectType != "" && entry.entryType != "" && s.subjectType != entry.entryType)
            || (Is(code, path, SubjectMismatch, ".subject.digest") && s.digest != "" && Text(entry.digest) != "" && s.digest != Text(entry.digest))
            || (Is(code, path, SubjectMismatch, ".subject.version") && s.version != entry.version)
  {
    hide Is;
  }

  lemma FourNames(n0: string, c0: bool, n1: string, c1: bool, n2: string, c2: bool, n3: string, c3: bool,
                  members: seq<string>, code: Code, path: string)
    requires forall name :: name in members <==> (name == n0 && c0) || (name == n1 && c1) || (name == n2 && c2) || (name == n3 && c3)
    ensures (exists name :: name in members && Is(code, path, SubjectMismatch, ".subject." + name)) <==>
            || (Is(code, path, SubjectMismatch, ".subject." + n0) && c0) || (Is(code, path, SubjectMismatch, ".subject." + n1) && c1)
            || (Is(code, path, SubjectMismatch, ".subject." + n2) && c2) || (Is(code, path, SubjectMismatch, ".subject." + n3) && c3)
  {
    hide Is;
  }

  lemma MismatchNames(entry: CatalogEntry, s: Subject)
    ensures forall name :: name in Mismatches(entry, s) <==>
              || (name == "identifier" && s.identifier != "" && s.identifier != entry.identifier)
              || (name == "type" && s.subjectType != "" && entry.entryType != "" && s.subjectType != entry.entryType)
              || (name == "digest" && s.digest != "" && Text(entry.digest) != "" && s.digest != Text(entry.digest))
              || (name == "version" && s.version != entry.version)
  {
  }

  lemma BindingSays(entry: CatalogEntry, m: ManifestFields, error: bool, code: Code, path: string)
    ensures Says(BindingReport(entry, m), error, code, path) <==> error && m.subject.Some? && MismatchSays(entry, m.subject.value, code, path)
  {
    SaysParts();
    if m.subject.Some? {
      MismatchReportSays(Mismatches(entry, m.subject.value), error, code, path);
      MismatchMembers(entry, m.subject.value, code, path);
    }
    hide Says, Mismatches, MismatchReport, MismatchSays, Is;
  }

  lemma {:induction false} FaultsSay(n: nat, x: Code, error: bool, code: Code, path: string)
    ensures Says(Faults(n, x), error, code, path) <==> n > 0 && error && Is(code, path, x, "")
  {
    hide Says, Report.And, Fault, Is;
    MorePart(QUIET, QUIET, error, code, path);
    if n > 0 {
      FaultsSay(n - 1, x, error, code, path);
      SaysBare(x, error, code, path);
      MorePart(Faults(n - 1, x), Fault(x), error, code, path);
    }
  }

  lemma AtExtensions(extensions: Option<Extras>, error: bool, code: Code, path: string)
    ensures Says(At(".extensions", ExtensionKeysReport(extensions)), error, code, path) <==>
            error && Is(code, path, ExtensionKey, ".extensions") && !AreExtensions(extensions)
  {
    SaysAt(".extensions", ExtensionKeysReport(extensions), error, code, path);
    Append(".extensions", "");
    IsJoined(code, path, ExtensionKey, ".extensions", "", ".extensions");
    if IsBelow(path, ".extensions") {
      FaultsSay(|BadKeys(extensions)|, ExtensionKey, error, code, Below(path, ".extensions"));
    }
    BadKeysExact(extensions);
    hide Says, At, Faults, BadKeys, AreExtensions, IsBelow, Below, Is;
  }

  predicate AttestationSays(a: Attestation, code: Code, path: string) {
    || (Is(code, path, AttestationMember, ".type") && a.attestationType == "")
    || (Is(code, path, AttestationMember, ".uri") && a.uri == "")
    || (Is(code, path, DigestInvalid, ".digest") && !IsDigest(Text(a.digest)))
  }

  predicate ProvenanceSays(l: ProvenanceLink, code: Code, path: string) {
    || (Is(code, path, ProvenanceMember, ".relation") && l.relation == "")
    || (Is(code, path, ProvenanceMember, ".sourceId") && l.sourceId == "")
    || (Is(code, path, DigestInvalid, ".sourceDigest") && !IsDigest(Text(l.sourceDigest)))
  }

  lemma AttestationReportSays(a: Attestation, error: bool, code: Code, path: string)
    ensures Says(AttestationReport(a), error, code, path) <==> error && AttestationSays(a, code, path)
  {
    SaysParts();
    AtDigest(Text(a.digest), ".digest", error, code, path);
    hide Says, Report.And, At, When, Fault, DigestReport, IsDigest, Is;
  }

  lemma ProvenanceReportSays(l: ProvenanceLink, error: bool, code: Code, path: string)
    ensures Says(ProvenanceReport(l), error, code, path) <==> error && ProvenanceSays(l, code, path)
  {
    SaysParts();
    AtDigest(Text(l.sourceDigest), ".sourceDigest", error, code, path);
    hide Says, Report.And, At, When, Fault, DigestReport, IsDigest, Is;
  }

  predicate AttestationSaysAt(attestations: seq<Attestation>, i: nat, code: Code, path: string)
    requires i < |attestations|
  {
    IsBelow(path, Item(".attestations", i)) && AttestationSays(attestations[i], code, Below(path, Item(".attestations", i)))
  }

  lemma {:induction false} AttestationsSay(attestations: seq<Attestation>, error: bool, code: Code, path: string)
    ensures Says(AttestationsReport(attestations), error, code, path) <==>
            error && AnyAttestationSays(attestations, code, path)
  {
    SaysParts();
    hide Says, Report.And, At, AttestationReport, AttestationSays, Item, IsBelow, Below;
    if attestations != [] {
      var last := |attestations| - 1;
      var init := attestations[..last];
      AttestationsSay(init, error, code, path);
      SaysAt(Item(".attestations", last), AttestationReport(attestations[last]), error, code, path);
      if IsBelow(path, Item(".attestations", last)) {
        AttestationReportSays(attestations[last], error, code, Below(path, Item(".attestations", last)));
      }
      assert forall i :: 0 <= i < last ==> (AttestationSaysAt(init, i, code, path) <==> AttestationSaysAt(attestations, i, code, path));
      assert Says(At(Item(".attestations", last), AttestationReport(attestations[last])), error, code, path) <==>
             error && AttestationSaysAt(attestations, last, code, path);
      hide AttestationSaysAt;
    }
  }

  predicate ProvenanceSaysAt(links: seq<ProvenanceLink>, i: nat, code: Code, path: string)
    requires i < |links|
  {
    IsBelow(path, Item(".provenance", i)) && ProvenanceSays(links[i], code, Below(path, Item(".provenance", i)))
  }

  lemma {:induction false} ProvenancesSay(links: seq<ProvenanceLink>, error: bool, code: Code, path: string)
    ensures Says(ProvenancesReport(links), error, code, path) <==>
            error && AnyProvenanceSays(links, code, path)
  {
    SaysParts();
    hide Says, Report.And, At, ProvenanceReport, ProvenanceSays, Item, IsBelow, Below;
    if links != [] {
      var last := |links| - 1;
      var init := links[..last];
      ProvenancesSay(init, error, code, path);
      SaysAt(Item(".provenance", last), ProvenanceReport(links[last]), error, code, path);
      if IsBelow(path, Item(".provenance", last)) {
        ProvenanceReportSays(links[last], error, code, Below(path, Item(".provenance", last)));
      }
      assert forall i :: 0 <= i < last ==> (ProvenanceSaysAt(init, i, code, path) <==> ProvenanceSaysAt(links, i, code, path));
      assert Says(At(Item(".provenance", last), ProvenanceReport(links[last])), error, code, path) <==>
             error && ProvenanceSaysAt(links, last, code, path);
      hide ProvenanceSaysAt;
    }
  }

  // ---------------------------------------------------------------- manifests

  /** The part at `p` says it, of what stands below there. */
  lemma AtPart(p: string, r: Report, e: bool, code: Code, path: string)
    ensures Says(At(p, r), e, code, path) ==> IsBelow(path, p)
    ensures IsBelow(path, p) ==> (Says(At(p, r), e, code, path) <==> Says(r, e, code, Below(path, p)))
  {
    SaysAt(p, r, e, code, path);
    hide Says, At, IsBelow, Below;
  }

  predicate ManifestSignatureSays(env: Env, m: ManifestFields, code: Code, path: string) {
    && m.signature.Some?
    && (|| (Is(code, path, ManifestSignedMember, ".subject") && m.subject.None?)
        || (IsBelow(path, ".signature") && SignatureSays(env, m.signature.value, OfManifest, code, Below(path, ".signature")))
        || (Is(code, path, ManifestSigner, ".signature.signer")
            && m.signature.value.signer != "" && m.signature.value.signer != m.contributor))
  }

  lemma ManifestSignatureReportSays(env: Env, m: ManifestFields, error: bool, code: Code, path: string)
    ensures Says(ManifestSignatureReport(env, m), error, code, path) <==> error && ManifestSignatureSays(env, m, code, path)
  {
    hide Says, Report.And, At, When, Fault, SignatureReport, SignatureSays, IsBelow, Below, Is;
    MorePart(QUIET, QUIET, error, code, path);
    if m.signature.Some? {
      var s := m.signature.value;
      var r0 := QUIET.And(When(m.subject.None?, At(".subject", Fault(ManifestSignedMember))));
      OneMore(QUIET, m.subject.None?, ".subject", ManifestSignedMember, error, code, path);
      var part := At(".signature", SignatureReport(env, s, OfManifest));
      MorePart(r0, part, error, code, path);
      AtPart(".signature", SignatureReport(env, s, OfManifest), error, code, path);
      if IsBelow(path, ".signature") {
        SignatureReportSays(env, s, OfManifest, error, code, Below(path, ".signature"));
      }
      OneMore(r0.And(part), s.signer != "" && s.signer != m.contributor, ".signature.signer", ManifestSigner, error, code, path);
    }
  }

  predicate ContributorSays(contributor: string, code: Code, path: string) {
    || (Is(code, path, ManifestContributor, ".contributor") && contributor == "")
    || (Is(code, path, ManifestContributorUri, ".contributor") && contributor != "" && !IsAbsoluteUri(contributor))
  }

  lemma AtContributor(contributor: string, error: bool, code: Code, path: string)
    ensures Says(At(".contributor", ContributorReport(contributor)), error, code, path) <==> error && ContributorSays(contributor, code, path)
  {
    hide Says, At, Fault, Is, IsAbsoluteUri, IsBelow, Below;
    AtPart(".contributor", When(!IsAbsoluteUri(contributor), Fault(ManifestContributorUri)), error, code, path);
    SaysOne(".contributor", ManifestContributor, error, code, path);
    SaysOne(".contributor", ManifestContributorUri, error, code, path);
    AtPart(".contributor", Fault(ManifestContributorUri), error, code, path);
    if IsBelow(path, ".contributor") {
      SaysWhen(!IsAbsoluteUri(contributor), Fault(ManifestContributorUri), error, code, Below(path, ".contributor"));
    }
    hide When;
  }

  predicate SchemaSays(t: TrustSchema, code: Code, path: string) {
    || (Is(code, path, TrustSchemaMember, ".identifier") && t.identifier == "")
    || (Is(code, path, TrustSchemaMember, ".version") && t.version == "")
  }

  lemma SchemaReportSays(t: TrustSchema, error: bool, code: Code, path: string)
    ensures Says(TrustSchemaReport(t), error, code, path) <==> error && SchemaSays(t, code, path)
  {
    hide Says, Report.And, At, When, Fault, Is;
    MorePart(QUIET, QUIET, error, code, path);
    OneMore(QUIET, t.identifier == "", ".identifier", TrustSchemaMember, error, code, path);
    OneMore(QUIET.And(When(t.identifier == "", At(".identifier", Fault(TrustSchemaMember)))), t.version == "", ".version", TrustSchemaMember,
            error, code, path);
  }

  predicate AnyAttestationSays(attestations: seq<Attestation>, code: Code, path: string) {
    exists i :: 0 <= i < |attestations| && AttestationSaysAt(attestations, i, code, path)
  }

  predicate AnyProvenanceSays(links: seq<ProvenanceLink>, code: Code, path: string) {
    exists i :: 0 <= i < |links| && ProvenanceSaysAt(links, i, code, path)
  }

  /** The errors in a trust manifest. */
  predicate ManifestSays(env: Env, m: ManifestFields, code: Code, path: string) {
    || (Is(code, path, ExtensionKey, ".extensions") && !AreExtensions(m.extensions))
    || ContributorSays(m.contributor, code, path)
    || (Is(code, path, ManifestEmpty, "") && !SaysSomething(m))
    || ManifestSignatureSays(env, m, code, path)
    || (m.subject.Some? && IsBelow(path, ".subject") && SubjectSays(m.subject.value, code, Below(path, ".subject")))
    || (m.trustSchema.Some? && IsBelow(path, ".trustSchema") && SchemaSays(m.trustSchema.value, code, Below(path, ".trustSchema")))
    || AnyAttestationSays(m.attestations, code, path)
    || AnyProvenanceSays(m.provenance, code, path)
  }

  lemma SubstantiveExact(m: ManifestFields)
    ensures IsSubstantive(m) <==> SaysSomething(m)
  {
  }

  lemma AtSubject(m: ManifestFields, error: bool, code: Code, path: string)
    ensures Says(if m.subject.Some? then At(".subject", SubjectReport(m.subject.value)) else QUIET, error, code, path) <==>
            error && m.subject.Some? && IsBelow(path, ".subject") && SubjectSays(m.subject.value, code, Below(path, ".subject"))
  {
    hide Says, At, SubjectReport, SubjectSays, IsBelow, Below;
    MorePart(QUIET, QUIET, error, code, path);
    if m.subject.Some? {
      AtPart(".subject", SubjectReport(m.subject.value), error, code, path);
      if IsBelow(path, ".subject") {
        SubjectReportSays(m.subject.value, error, code, Below(path, ".subject"));
      }
    }
  }

  lemma AtSchema(m: ManifestFields, error: bool, code: Code, path: string)
    ensures Says(if m.trustSchema.Some? then At(".trustSchema", TrustSchemaReport(m.trustSchema.value)) else QUIET, error, code, path) <==>
            error && m.trustSchema.Some? && IsBelow(path, ".trustSchema") && SchemaSays(m.trustSchema.value, code, Below(path, ".trustSchema"))
  {
    hide Says, At, TrustSchemaReport, SchemaSays, IsBelow, Below;
    MorePart(QUIET, QUIET, error, code, path);
    if m.trustSchema.Some? {
      AtPart(".trustSchema", TrustSchemaReport(m.trustSchema.value), error, code, path);
      if IsBelow(path, ".trustSchema") {
        SchemaReportSays(m.trustSchema.value, error, code, Below(path, ".trustSchema"));
      }
    }
  }

  /** A report of seven parts after the first. */
  lemma EightParts(a: Report, b: Report, c: Report, d: Report, f: Report, g: Report, h: Report, k: Report, e: bool, code: Code, path: string)
    ensures Says(QUIET.And(a).And(b).And(c).And(d).And(f).And(g).And(h).And(k), e, code, path) <==>
            || Says(a, e, code, path) || Says(b, e, code, path) || Says(c, e, code, path) || Says(d, e, code, path)
            || Says(f, e, code, path) || Says(g, e, code, path) || Says(h, e, code, path) || Says(k, e, code, path)
  {
    hide *;
    var r := QUIET.And(a).And(b).And(c).And(d);
    MorePart(QUIET, a, e, code, path);
    MorePart(QUIET.And(a), b, e, code, path);
    MorePart(QUIET.And(a).And(b), c, e, code, path);
    MorePart(QUIET.And(a).And(b).And(c), d, e, code, path);
    MorePart(r, f, e, code, path);
    MorePart(r.And(f), g, e, code, path);
    MorePart(r.And(f).And(g), h, e, code, path);
    MorePart(r.And(f).And(g).And(h), k, e, code, path);
  }

  lemma AtEmpty(m: ManifestFields, error: bool, code: Code, path: string)
    ensures Says(When(!IsSubstantive(m), At("", Fault(ManifestEmpty))), error, code, path) <==>
            error && Is(code, path, ManifestEmpty, "") && !SaysSomething(m)
  {
    SubstantiveExact(m);
    hide *;
    SaysOne("", ManifestEmpty, error, code, path);
    SaysWhen(!IsSubstantive(m), At("", Fault(ManifestEmpty)), error, code, path);
  }

  lemma ManifestParts(env: Env, m: ManifestFields, e: bool, code: Code, path: string)
    ensures Says(ManifestReport(env, m), e, code, path) <==>
            || Says(At(".extensions", ExtensionKeysReport(m.extensions)), e, code, path)
            || Says(At(".contributor", ContributorReport(m.contributor)), e, code, path)
            || Says(When(!IsSubstantive(m), At("", Fault(ManifestEmpty))), e, code, path)
            || Says(ManifestSignatureReport(env, m), e, code, path)
            || Says(if m.subject.Some? then At(".subject", SubjectReport(m.subject.value)) else QUIET, e, code, path)
            || Says(if m.trustSchema.Some? then At(".trustSchema", TrustSchemaReport(m.trustSchema.value)) else QUIET, e, code, path)
            || Says(AttestationsReport(m.attestations), e, code, path)
            || Says(ProvenancesReport(m.provenance), e, code, path)
  {
    var subject := if m.subject.Some? then At(".subject", SubjectReport(m.subject.value)) else QUIET;
    var schema := if m.trustSchema.Some? then At(".trustSchema", TrustSchemaReport(m.trustSchema.value)) else QUIET;
    EightParts(At(".extensions", ExtensionKeysReport(m.extensions)), At(".contributor", ContributorReport(m.contributor)),
               When(!IsSubstantive(m), At("", Fault(ManifestEmpty))), ManifestSignatureReport(env, m), subject, schema,
               AttestationsReport(m.attestations), ProvenancesReport(m.provenance), e, code, path);
    hide Says, Report.And, At, When, Fault, ExtensionKeysReport, ContributorReport, ManifestSignatureReport, SubjectReport, TrustSchemaReport,
         AttestationsReport, ProvenancesReport, IsSubstantive;
  }

  lemma ManifestReportSays(env: Env, m: ManifestFields, error: bool, code: Code, path: string)
    ensures Says(ManifestReport(env, m), error, code, path) <==> error && ManifestSays(env, m, code, path)
  {
    ManifestParts(env, m, error, code, path);
    AtExtensions(m.extensions, error, code, path);
    AtContributor(m.contributor, error, code, path);
    AtEmpty(m, error, code, path);
    ManifestSignatureReportSays(env, m, error, code, path);
    AtSubject(m, error, code, path);
    AtSchema(m, error, code, path);
    AttestationsSay(m.attestations, error, code, path);
    ProvenancesSay(m.provenance, error, code, path);
    hide *;
    ManifestFaults(env, m, code, path);
  }

  /** The parts of `ManifestSays`, by name. */
  lemma ManifestFaults(env: Env, m: ManifestFields, code: Code, path: string)
    ensures ManifestSays(env, m, code, path) <==>
            || (Is(code, path, ExtensionKey, ".extensions") && !AreExtensions(m.extensions))
            || ContributorSays(m.contributor, code, path)
            || (Is(code, path, ManifestEmpty, "") && !SaysSomething(m))
            || ManifestSignatureSays(env, m, code, path)
            || (m.subject.Some? && IsBelow(path, ".subject") && SubjectSays(m.subject.value, code, Below(path, ".subject")))
            || (m.trustSchema.Some? && IsBelow(path, ".trustSchema") && SchemaSays(m.trustSchema.value, code, Below(path, ".trustSchema")))
            || AnyAttestationSays(m.attestations, code, path)
            || AnyProvenanceSays(m.provenance, code, path)
  {
    hide Is, AreExtensions, ContributorSays, SaysSomething, ManifestSignatureSays, IsBelow, Below, SubjectSays, SchemaSays,
         AnyAttestationSays, AnyProvenanceSays;
  }

  // ---------------------------------------------------------------- entries

  /** What is reported about a trust manifest of an entry: its errors, how it contradicts the entry, and its profile. */
  predicate EntryManifestSays(env: Env, entry: CatalogEntry, m: ManifestFields, error: bool, code: Code, path: string) {
    if error then ManifestSays(env, m, code, path) || (m.subject.Some? && MismatchSays(entry, m.subject.value, code, path))
    else ProfileSays(env, m, code, path)
  }

  lemma EntryManifestReportSays(env: Env, entry: CatalogEntry, m: ManifestFields, error: bool, code: Code, path: string)
    ensures Says(EntryManifestReport(env, entry, m), error, code, path) <==> EntryManifestSays(env, entry, m, error, code, path)
  {
    hide Says, Report.And, ManifestReport, BindingReport, ProfileReport, ManifestSays, MismatchSays, ProfileSays;
    MorePart(QUIET, ManifestReport(env, m), error, code, path);
    MorePart(QUIET.And(ManifestReport(env, m)), BindingReport(entry, m), error, code, path);
    MorePart(QUIET.And(ManifestReport(env, m)).And(BindingReport(entry, m)), ProfileReport(env, m), error, code, path);
    ManifestReportSays(env, m, error, code, path);
    BindingSays(entry, m, error, code, path);
    ProfileReportSays(env, m, error, code, path);
  }

  predicate ManifestSaysAt(env: Env, entry: CatalogEntry, manifests: seq<TrustManifest>, j: nat, error: bool, code: Code, path: string)
    requires j < |manifests|
  {
    && IsBelow(path, Item(".trustManifests", j))
    && EntryManifestSays(env, entry, manifests[j].fields, error, code, Below(path, Item(".trustManifests", j)))
  }

  lemma {:induction false} ManifestsSay(env: Env, entry: CatalogEntry, manifests: seq<TrustManifest>, error: bool, code: Code, path: string)
    ensures Says(ManifestsReport(env, entry, manifests), error, code, path) <==>
            exists j :: 0 <= j < |manifests| && ManifestSaysAt(env, entry, manifests, j, error, code, path)
  {
    hide Says, Report.And, At, EntryManifestReport, EntryManifestSays, Item, IsBelow, Below;
    MorePart(QUIET, QUIET, error, code, path);
    if manifests != [] {
      var last := |manifests| - 1;
      var init, p, part := manifests[..last], Item(".trustManifests", last), EntryManifestReport(env, entry, manifests[last].fields);
      ManifestsSay(env, entry, init, error, code, path);
      MorePart(ManifestsReport(env, entry, init), At(p, part), error, code, path);
      AtPart(p, part, error, code, path);
      if IsBelow(path, p) {
        EntryManifestReportSays(env, entry, manifests[last].fields, error, code, Below(path, p));
      }
      assert forall j :: 0 <= j < last ==>
               (ManifestSaysAt(env, entry, init, j, error, code, path) <==> ManifestSaysAt(env, entry, manifests, j, error, code, path));
      assert Says(At(p, part), error, code, path) <==> ManifestSaysAt(env, entry, manifests, last, error, code, path);
      hide ManifestSaysAt, ManifestsReport;
    }
  }

  predicate AnyManifestSays(env: Env, entry: CatalogEntry, error: bool, code: Code, path: string) {
    exists j :: 0 <= j < |entry.trustManifests| && ManifestSaysAt(env, entry, entry.trustManifests, j, error, code, path)
  }

  /** What is reported about the trust of an entry. */
  predicate TrustSays(env: Env, entry: CatalogEntry, error: bool, code: Code, path: string) {
    || (error && Is(code, path, DigestInvalid, ".digest") && !IsDigest(Text(entry.digest)))
    || (error && Is(code, path, EntryDigest, ".digest") && !NoneSigned(entry.trustManifests) && (entry.digest.None? || entry.digest == Some("")))
    || AnyManifestSays(env, entry, error, code, path)
  }

  lemma SignedExact(manifests: seq<TrustManifest>)
    ensures HasSigned(manifests) <==> !NoneSigned(manifests)
  {
  }

  lemma TrustReportSays(env: Env, entry: CatalogEntry, error: bool, code: Code, path: string)
    ensures Says(EntryTrustReport(env, entry), error, code, path) <==> TrustSays(env, entry, error, code, path)
  {
    SignedExact(entry.trustManifests);
    hide Says, Report.And, At, When, Fault, DigestReport, IsDigest, ManifestsReport, HasSigned, NoneSigned, ManifestSaysAt, Is;
    var digest := At(".digest", DigestReport(Text(entry.digest)));
    var manifests := ManifestsReport(env, entry, entry.trustManifests);
    MorePart(QUIET, digest, error, code, path);
    AtDigest(Text(entry.digest), ".digest", error, code, path);
    MorePart(QUIET.And(digest), manifests, error, code, path);
    ManifestsSay(env, entry, entry.trustManifests, error, code, path);
    OneMore(QUIET.And(digest).And(manifests), HasSigned(entry.trustManifests) && Text(entry.digest) == "", ".digest", EntryDigest,
            error, code, path);
  }

  predicate PublisherSays(p: Option<Publisher>, code: Code, path: string) {
    && p.Some?
    && (|| (Is(code, path, PublisherMember, ".publisher.identifier") && p.value.identifier == "")
        || (Is(code, path, PublisherMember, ".publisher.displayName") && p.value.displayName == ""))
  }

  lemma AtPublisher(p: Option<Publisher>, error: bool, code: Code, path: string)
    ensures Says(At(".publisher", PublisherReport(p)), error, code, path) <==> error && PublisherSays(p, code, path)
  {
    hide Says, Report.And, At, When, Fault, IsBelow, Below, Is;
    AtPart(".publisher", PublisherReport(p), error, code, path);
    assert ".publisher" + ".identifier" == ".publisher.identifier" && ".publisher" + ".displayName" == ".publisher.displayName";
    IsJoined(code, path, PublisherMember, ".publisher", ".identifier", ".publisher.identifier");
    IsJoined(code, path, PublisherMember, ".publisher", ".displayName", ".publisher.displayName");
    if IsBelow(path, ".publisher") {
      var q := Below(path, ".publisher");
      MorePart(QUIET, QUIET, error, code, q);
      if p.Some? {
        OneMore(QUIET, p.value.identifier == "", ".identifier", PublisherMember, error, code, q);
        OneMore(QUIET.And(When(p.value.identifier == "", At(".identifier", Fault(PublisherMember)))), p.value.displayName == "",
                ".displayName", PublisherMember, error, code, q);
      }
    }
  }

  /** What is reported about an entry and all that it contains. */
  predicate EntrySays(env: Env, e: CatalogEntry, limit: nat, error: bool, code: Code, path: string)
    decreases limit, 1
  {
    || (error && EntryFault(env, e, code, path))
    || (!error && Is(code, path, IdentifierNotUri, ".identifier") && e.identifier != "" && HasNo(e.identifier, ':'))
    || TrustSays(env, e, error, code, path)
    || NestedSays(env, e, limit, error, code, path)
  }

  /** The errors in the own members of an entry. */
  predicate EntryFault(env: Env, e: CatalogEntry, code: Code, path: string) {
    || (Is(code, path, EntryMember, ".identifier") && e.identifier == "")
    || (Is(code, path, EntryMember, ".type") && e.entryType == "")
    || (Is(code, path, EntryArtifact, "") && !IsSourced(e))
    || (Is(code, path, Timestamp, ".updatedAt") && !IsTimestamp(env, Text(e.updatedAt)))
    || (Is(code, path, ExtensionKey, ".extensions") && !AreExtensions(e.extensions))
    || (Is(code, path, PolicyUrls, ".extensions") && !HasPolicyUrls(e.extensions))
    || PublisherSays(e.publisher, code, path)
  }

  /** An entry that is a catalog: too deep at the limit, or not a catalog after all, or what is reported below its data. */
  predicate NestedSays(env: Env, e: CatalogEntry, limit: nat, error: bool, code: Code, path: string)
    decreases limit, 0
  {
    && e.entryType == "application/ai-catalog+json"
    && if limit == 0 then error && Is(code, path, NestedDepth, "")
       else
         && e.data.Some?
         && if env.catalogOf(e.data.value).None? then error && Is(code, path, NestedInvalid, ".data")
            else IsBelow(path, ".data") && CatalogSays(env, env.catalogOf(e.data.value).value, limit - 1, error, code, Below(path, ".data"))
  }

  predicate EntrySaysAt(env: Env, entries: seq<CatalogEntry>, i: nat, limit: nat, error: bool, code: Code, path: string)
    requires i < |entries|
    decreases limit, 2
  {
    IsBelow(path, Item(".entries", i)) && EntrySays(env, entries[i], limit, error, code, Below(path, Item(".entries", i)))
  }

  predicate AnyEntrySays(env: Env, entries: seq<CatalogEntry>, limit: nat, error: bool, code: Code, path: string)
    decreases limit, 3
  {
    exists i :: 0 <= i < |entries| && EntrySaysAt(env, entries, i, limit, error, code, path)
  }

  /** Which conflicts with earlier entries are reported, and where. */
  predicate ConflictSays(entries: seq<CatalogEntry>, i: nat, code: Code, path: string)
    requires i < |entries|
  {
    if Text(entries[i].version) == "" then
      Is(code, path, EntryDuplicate, Item(".entries", i)) && exists j :: 0 <= j < i && entries[j].identifier == entries[i].identifier
    else
      || (Is(code, path, EntryVersion, Item(".entries", i) + ".identifier")
          && exists j :: 0 <= j < i && entries[j].identifier == entries[i].identifier && Text(entries[j].version) == "")
      || (Is(code, path, EntryDuplicate, Item(".entries", i))
          && exists j :: 0 <= j < i && entries[j].identifier == entries[i].identifier && Text(entries[j].version) == Text(entries[i].version))
  }

  predicate AnyConflictSays(entries: seq<CatalogEntry>, n: nat, code: Code, path: string)
    requires n <= |entries|
  {
    exists i :: 0 <= i < n && ConflictSays(entries, i, code, path)
  }

  /** The errors in the own members of a catalog. */
  predicate CatalogFault(env: Env, c: AiCatalog, code: Code, path: string) {
    || (Is(code, path, SpecVersion, ".specVersion") && !IsSpecVersion(c.specVersion))
    || (Is(code, path, HostMember, ".host.displayName") && c.host.Some? && c.host.value.displayName == "")
    || (c.signature.Some? && IsBelow(path, ".signature") && SignatureSays(env, c.signature.value, OfCatalog, code, Below(path, ".signature")))
    || (Is(code, path, ExtensionKey, ".extensions") && !AreExtensions(c.extensions))
    || AnyConflictSays(c.entries, |c.entries|, code, path)
  }

  /** What is reported about a catalog and all that it contains. */
  predicate CatalogSays(env: Env, c: AiCatalog, limit: nat, error: bool, code: Code, path: string)
    decreases limit, 4
  {
    || (error && CatalogFault(env, c, code, path))
    || AnyEntrySays(env, c.entries, limit, error, code, path)
  }

  lemma TenParts(a: Report, b: Report, c: Report, d: Report, f: Report, g: Report, h: Report, k: Report, m: Report, n: Report,
                 e: bool, code: Code, path: string)
    ensures Says(QUIET.And(a).And(b).And(c).And(d).And(f).And(g).And(h).And(k).And(m).And(n), e, code, path) <==>
            || Says(a, e, code, path) || Says(b, e, code, path) || Says(c, e, code, path) || Says(d, e, code, path) || Says(f, e, code, path)
            || Says(g, e, code, path) || Says(h, e, code, path) || Says(k, e, code, path) || Says(m, e, code, path) || Says(n, e, code, path)
  {
    hide *;
    var r := QUIET.And(a).And(b).And(c).And(d).And(f).And(g).And(h).And(k);
    EightParts(a, b, c, d, f, g, h, k, e, code, path);
    MorePart(r, m, e, code, path);
    MorePart(r.And(m), n, e, code, path);
  }

  lemma EntryParts(env: Env, e: CatalogEntry, limit: nat, error: bool, code: Code, path: string)
    ensures Says(EntryReport(env, e, limit), error, code, path) <==>
            || Says(When(e.identifier == "", At(".identifier", Fault(EntryMember))), error, code, path)
            || Says(When(e.entryType == "", At(".type", Fault(EntryMember))), error, code, path)
            || Says(When(!HasOneSource(e), At("", Fault(EntryArtifact))), error, code, path)
            || Says(At(".updatedAt", TimestampReport(env, Text(e.updatedAt))), error, code, path)
            || Says(At(".extensions", ExtensionKeysReport(e.extensions)), error, code, path)
            || Says(At(".extensions", When(AreBadPolicyUrls(e.extensions), Fault(PolicyUrls))), error, code, path)
            || Says(At(".publisher", PublisherReport(e.publisher)), error, code, path)
            || Says(EntryTrustReport(env, e), error, code, path)
            || Says(NestedReport(env, e, limit), error, code, path)
            || Says(When(e.identifier != "" && ':' !in e.identifier, At(".identifier", Concern(IdentifierNotUri))), error, code, path)
  {
    TenParts(When(e.identifier == "", At(".identifier", Fault(EntryMember))), When(e.entryType == "", At(".type", Fault(EntryMember))),
             When(!HasOneSource(e), At("", Fault(EntryArtifact))), At(".updatedAt", TimestampReport(env, Text(e.updatedAt))),
             At(".extensions", ExtensionKeysReport(e.extensions)), At(".extensions", When(AreBadPolicyUrls(e.extensions), Fault(PolicyUrls))),
             At(".publisher", PublisherReport(e.publisher)), EntryTrustReport(env, e), NestedReport(env, e, limit),
             When(e.identifier != "" && ':' !in e.identifier, At(".identifier", Concern(IdentifierNotUri))), error, code, path);
    hide Says, Report.And, At, When, Fault, Concern, HasOneSource, TimestampReport, ExtensionKeysReport, AreBadPolicyUrls, PublisherReport,
         EntryTrustReport, NestedReport;
  }

  lemma WhenFault(c: bool, p: string, x: Code, e: bool, code: Code, path: string)
    ensures Says(When(c, At(p, Fault(x))), e, code, path) <==> e && c && Is(code, path, x, p)
    ensures Says(When(c, At(p, Concern(x))), e, code, path) <==> !e && c && Is(code, path, x, p)
    ensures Says(At(p, When(c, Fault(x))), e, code, path) <==> e && c && Is(code, path, x, p)
  {
    SaysOne(p, x, e, code, path);
    SaysWhen(c, At(p, Fault(x)), e, code, path);
    SaysWhen(c, At(p, Concern(x)), e, code, path);
    AtPart(p, When(c, Fault(x)), e, code, path);
    AtPart(p, Fault(x), e, code, path);
    if IsBelow(path, p) {
      SaysWhen(c, Fault(x), e, code, Below(path, p));
    }
    hide *;
  }

  lemma NoColonExact(s: string)
    ensures ':' !in s <==> HasNo(s, ':')
  {
  }

  lemma OwnMembersSay(env: Env, e: CatalogEntry, error: bool, code: Code, path: string)
    ensures error && EntryFault(env, e, code, path) <==>
            || Says(When(e.identifier == "", At(".identifier", Fault(EntryMember))), error, code, path)
            || Says(When(e.entryType == "", At(".type", Fault(EntryMember))), error, code, path)
            || Says(When(!HasOneSource(e), At("", Fault(EntryArtifact))), error, code, path)
            || Says(At(".updatedAt", TimestampReport(env, Text(e.updatedAt))), error, code, path)
            || Says(At(".extensions", ExtensionKeysReport(e.extensions)), error, code, path)
            || Says(At(".extensions", When(AreBadPolicyUrls(e.extensions), Fault(PolicyUrls))), error, code, path)
            || Says(At(".publisher", PublisherReport(e.publisher)), error, code, path)
  {
    WhenFault(e.identifier == "", ".identifier", EntryMember, error, code, path);
    WhenFault(e.entryType == "", ".type", EntryMember, error, code, path);
    WhenFault(!HasOneSource(e), "", EntryArtifact, error, code, path);
    SourcedExact(e);
    AtTimestamp(env, Text(e.updatedAt), ".updatedAt", error, code, path);
    AtExtensions(e.extensions, error, code, path);
    WhenFault(AreBadPolicyUrls(e.extensions), ".extensions", PolicyUrls, error, code, path);
    PolicyUrlsExact(e.extensions);
    AtPublisher(e.publisher, error, code, path);
    hide Says, At, When, Fault, HasOneSource, IsSourced, TimestampReport, IsTimestamp, ExtensionKeysReport, AreExtensions, AreBadPolicyUrls,
         HasPolicyUrls, PublisherReport, PublisherSays, Is;
  }

  /** Every diagnostic about an entry, whatever its code and path, is reported exactly when its record causes it. */
  lemma {:induction false} EntryReportSays(env: Env, e: CatalogEntry, limit: nat, error: bool, code: Code, path: string)
    ensures Says(EntryReport(env, e, limit), error, code, path) <==> EntrySays(env, e, limit, error, code, path)
    decreases limit, 0
  {
    EntryParts(env, e, limit, error, code, path);
    OwnMembersSay(env, e, error, code, path);
    TrustReportSays(env, e, error, code, path);
    NestedReportSays(env, e, limit, error, code, path);
    WhenFault(e.identifier != "" && ':' !in e.identifier, ".identifier", IdentifierNotUri, error, code, path);
    NoColonExact(e.identifier);
    hide Says, At, When, Fault, Concern, HasOneSource, TimestampReport, ExtensionKeysReport, AreBadPolicyUrls, PublisherReport,
         EntryTrustReport, NestedReport, EntryReport, EntryFault, TrustSays, NestedSays, HasNo, Is;
  }

  lemma {:induction false} NestedReportSays(env: Env, e: CatalogEntry, limit: nat, error: bool, code: Code, path: string)
    ensures Says(NestedReport(env, e, limit), error, code, path) <==> NestedSays(env, e, limit, error, code, path)
    decreases limit, 0, 0
  {
    hide Says, At, Fault, CatalogReport, CatalogSays, IsBelow, Below, Is;
    MorePart(QUIET, QUIET, error, code, path);
    SaysOne("", NestedDepth, error, code, path);
    SaysOne(".data", NestedInvalid, error, code, path);
    if limit > 0 && e.data.Some? && env.catalogOf(e.data.value).Some? {
      var nested := env.catalogOf(e.data.value).value;
      AtPart(".data", CatalogReport(env, nested, limit - 1), error, code, path);
      if IsBelow(path, ".data") {
        CatalogReportSays(env, nested, limit - 1, error, code, Below(path, ".data"));
      }
    }
  }

  lemma AnyEntryStep(env: Env, entries: seq<CatalogEntry>, limit: nat, error: bool, code: Code, path: string)
    requires entries != []
    ensures var last := |entries| - 1;
            AnyEntrySays(env, entries, limit, error, code, path) <==>
            || AnyEntrySays(env, entries[..last], limit, error, code, path)
            || (IsBelow(path, Item(".entries", last)) && EntrySays(env, entries[last], limit, error, code, Below(path, Item(".entries", last))))
  {
    hide EntrySays, Item, IsBelow, Below;
    var last := |entries| - 1;
    var init := entries[..last];
    forall i | 0 <= i < last
      ensures EntrySaysAt(env, init, i, limit, error, code, path) <==> EntrySaysAt(env, entries, i, limit, error, code, path)
    {
      assert init[i] == entries[i];
    }
    assert EntrySaysAt(env, entries, last, limit, error, code, path) <==>
           IsBelow(path, Item(".entries", last)) && EntrySays(env, entries[last], limit, error, code, Below(path, Item(".entries", last)));
    hide EntrySaysAt;
  }

  lemma {:induction false} EntriesReportSays(env: Env, entries: seq<CatalogEntry>, limit: nat, error: bool, code: Code, path: string)
    ensures Says(EntriesReport(env, entries, limit), error, code, path) <==> AnyEntrySays(env, entries, limit, error, code, path)
    decreases limit, 1, |entries|
  {
    if entries == [] {
      MorePart(QUIET, QUIET, error, code, path);
      hide Says;
    } else {
      var last := |entries| - 1;
      var init, p, part := entries[..last], Item(".entries", last), EntryReport(env, entries[last], limit);
      assert EntriesReport(env, entries, limit) == EntriesReport(env, init, limit).And(At(p, part)) by { hide Says; }
      hide *;
      EntriesReportSays(env, init, limit, error, code, path);
      MorePart(EntriesReport(env, init, limit), At(p, part), error, code, path);
      AtPart(p, part, error, code, path);
      if IsBelow(path, p) {
        EntryReportSays(env, entries[last], limit, error, code, Below(path, p));
      }
      AnyEntryStep(env, entries, limit, error, code, path);
    }
  }

  lemma ConflictReportSays(entries: seq<CatalogEntry>, i: nat, error: bool, code: Code, path: string)
    requires i < |entries|
    ensures Says(DuplicateReport(entries, i), error, code, path) <==> error && ConflictSays(entries, i, code, path)
  {
    var p := Item(".entries", i);
    hide Item, Says, At, When, Fault, Report.And, Is;
    if IsUnversioned(entries[i]) {
      WhenFault(HasEarlier(entries, i), p, EntryDuplicate, error, code, path);
    } else {
      WhenFault(HasEarlierUnversioned(entries, i), p + ".identifier", EntryVersion, error, code, path);
      WhenFault(HasEarlierVersion(entries, i), p, EntryDuplicate, error, code, path);
      MorePart(When(HasEarlierUnversioned(entries, i), At(p + ".identifier", Fault(EntryVersion))),
               When(HasEarlierVersion(entries, i), At(p, Fault(EntryDuplicate))), error, code, path);
    }
  }

  lemma {:induction false} ConflictsSay(entries: seq<CatalogEntry>, n: nat, error: bool, code: Code, path: string)
    requires n <= |entries|
    ensures Says(UniquenessUpTo(entries, n), error, code, path) <==> error && AnyConflictSays(entries, n, code, path)
  {
    hide Says, Report.And, DuplicateReport, ConflictSays;
    MorePart(QUIET, QUIET, error, code, path);
    if n > 0 {
      ConflictsSay(entries, n - 1, error, code, path);
      ConflictReportSays(entries, n - 1, error, code, path);
      MorePart(UniquenessUpTo(entries, n - 1), DuplicateReport(entries, n - 1), error, code, path);
    }
  }

  lemma SixParts(a: Report, b: Report, c: Report, d: Report, f: Report, g: Report, e: bool, code: Code, path: string)
    ensures Says(QUIET.And(a).And(b).And(c).And(d).And(f).And(g), e, code, path) <==>
            || Says(a, e, code, path) || Says(b, e, code, path) || Says(c, e, code, path)
            || Says(d, e, code, path) || Says(f, e, code, path) || Says(g, e, code, path)
  {
    hide *;
    var r := QUIET.And(a).And(b).And(c);
    MorePart(QUIET, a, e, code, path);
    MorePart(QUIET.And(a), b, e, code, path);
    MorePart(QUIET.And(a).And(b), c, e, code, path);
    MorePart(r, d, e, code, path);
    MorePart(r.And(d), f, e, code, path);
    MorePart(r.And(d).And(f), g, e, code, path);
  }

  lemma CatalogParts(env: Env, c: AiCatalog, limit: nat, error: bool, code: Code, path: string)
    ensures Says(CatalogReport(env, c, limit), error, code, path) <==>
            || Says(At(".specVersion", When(!IsSpecVersion(c.specVersion), Fault(SpecVersion))), error, code, path)
            || Says(At(".host", HostReport(c.host)), error, code, path)
            || Says(if c.signature.Some? then At(".signature", SignatureReport(env, c.signature.value, OfCatalog)) else QUIET, error, code, path)
            || Says(At(".extensions", ExtensionKeysReport(c.extensions)), error, code, path)
            || Says(UniquenessReport(c.entries), error, code, path)
            || Says(EntriesReport(env, c.entries, limit), error, code, path)
  {
    var signature := if c.signature.Some? then At(".signature", SignatureReport(env, c.signature.value, OfCatalog)) else QUIET;
    SixParts(At(".specVersion", When(!IsSpecVersion(c.specVersion), Fault(SpecVersion))), At(".host", HostReport(c.host)), signature,
             At(".extensions", ExtensionKeysReport(c.extensions)), UniquenessReport(c.entries), EntriesReport(env, c.entries, limit),
             error, code, path);
    hide Says, Report.And, At, When, Fault, IsSpecVersion, HostReport, SignatureReport, ExtensionKeysReport, UniquenessReport, EntriesReport;
  }

  lemma AtHost(host: Option<HostInfo>, error: bool, code: Code, path: string)
    ensures Says(At(".host", HostReport(host)), error, code, path) <==>
            error && Is(code, path, HostMember, ".host.displayName") && host.Some? && host.value.displayName == ""
  {
    AtPart(".host", HostReport(host), error, code, path);
    assert ".host" + ".displayName" == ".host.displayName";
    IsJoined(code, path, HostMember, ".host", ".displayName", ".host.displayName");
    if IsBelow(path, ".host") {
      WhenFault(host.Some? && host.value.displayName == "", ".displayName", HostMember, error, code, Below(path, ".host"));
    }
    hide Says, At, When, Fault, IsBelow, Below, Is;
  }

  lemma AtCatalogSignature(env: Env, c: AiCatalog, error: bool, code: Code, path: string)
    ensures Says(if c.signature.Some? then At(".signature", SignatureReport(env, c.signature.value, OfCatalog)) else QUIET, error, code, path) <==>
            error && c.signature.Some? && IsBelow(path, ".signature")
            && SignatureSays(env, c.signature.value, OfCatalog, code, Below(path, ".signature"))
  {
    hide Says, At, SignatureReport, SignatureSays, IsBelow, Below;
    MorePart(QUIET, QUIET, error, code, path);
    if c.signature.Some? {
      AtPart(".signature", SignatureReport(env, c.signature.value, OfCatalog), error, code, path);
      if IsBelow(path, ".signature") {
        SignatureReportSays(env, c.signature.value, OfCatalog, error, code, Below(path, ".signature"));
      }
    }
  }

  /** Every diagnostic about a catalog, whatever its code and path and however deep, is reported exactly when a record
      causes it. */
  lemma {:induction false} CatalogReportSays(env: Env, c: AiCatalog, limit: nat, error: bool, code: Code, path: string)
    ensures Says(CatalogReport(env, c, limit), error, code, path) <==> CatalogSays(env, c, limit, error, code, path)
    decreases limit, 2
  {
    CatalogParts(env, c, limit, error, code, path);
    WhenFault(!IsSpecVersion(c.specVersion), ".specVersion", SpecVersion, error, code, path);
    AtHost(c.host, error, code, path);
    AtCatalogSignature(env, c, error, code, path);
    AtExtensions(c.extensions, error, code, path);
    ConflictsSay(c.entries, |c.entries|, error, code, path);
    EntriesReportSays(env, c.entries, limit, error, code, path);
    assert UniquenessReport(c.entries) == UniquenessUpTo(c.entries, |c.entries|);
    hide *;
    CatalogFaults(env, c, code, path);
    CatalogSaysParts(env, c, limit, error, code, path);
  }

  lemma CatalogFaults(env: Env, c: AiCatalog, code: Code, path: string)
    ensures CatalogFault(env, c, code, path) <==>
            || (Is(code, path, SpecVersion, ".specVersion") && !IsSpecVersion(c.specVersion))
            || (Is(code, path, HostMember, ".host.displayName") && c.host.Some? && c.host.value.displayName == "")
            || (c.signature.Some? && IsBelow(path, ".signature") && SignatureSays(env, c.signature.value, OfCatalog, code, Below(path, ".signature")))
            || (Is(code, path, ExtensionKey, ".extensions") && !AreExtensions(c.extensions))
            || AnyConflictSays(c.entries, |c.entries|, code, path)
  {
    hide Is, IsSpecVersion, IsBelow, Below, SignatureSays, AreExtensions, AnyConflictSays;
  }

  lemma CatalogSaysParts(env: Env, c: AiCatalog, limit: nat, error: bool, code: Code, path: string)
    ensures CatalogSays(env, c, limit, error, code, path) <==>
            (error && CatalogFault(env, c, code, path)) || AnyEntrySays(env, c.entries, limit, error, code, path)
  {
    hide CatalogFault, AnyEntrySays;
  }

  /** The same for the result of validation, whose paths start at `catalog`. */
  lemma {:induction false} ResultSays(env: Env, c: AiCatalog, maxDepth: nat, error: bool, code: Code, path: string)
    ensures Says(ResultOf(env, c, maxDepth).report, error, code, path) <==>
            IsBelow(path, "catalog") && CatalogSays(env, c, maxDepth, error, code, Below(path, "catalog"))
  {
    AtPart("catalog", CatalogReport(env, c, maxDepth), error, code, path);
    if IsBelow(path, "catalog") {
      CatalogReportSays(env, c, maxDepth, error, code, Below(path, "catalog"));
    }
    hide Says, At, CatalogReport, CatalogSays, IsBelow, Below;
  }
}
