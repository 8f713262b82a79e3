// The ai-catalog-trust crate: digests, signing payloads and detached JWS signatures.
// Hashing, base64url, UTF-8, JSON text, RFC 8785 and the P-256 curve are parameters.

module Trust {
  import opened Basics
  import opened JsonValue
  import opened Catalog

  /** The primitives the crate takes from its dependencies. */
  datatype Crypto = Crypto(
    sha256: Bytes -> Bytes,
    sha384: Bytes -> Bytes,
    sha512: Bytes -> Bytes,
    base64: string -> Option<Bytes>,
    toBase64: Bytes -> string,
    isUtf8: Bytes -> bool,
    parseJson: Bytes -> Option<Json>,
    canonical: Json -> Option<Bytes>,
    isCurvePoint: Bytes -> bool,
    isSignature: Bytes -> bool,
    signs: (P256Key, string, Bytes) -> bool)

  datatype P256Key = P256Key(point: Bytes)

  /** The serde mapping between manifests and JSON values. */
  datatype ManifestCodec = ManifestCodec(
    toJson: ManifestFields -> Json,
    fromJson: Json -> Option<ManifestFields>)

  // ---------------------------------------------------------------- digests

  function HexDigit(n: nat): char
    requires n < 16
  {
    if n < 10 then ('0' as int + n) as char else ('a' as int + n - 10) as char
  }

  function Hex(bytes: Bytes): (hex: string)
    ensures |hex| == 2 * |bytes|
  {
    if bytes == [] then ""
    else [HexDigit(bytes[0] as int / 16), HexDigit(bytes[0] as int % 16)] + Hex(bytes[1..])
  }

  method DigestHex(bytes: Bytes) returns (hex: string)
    ensures hex == Hex(bytes)
  {
    hex := "";
    Append("", Hex(bytes));
    for i := 0 to |bytes|
      invariant hex + Hex(bytes[i..]) == Hex(bytes)
    {
      var pair := [HexDigit(bytes[i] as int / 16), HexDigit(bytes[i] as int % 16)];
      assert bytes[i..][1..] == bytes[i + 1..];
      Associate(hex, pair, Hex(bytes[i + 1..]));
      hex := hex + pair;
    }
    Append(hex, Hex(bytes[|bytes|..]));
  }

  lemma {:induction false} HexInjective(a: Bytes, b: Bytes)
    requires Hex(a) == Hex(b)
    ensures a == b
  {
    if a != [] && b != [] {
      assert Hex(a)[0] == Hex(b)[0] && Hex(a)[1] == Hex(b)[1];
      assert Hex(a)[2..] == Hex(a[1..]) && Hex(b)[2..] == Hex(b[1..]);
      HexInjective(a[1..], b[1..]);
      assert a == [a[0]] + a[1..] && b == [b[0]] + b[1..];
    }
  }

  predicate IsHexDigit(c: char) { IsDigit(c) || 'a' <= c <= 'f' || 'A' <= c <= 'F' }

  datatype DigestError = InvalidFormat | UnsupportedAlgorithm | WeakAlgorithm | InvalidHex

  datatype ParsedDigest = ParsedDigest(algorithm: string, hexValue: string)

  function HexLength(algorithm: string): (n: nat) {
    if algorithm == "sha256" then 64
    else if algorithm == "sha384" then 96
    else if algorithm == "sha512" then 128
    else 0
  }

  function ParseDigest(value: string): Result<ParsedDigest, DigestError> {
    var colon := Until(value, IsColon);
    if colon == |value| then Err(InvalidFormat)
    else
      var hex := value[colon + 1..];
      if colon == 0 || hex == "" || Until(hex, IsColon) < |hex| then Err(InvalidFormat)
      else
        var algorithm := Lower(value[..colon]);
        if algorithm in {"md5", "sha1", "sha224"} then Err(WeakAlgorithm)
        else if HexLength(algorithm) == 0 then Err(UnsupportedAlgorithm)
        else if |hex| != HexLength(algorithm) || exists i :: 0 <= i < |hex| && !IsHexDigit(hex[i]) then Err(InvalidHex)
        else Ok(ParsedDigest(algorithm, Lower(hex)))
  }

  predicate IsLowerHex(s: string) { forall i :: 0 <= i < |s| ==> IsDigit(s[i]) || 'a' <= s[i] <= 'f' }

  /** A digest as it is written: an algorithm, a colon and as many hex digits as its hash has, in any letter case. */
  predicate IsDigestText(value: string) {
    var s := Lower(value);
    || (HasPrefix(s, "sha256:") && |s| == 7 + 64 && IsLowerHex(s[7..]))
    || (HasPrefix(s, "sha384:") && |s| == 7 + 96 && IsLowerHex(s[7..]))
    || (HasPrefix(s, "sha512:") && |s| == 7 + 128 && IsLowerHex(s[7..]))
  }

  /** Exactly these strings are digests; their algorithm and value are read in lower case. */
  lemma ParseDigestExact(value: string)
    ensures ParseDigest(value).Ok? <==> IsDigestText(value)
    ensures ParseDigest(value).Ok? ==> ParseDigest(value).value == ParsedDigest(Lower(value)[..6], Lower(value)[7..])
  {
    if ParseDigest(value).Ok? {
      ParsedIsText(value);
    }
    if IsDigestText(value) {
      var s := Lower(value);
      TextParts(s, s[..6]);
      TextIsParsed(value, s[..6], s[7..]);
    }
  }

  /** Two non-empty parts on either side of the only colon. */
  predicate IsPair(value: string, algorithm: string, hex: string) {
    algorithm != "" && HasNo(algorithm, ':') && hex != "" && HasNo(hex, ':') && value == algorithm + (":" + hex)
  }

  /** Which error a string that is no digest causes: by its form, then by its algorithm, then by its hex part. */
  lemma DigestErrorExact(value: string)
    ensures ParseDigest(value) == Err(InvalidFormat) <==> !exists algorithm, hex :: IsPair(value, algorithm, hex)
    ensures forall algorithm, hex :: IsPair(value, algorithm, hex) ==>
              && (ParseDigest(value) == Err(WeakAlgorithm) <==> Lower(algorithm) in ["md5", "sha1", "sha224"])
              && (ParseDigest(value) == Err(UnsupportedAlgorithm) <==>
                  Lower(algorithm) !in ["md5", "sha1", "sha224", "sha256", "sha384", "sha512"])
  {
    if Until(value, IsColon) < |value| {
      PairParts(value);
    }
    forall algorithm, hex | IsPair(value, algorithm, hex)
      ensures ParseDigest(value) != Err(InvalidFormat)
      ensures ParseDigest(value) == Err(WeakAlgorithm) <==> Lower(algorithm) in ["md5", "sha1", "sha224"]
      ensures ParseDigest(value) == Err(UnsupportedAlgorithm) <==>
              Lower(algorithm) !in ["md5", "sha1", "sha224", "sha256", "sha384", "sha512"]
    {
      PairError(value, algorithm, hex);
    }
    hide Until, Lower, IsHexDigit, HexLength, IsPair;
  }

  lemma PairError(value: string, algorithm: string, hex: string)
    requires IsPair(value, algorithm, hex)
    ensures ParseDigest(value) != Err(InvalidFormat)
    ensures ParseDigest(value) == Err(WeakAlgorithm) <==> Lower(algorithm) in ["md5", "sha1", "sha224"]
    ensures ParseDigest(value) == Err(UnsupportedAlgorithm) <==>
            Lower(algorithm) !in ["md5", "sha1", "sha224", "sha256", "sha384", "sha512"]
  {
    UntilHit(value, |algorithm|, IsColon);
    UntilHit(hex, |hex|, IsColon);
    assert value[..|algorithm|] == algorithm && value[|algorithm| + 1..] == hex;
    hide Until, Lower, IsHexDigit;
  }

  lemma PairParts(value: string)
    requires Until(value, IsColon) < |value|
    ensures var colon := Until(value, IsColon);
            var hex := value[colon + 1..];
            colon > 0 && hex != "" && Until(hex, IsColon) == |hex| ==> IsPair(value, value[..colon], hex)
  {
    var colon := Until(value, IsColon);
    UntilMissed(value, IsColon);
    UntilMissed(value[colon + 1..], IsColon);
    assert value == value[..colon] + (":" + value[colon + 1..]);
    hide Until;
  }

  lemma TextParts(s: string, algorithm: string)
    requires |s| > 7 && (HasPrefix(s, "sha256:") || HasPrefix(s, "sha384:") || HasPrefix(s, "sha512:")) && algorithm == s[..6]
    ensures s == algorithm + ":" + s[7..]
    ensures algorithm in ["sha256", "sha384", "sha512"] && HasPrefix(s, algorithm + ":")
  {
    assert s[..7][..6] == s[..6] && s[..7][6] == s[6];
    assert "sha256:"[..6] == "sha256" && "sha384:"[..6] == "sha384" && "sha512:"[..6] == "sha512";
    assert s[..7] == s[..6] + ":";
  }

  lemma ParsedIsText(value: string)
    requires ParseDigest(value).Ok?
    ensures IsDigestText(value)
    ensures ParseDigest(value).value == ParsedDigest(Lower(value)[..6], Lower(value)[7..])
  {
    hide Until, Lower;
    var colon := Until(value, IsColon);
    var algorithm, hex := Lower(value[..colon]), Lower(value[colon + 1..]);
    LowerSplit(value, colon);
    assert algorithm in ["sha256", "sha384", "sha512"] && |hex| == HexLength(algorithm);
    LowerHexDigits(value[colon + 1..]);
    hide IsHexDigit;
    assert Lower(value) == algorithm + ":" + hex;
    assert (algorithm + ":" + hex)[7..] == hex && (algorithm + ":" + hex)[..6] == algorithm;
    assert (algorithm + ":" + hex)[..7] == algorithm + ":";
    hide IsLowerHex;
  }

  lemma LowerHexDigits(s: string)
    ensures (forall i :: 0 <= i < |s| ==> IsHexDigit(s[i])) <==> IsLowerHex(Lower(s))
  {
    forall i | 0 <= i < |s| ensures IsHexDigit(s[i]) <==> IsDigit(Lower(s)[i]) || 'a' <= Lower(s)[i] <= 'f' {
      assert Lower(s)[i] == LowerChar(s[i]);
    }
  }

  lemma TextIsParsed(s: string, algorithm: string, hex: string)
    requires algorithm in ["sha256", "sha384", "sha512"] && |hex| == HexLength(algorithm) && IsLowerHex(hex)
    requires Lower(s) == algorithm + ":" + hex
    ensures ParseDigest(s) == Ok(ParsedDigest(algorithm, hex))
  {
    LowerPieces(s, algorithm, hex);
    HexLettersOnly(s[7..], hex);
    PlainName(s[..6], algorithm);
    UntilHit(s, 6, IsColon);
    UntilHit(s[7..], |s| - 7, IsColon);
    AcceptedName(algorithm);
    hide *;
    ParseParts(s);
  }

  function Hash(c: Crypto, algorithm: string, bytes: Bytes): Bytes {
    if algorithm == "sha256" then c.sha256(bytes)
    else if algorithm == "sha384" then c.sha384(bytes)
    else c.sha512(bytes)
  }

  function VerifyDigest(c: Crypto, expected: string, bytes: Bytes): Result<bool, DigestError> {
    match ParseDigest(expected)
    case Err(e) => Err(e)
    case Ok(d) => Ok(d.hexValue == Hex(Hash(c, d.algorithm, bytes)))
  }

  /** The hash functions have the lengths their names promise. */
  ghost predicate HashLengths(c: Crypto, bytes: Bytes) {
    |c.sha256(bytes)| == 32 && |c.sha384(bytes)| == 48 && |c.sha512(bytes)| == 64
  }

  predicate IsCanonicalDigest(c: Crypto, digest: string, bytes: Bytes) {
    || digest == "sha256:" + Hex(c.sha256(bytes))
    || digest == "sha384:" + Hex(c.sha384(bytes))
    || digest == "sha512:" + Hex(c.sha512(bytes))
  }

  /** A digest string is accepted for some bytes exactly when it is, up to letter case, one
      of their three digests in the form `algorithm:hex`. */
  lemma DigestExact(c: Crypto, expected: string, bytes: Bytes)
    requires HashLengths(c, bytes)
    ensures VerifyDigest(c, expected, bytes) == Ok(true) <==> IsCanonicalDigest(c, Lower(expected), bytes)
  {
    if VerifyDigest(c, expected, bytes) == Ok(true) {
      AcceptedIsCanonical(c, expected, bytes);
    }
    if Lower(expected) == "sha256:" + Hex(c.sha256(bytes)) {
      AcceptDigest(expected, "sha256", c.sha256(bytes));
    } else if Lower(expected) == "sha384:" + Hex(c.sha384(bytes)) {
      AcceptDigest(expected, "sha384", c.sha384(bytes));
    } else if Lower(expected) == "sha512:" + Hex(c.sha512(bytes)) {
      AcceptDigest(expected, "sha512", c.sha512(bytes));
    }
  }

  lemma AcceptedIsCanonical(c: Crypto, expected: string, bytes: Bytes)
    requires VerifyDigest(c, expected, bytes) == Ok(true)
    ensures IsCanonicalDigest(c, Lower(expected), bytes)
  {
    hide Until, Lower, Hex;
    var colon := Until(expected, IsColon);
    LowerSplit(expected, colon);
  }

  lemma LowerSplit(s: string, colon: nat)
    requires colon < |s| && s[colon] == ':'
    ensures Lower(s) == Lower(s[..colon]) + ":" + Lower(s[colon + 1..])
  {
  }

  lemma {:induction false} HexIsLowerHex(bytes: Bytes)
    ensures forall i :: 0 <= i < |Hex(bytes)| ==> IsDigit(Hex(bytes)[i]) || 'a' <= Hex(bytes)[i] <= 'f'
  {
    if bytes != [] {
      HexIsLowerHex(bytes[1..]);
    }
  }

  lemma AcceptDigest(s: string, algorithm: string, hash: Bytes)
    requires algorithm in ["sha256", "sha384", "sha512"] && 2 * |hash| == HexLength(algorithm)
    requires Lower(s) == algorithm + ":" + Hex(hash)
    ensures ParseDigest(s) == Ok(ParsedDigest(algorithm, Hex(hash)))
  {
    HexIsLowerHex(hash);
    hide Hex, Lower, HexLength, ParseDigest;
    TextIsParsed(s, algorithm, Hex(hash));
  }

  /** Parsing a digest whose first colon stands after six characters. */
  lemma ParseParts(s: string)
    requires |s| > 7 && Until(s, IsColon) == 6 && Until(s[7..], IsColon) == |s| - 7
    requires Lower(s[..6]) !in {"md5", "sha1", "sha224"} && 0 < HexLength(Lower(s[..6])) == |s| - 7
    requires forall i :: 0 <= i < |s[7..]| ==> IsHexDigit(s[7..][i])
    ensures ParseDigest(s) == Ok(ParsedDigest(Lower(s[..6]), Lower(s[7..])))
  {
    hide Until, Lower, IsHexDigit, HexLength;
  }

  lemma AcceptedName(algorithm: string)
    requires algorithm in ["sha256", "sha384", "sha512"]
    ensures algorithm !in {"md5", "sha1", "sha224"} && HexLength(algorithm) > 0
  {
    assert "sha224"[3] == '2' && "sha224"[4] == '2';
    assert algorithm[4] != '2';
  }

  lemma LowerPieces(s: string, algorithm: string, hex: string)
    requires |algorithm| == 6 && Lower(s) == algorithm + ":" + hex
    ensures |s| == 7 + |hex| && s[6] == ':' && Lower(s[..6]) == algorithm && Lower(s[7..]) == hex
  {
    assert LowerChar(s[6]) == Lower(s)[6] == ':';
    forall j | 0 <= j < 6 ensures Lower(s[..6])[j] == algorithm[j] {
      assert Lower(s)[j] == algorithm[j];
    }
    forall j | 0 <= j < |hex| ensures Lower(s[7..])[j] == hex[j] {
      assert Lower(s)[7 + j] == hex[j];
    }
  }

  lemma PlainName(name: string, algorithm: string)
    requires algorithm in ["sha256", "sha384", "sha512"] && Lower(name) == algorithm
    ensures forall j :: 0 <= j < |name| ==> name[j] != ':'
  {
    assert forall j :: 0 <= j < |algorithm| ==> algorithm[j] != ':';
    assert forall j :: 0 <= j < |name| ==> LowerChar(name[j]) == algorithm[j];
  }

  lemma HexLettersOnly(s: string, hex: string)
    requires Lower(s) == hex && forall i :: 0 <= i < |hex| ==> IsDigit(hex[i]) || 'a' <= hex[i] <= 'f'
    ensures forall i :: 0 <= i < |s| ==> IsHexDigit(s[i]) && s[i] != ':'
  {
    assert forall i :: 0 <= i < |s| ==> LowerChar(s[i]) == hex[i];
  }

  // ---------------------------------------------------------------- JSON documents

  /** Collects the members of an object, rejecting duplicate names. */
  method ReadObject(entries: seq<(string, Json)>) returns (result: Option<map<string, Json>>)
    ensures result.None? <==> exists i, j :: 0 <= i < j < |entries| && entries[i].0 == entries[j].0
    ensures result.Some? ==> forall i :: 0 <= i < |entries| ==>
              entries[i].0 in result.value && result.value[entries[i].0] == entries[i].1
    ensures result.Some? ==> forall k :: k in result.value ==> exists i :: 0 <= i < |entries| && entries[i].0 == k
  {
    var members := map[];
    for i := 0 to |entries|
      invariant forall k :: k in members ==> exists j :: 0 <= j < i && entries[j].0 == k
      invariant forall j :: 0 <= j < i ==> entries[j].0 in members && members[entries[j].0] == entries[j].1
      invariant forall j, k :: 0 <= j < k < i ==> entries[j].0 != entries[k].0
    {
      var (name, value) := entries[i];
      if name in members {
        return None;
      }
      members := members[name := value];
    }
    return Some(members);
  }

  const SIGNATURE := "signature"
  const JWS := "jws"
  const ADDITIONAL_SIGNATURES := "additionalSignatures"

  /** Removes what a signature does not cover; nested members of those names stay in. */
  function Strip(value: Json): Json {
    if !value.Object? then value
    else
      var rest := value.members - {ADDITIONAL_SIGNATURES};
      if SIGNATURE in rest && rest[SIGNATURE].Object? then
        Object(rest[SIGNATURE := Object(rest[SIGNATURE].members - {JWS})])
      else Object(rest)
  }

  /** Two signatures that differ in nothing but their `jws`. */
  ghost predicate SameButJws(a: Option<Json>, b: Option<Json>) {
    if a.Some? && a.value.Object? && b.Some? && b.value.Object? then
      forall k :: k != JWS ==> a.value.Get(k) == b.value.Get(k)
    else a == b
  }

  /** Two documents that differ in nothing but `additionalSignatures` and `signature.jws`. */
  ghost predicate SameSigned(a: Json, b: Json) {
    if a.Object? && b.Object? then
      && (forall k :: k != ADDITIONAL_SIGNATURES && k != SIGNATURE ==> a.Get(k) == b.Get(k))
      && SameButJws(a.Get(SIGNATURE), b.Get(SIGNATURE))
    else a == b
  }

  lemma StripMembers(a: Json, k: string)
    requires a.Object?
    ensures Strip(a).Object? && Strip(a).Get(ADDITIONAL_SIGNATURES) == None
    ensures k != ADDITIONAL_SIGNATURES && k != SIGNATURE ==> Strip(a).Get(k) == a.Get(k)
    ensures Strip(a).Get(SIGNATURE) ==
            match a.Get(SIGNATURE) {
              case Some(Object(members)) => Some(Object(members - {JWS}))
              case other => other
            }
  {
    assert SIGNATURE != ADDITIONAL_SIGNATURES by { assert |SIGNATURE| != |ADDITIONAL_SIGNATURES|; }
  }

  /** The signed payload covers everything else: the exact meaning of `Strip`. */
  lemma StripExact(a: Json, b: Json)
    ensures Strip(a) == Strip(b) <==> SameSigned(a, b)
  {
    if a.Object? && b.Object? {
      forall k
        ensures k != ADDITIONAL_SIGNATURES && k != SIGNATURE ==>
                  Strip(a).Get(k) == a.Get(k) && Strip(b).Get(k) == b.Get(k)
      {
        StripMembers(a, k);
        StripMembers(b, k);
      }
      StripMembers(a, JWS);
      StripMembers(b, JWS);
      var x, y := a.Get(SIGNATURE), b.Get(SIGNATURE);
      SignatureExact(x, y);
      hide Strip, SameButJws;
      if Strip(a) != Strip(b) {
        var k := DifferentMember(Strip(a).members, Strip(b).members);
        assert Strip(a).Get(k) != Strip(b).Get(k);
      }
    }
  }

  lemma SignatureExact(a: Option<Json>, b: Option<Json>)
    ensures a.Some? && b.Some? && a.value.Object? && b.value.Object? ==>
              (a.value.members - {JWS} == b.value.members - {JWS} <==> SameButJws(a, b))
  {
    if a.Some? && b.Some? && a.value.Object? && b.value.Object? {
      var m, n := a.value.members - {JWS}, b.value.members - {JWS};
      if m != n {
        var k := DifferentMember(m, n);
        assert k != JWS && a.value.Get(k) != b.value.Get(k);
      } else {
        forall k | k != JWS ensures a.value.Get(k) == b.value.Get(k) {
          assert k in m <==> k in a.value.members;
          assert k in n <==> k in b.value.members;
        }
      }
    }
  }

  lemma DifferentMember(m: map<string, Json>, n: map<string, Json>) returns (k: string)
    requires m != n
    ensures (k in m) != (k in n) || (k in m && k in n && m[k] != n[k])
  {
    if forall k :: k in m <==> k in n {
      assert m.Keys == n.Keys;
      k :| k in m && m[k] != n[k];
    } else {
      k :| (k in m) != (k in n);
    }
  }

  lemma StripIdempotent(a: Json)
    ensures Strip(Strip(a)) == Strip(a)
  {
    StripExact(Strip(a), a);
    if a.Object? {
      forall k | k != ADDITIONAL_SIGNATURES && k != SIGNATURE ensures Strip(a).Get(k) == a.Get(k) {
        StripMembers(a, k);
      }
      StripMembers(a, JWS);
    }
  }

  /** Signing adds a `jws` to an existing signature object, and leaves the payload as it was. */
  function AttachJws(document: Json, jws: string): Json
    requires document.Get(SIGNATURE).Some? && document.Get(SIGNATURE).value.Object?
  {
    var signature := document.members[SIGNATURE];
    Object(document.members[SIGNATURE := Object(signature.members[JWS := String(jws)])])
  }

  lemma SigningKeepsPayload(document: Json, jws: string)
    requires document.Get(SIGNATURE).Some? && document.Get(SIGNATURE).value.Object?
    ensures Strip(AttachJws(document, jws)) == Strip(document)
  {
    StripExact(AttachJws(document, jws), document);
  }

  function Payload(c: Crypto, value: Json): Option<Bytes> {
    c.canonical(Strip(value))
  }

  /** When canonical text determines the value, payloads agree exactly on documents that
      differ in nothing but their signatures. */
  lemma PayloadExact(c: Crypto, a: Json, b: Json)
    requires c.canonical(Strip(a)).Some? && (c.canonical(Strip(a)) == c.canonical(Strip(b)) ==> Strip(a) == Strip(b))
    ensures Payload(c, a) == Payload(c, b) <==> SameSigned(a, b)
  {
    StripExact(a, b);
  }

  // ---------------------------------------------------------------- the decode memo

  function Decode(codec: ManifestCodec, json: Json): Option<TrustManifest> {
    match codec.fromJson(json)
    case Some(fields) => Some(TrustManifest(fields, Some(json)))
    case None => None
  }

  /** The JSON the manifest was decoded from, unless it was built in code or changed since. */
  function DecodedJson(codec: ManifestCodec, m: TrustManifest): Option<Json> {
    if m.decoded.Some? && codec.fromJson(m.decoded.value) == Some(m.fields) then m.decoded else None
  }

  function SigningJson(codec: ManifestCodec, m: TrustManifest): Json {
    match DecodedJson(codec, m)
    case Some(json) => json
    case None => codec.toJson(m.fields)
  }

  function SignedPayload(c: Crypto, codec: ManifestCodec, m: TrustManifest): Option<Bytes> {
    Payload(c, SigningJson(codec, m))
  }

  /** A manifest after a sequence of assignments to its public fields; the memo stays. */
  function Edited(m: TrustManifest, edits: seq<ManifestFields>): TrustManifest
    decreases edits
  {
    if edits == [] then m else Edited(m.(fields := edits[0]), edits[1..])
  }

  lemma {:induction false} EditsKeepMemo(m: TrustManifest, edits: seq<ManifestFields>)
    ensures Edited(m, edits).decoded == m.decoded
    ensures Edited(m, edits).fields == if edits == [] then m.fields else edits[|edits| - 1]
    decreases edits
  {
    if edits != [] {
      EditsKeepMemo(m.(fields := edits[0]), edits[1..]);
    }
  }

  /** After any edits the signing payload stands for the current fields, and once the fields
      are again the published ones it is the published JSON, unmodelled members included. */
  lemma MemoHonest(codec: ManifestCodec, json: Json, edits: seq<ManifestFields>)
    requires Decode(codec, json).Some?
    requires forall i :: 0 <= i < |edits| ==> codec.fromJson(codec.toJson(edits[i])) == Some(edits[i])
    ensures var published := Decode(codec, json).value;
            var current := Edited(published, edits);
            && codec.fromJson(SigningJson(codec, current)) == Some(current.fields)
            && (current.fields == published.fields ==> SigningJson(codec, current) == json)
            && (current.fields != published.fields ==> SigningJson(codec, current) == codec.toJson(current.fields))
  {
    EditsKeepMemo(Decode(codec, json).value, edits);
  }

  // ---------------------------------------------------------------- detached JWS

  const ALGORITHM := "ES256"
  const COORDINATE_LENGTH := 32

  datatype TrustError = JwkError | JwsError | SignatureMismatch

  /** One coordinate of a key: base64url of exactly 32 bytes. */
  function Coordinate(c: Crypto, jwk: Json, name: string): Option<Bytes> {
    match AsText(jwk.Get(name))
    case None => None
    case Some(text) =>
      match c.base64(text)
      case Some(bytes) => if |bytes| == COORDINATE_LENGTH then Some(bytes) else None
      case None => None
  }

  predicate PermitsVerify(operations: Json) {
    operations.Array? && String("verify") in operations.items
  }

  /** The members of a JWK besides its coordinates are acceptable. */
  predicate IsVerificationJwk(jwk: Json) {
    && jwk.Object?
    && AsText(jwk.Get("kty")) == Some("EC")
    && AsText(jwk.Get("crv")) == Some("P-256")
    && jwk.Get("d") == None
    && (jwk.Get("alg").Some? ==> jwk.Get("alg").value == String(ALGORITHM))
    && (jwk.Get("use").Some? ==> jwk.Get("use").value == String("sig"))
    && (jwk.Get("key_ops").Some? ==> PermitsVerify(jwk.Get("key_ops").value))
  }

  /** Reads a P-256 public key from a JWK. */
  function KeyFromJwk(c: Crypto, jwk: Json): Result<P256Key, TrustError> {
    if !IsVerificationJwk(jwk) then Err(JwkError)
    else
      match (Coordinate(c, jwk, "x"), Coordinate(c, jwk, "y"))
      case (Some(x), Some(y)) =>
        var point := [4] + x + y;
        if c.isCurvePoint(point) then Ok(P256Key(point)) else Err(JwkError)
      case _ => Err(JwkError)
  }

  method FromJwk(c: Crypto, jwk: Json) returns (key: Result<P256Key, TrustError>)
    ensures key == KeyFromJwk(c, jwk)
  {
    if !IsVerificationJwk(jwk) {
      return Err(JwkError);
    }
    var names := ["x", "y"];
    var point: Bytes := [4];
    for i := 0 to 2
      invariant i >= 1 ==> Coordinate(c, jwk, "x").Some?
      invariant i >= 2 ==> Coordinate(c, jwk, "y").Some?
      invariant point == if i == 0 then [4]
                         else if i == 1 then [4] + Coordinate(c, jwk, "x").value
                         else [4] + Coordinate(c, jwk, "x").value + Coordinate(c, jwk, "y").value
    {
      match Coordinate(c, jwk, names[i])
      case None => return Err(JwkError);
      case Some(coordinate) => point := point + coordinate;
    }
    return if c.isCurvePoint(point) then Ok(P256Key(point)) else Err(JwkError);
  }

  function ProtectedMembers(c: Crypto, encoded: string): Option<map<string, Json>> {
    match c.base64(encoded)
    case None => None
    case Some(bytes) =>
      match c.parseJson(bytes)
      case Some(Object(members)) => Some(members)
      case _ => None
  }

  /** The protected header declares ES256 and contains neither `b64` nor `crit`. */
  predicate HeaderAllowed(c: Crypto, encoded: string) {
    match ProtectedMembers(c, encoded)
    case None => false
    case Some(members) =>
      && AsText(Object(members).Get("alg")) == Some(ALGORITHM)
      && "b64" !in members && "crit" !in members
  }

  function VerifyEs256(c: Crypto, jws: string, payload: Bytes, key: P256Key): Result<(), TrustError> {
    var parts := Split(jws, '.');
    if |parts| != 3 || parts[1] != "" || !HeaderAllowed(c, parts[0]) then Err(JwsError)
    else
      match c.base64(parts[2])
      case None => Err(JwsError)
      case Some(signature) =>
        if !c.isSignature(signature) then Err(JwsError)
        else if c.signs(key, parts[0] + "." + c.toBase64(payload), signature) then Ok(())
        else Err(SignatureMismatch)
  }
}
