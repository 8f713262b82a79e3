// The shape of a detached JWS in compact serialization: `header..signature`
// (appendix F of RFC 7515), as the validator, the verifier and the trust crate each read it.

module DetachedJws {
  import opened Basics
  import opened JsonValue
  import opened Trust
  import opened Validation

  /** `jws` is `header..signature`, with no dot in either part. */
  predicate IsForm(jws: string, header: string, signature: string) {
    HasNo(header, '.') && HasNo(signature, '.') && jws == header + (".." + signature)
  }

  /** Splitting at dots recognizes exactly this form. */
  lemma FormExact(jws: string, header: string, signature: string)
    ensures Split(jws, '.') == [header, "", signature] <==> IsForm(jws, header, signature)
  {
    if Split(jws, '.') == [header, "", signature] {
      SplitClean(jws, '.', 0);
      SplitClean(jws, '.', 2);
      JoinOfSplit(jws, '.');
      JoinThree(header, signature);
    }
    if IsForm(jws, header, signature) {
      hide Split;
      Dots(signature);
      SplitAfter(header, '.', "." + signature);
      SplitAfter("", '.', signature);
      SplitWord(signature, '.');
    }
  }

  lemma Dots(t: string)
    ensures ".." + t == "." + ("." + t) && "" + ("." + t) == "." + t
  {
  }

  lemma JoinThree(a: string, b: string)
    ensures Join([a, "", b], ".") == a + (".." + b)
  {
    assert [a, "", b][1..] == ["", b] && ["", b][1..] == [b];
    assert Join(["", b], ".") == "." + b;
    assert a + "." + ("." + b) == a + (".." + b);
  }

  lemma ThreeParts(parts: seq<string>)
    requires |parts| == 3 && parts[1] == ""
    ensures parts == [parts[0], "", parts[2]]
  {
  }

  ghost predicate IsSomeForm(jws: string) {
    exists header, signature :: IsForm(jws, header, signature) && header != "" && signature != ""
  }

  /** The validator and the verifier ask for this form with two parts that are not empty. */
  lemma DetachedExact(jws: string)
    ensures IsDetached(jws) <==> IsSomeForm(jws)
  {
    hide Split, IsForm;
    var parts := Split(jws, '.');
    if IsDetached(jws) {
      ThreeParts(parts);
      FormExact(jws, parts[0], parts[2]);
    }
    if header, signature :| IsForm(jws, header, signature) && header != "" && signature != "" {
      FormExact(jws, header, signature);
    }
  }

  /** The encoded header is an object that declares ES256 and has neither `b64` nor `crit`. */
  ghost predicate IsAllowed(c: Crypto, encoded: string) {
    exists bytes, members: map<string, Json> ::
      && c.base64(encoded) == Some(bytes) && c.parseJson(bytes) == Some(Object(members))
      && "alg" in members && members["alg"] == String("ES256")
      && "b64" !in members && "crit" !in members
  }

  lemma AllowedExact(c: Crypto, encoded: string)
    ensures HeaderAllowed(c, encoded) <==> IsAllowed(c, encoded)
  {
    if HeaderAllowed(c, encoded) {
      var bytes := c.base64(encoded).value;
      assert c.parseJson(bytes) == Some(Object(c.parseJson(bytes).value.members));
    }
  }

  /** What a verified JWS consists of. */
  ghost predicate IsSigned(c: Crypto, jws: string, payload: Bytes, key: P256Key, header: string, signature: string) {
    && IsForm(jws, header, signature)
    && IsAllowed(c, header)
    && c.base64(signature).Some? && c.isSignature(c.base64(signature).value)
    && c.signs(key, header + "." + c.toBase64(payload), c.base64(signature).value)
  }

  /** A detached JWS is accepted exactly when it is `header..signature`, the header allows ES256 and nothing
      critical, and the signature is one of the key over the header and the payload that was taken out. */
  lemma VerifiedExact(c: Crypto, jws: string, payload: Bytes, key: P256Key)
    ensures VerifyEs256(c, jws, payload, key).Ok? <==> exists header, signature :: IsSigned(c, jws, payload, key, header, signature)
  {
    forall header ensures HeaderAllowed(c, header) <==> IsAllowed(c, header) {
      AllowedExact(c, header);
    }
    hide Split, IsForm, HeaderAllowed, IsAllowed;
    var parts := Split(jws, '.');
    if VerifyEs256(c, jws, payload, key).Ok? {
      ThreeParts(parts);
      FormExact(jws, parts[0], parts[2]);
      assert IsSigned(c, jws, payload, key, parts[0], parts[2]);
    }
    if header, signature :| IsSigned(c, jws, payload, key, header, signature) {
      FormExact(jws, header, signature);
    }
  }

  // ---------------------------------------------------------------- protected headers

  /** The member is absent and reads as empty, or is a string and reads as that. */
  predicate ReadsText(members: map<string, Json>, name: string, text: string) {
    if name in members then members[name] == String(text) else text == ""
  }

  /** The object has a non-empty `alg`, and `kid` and `typ` are strings where they are given. */
  predicate IsHeaderOf(members: map<string, Json>, header: Header) {
    && header.members == members && header.algorithm != ""
    && ReadsText(members, "alg", header.algorithm) && ReadsText(members, "kid", header.keyId) && ReadsText(members, "typ", header.typ)
  }

  /** What stands before the first dot is base64url of the UTF-8 text of such an object. */
  ghost predicate HasHeader(c: Crypto, jws: string, header: Header) {
    exists encoded, bytes ::
      && HasNo(encoded, '.') && StartsAs(jws, encoded, '.')
      && c.base64(encoded) == Some(bytes) && c.isUtf8(bytes)
      && c.parseJson(bytes) == Some(Object(header.members)) && IsHeaderOf(header.members, header)
  }

  lemma HeaderOfExact(members: map<string, Json>, header: Header)
    ensures HeaderOf(members) == Some(header) <==> IsHeaderOf(members, header)
  {
  }

  /** The protected header of a JWS, and when it can be read. */
  lemma HeaderExact(c: Crypto, jws: string, header: Header)
    ensures ParseHeader(c, jws) == Some(header) <==> HasHeader(c, jws, header)
  {
    forall encoded ensures Split(jws, '.')[0] == encoded <==> HasNo(encoded, '.') && StartsAs(jws, encoded, '.') {
      FirstPartExact(jws, '.', encoded);
    }
    HeaderOfExact(header.members, header);
    if ParseHeader(c, jws).Some? {
      HeaderKeepsMembers(c, jws);
    }
    hide Split, StartsAs, HeaderOf, IsHeaderOf;
  }

  lemma HeaderKeepsMembers(c: Crypto, jws: string)
    requires ParseHeader(c, jws).Some?
    ensures var bytes := c.base64(Split(jws, '.')[0]).value;
            c.parseJson(bytes) == Some(Object(ParseHeader(c, jws).value.members))
  {
    hide Split;
  }

  // ---------------------------------------------------------------- keys

  predicate HasText(members: map<string, Json>, name: string, text: string) {
    name in members && members[name] == String(text)
  }

  /** One coordinate of a point, as 32 bytes in base64url. */
  ghost predicate HasCoordinate(c: Crypto, members: map<string, Json>, name: string, bytes: Bytes) {
    exists text :: HasText(members, name, text) && c.base64(text) == Some(bytes) && |bytes| == 32
  }

  /** A JWK of a public P-256 key that may verify ES256: an elliptic-curve key without its private part, whose `alg`, `use`
      and `key_ops`, where they are given, allow that. */
  ghost predicate IsKey(c: Crypto, members: map<string, Json>, x: Bytes, y: Bytes) {
    && HasText(members, "kty", "EC") && HasText(members, "crv", "P-256") && "d" !in members
    && ("alg" in members ==> members["alg"] == String("ES256"))
    && ("use" in members ==> members["use"] == String("sig"))
    && ("key_ops" in members ==> members["key_ops"].Array? && String("verify") in members["key_ops"].items)
    && HasCoordinate(c, members, "x", x) && HasCoordinate(c, members, "y", y)
    && c.isCurvePoint([4] + x + y)
  }

  lemma CoordinateExact(c: Crypto, members: map<string, Json>, name: string, bytes: Bytes)
    ensures Coordinate(c, Object(members), name) == Some(bytes) <==> HasCoordinate(c, members, name, bytes)
  {
  }

  /** The key read from a JWK is the uncompressed point of its two coordinates. */
  lemma JwkExact(c: Crypto, jwk: Json, key: P256Key)
    ensures KeyFromJwk(c, jwk) == Ok(key) <==>
            jwk.Object? && exists x, y :: IsKey(c, jwk.members, x, y) && key == P256Key([4] + x + y)
  {
    if jwk.Object? {
      forall name, bytes ensures Coordinate(c, jwk, name) == Some(bytes) <==> HasCoordinate(c, jwk.members, name, bytes) {
        CoordinateExact(c, jwk.members, name, bytes);
      }
      VerificationJwkExact(jwk);
      hide Coordinate, HasCoordinate, IsVerificationJwk;
      if KeyFromJwk(c, jwk) == Ok(key) {
        var x, y := Coordinate(c, jwk, "x").value, Coordinate(c, jwk, "y").value;
        assert IsKey(c, jwk.members, x, y);
      }
    }
  }

  lemma VerificationJwkExact(jwk: Json)
    requires jwk.Object?
    ensures var members := jwk.members;
            IsVerificationJwk(jwk) <==>
            && HasText(members, "kty", "EC") && HasText(members, "crv", "P-256") && "d" !in members
            && ("alg" in members ==> members["alg"] == String("ES256"))
            && ("use" in members ==> members["use"] == String("sig"))
            && ("key_ops" in members ==> members["key_ops"].Array? && String("verify") in members["key_ops"].items)
  {
  }
}
