// Identity strings of ai-catalog-validate: urn:air publishers, did:web DIDs and URIs.

module Identity {
  import opened Basics

  const URN_AIR_PREFIX := "urn:air:"
  const DID_WEB_PREFIX := "did:web:"
  const MAX_NAME_LENGTH := 253
  const MAX_LABEL_LENGTH := 63

  predicate IsDomainChar(c: char) { IsLowerLetter(c) || IsDigit(c) || c == '-' }

  /** One part of a dotted name: characters in `p` with no hyphen at either end. */
  predicate IsLabel(part: string, p: char -> bool) {
    && part != "" && part[0] != '-' && part[|part| - 1] != '-'
    && forall i :: 0 <= i < |part| ==> p(part[i])
  }

  predicate AreLabels(name: string, p: char -> bool) {
    var labels := Split(name, '.');
    forall i :: 0 <= i < |labels| ==> IsLabel(labels[i], p)
  }

  /** Lowercase letters, digits and inner hyphens between the dots. */
  predicate IsDomain(name: string) { AreLabels(name, IsDomainChar) }

  function NumberOf(digits: string): nat
    requires forall i :: 0 <= i < |digits| ==> IsDigit(digits[i])
  {
    if digits == "" then 0
    else
      assert IsDigit(digits[|digits| - 1]);
      NumberOf(digits[..|digits| - 1]) * 10 + (digits[|digits| - 1] as int - '0' as int)
  }

  predicate AreDigits(s: string) { forall i :: 0 <= i < |s| ==> IsDigit(s[i]) }

  predicate IsOctet(s: string) {
    && 1 <= |s| <= 3 && AreDigits(s)
    && (|s| > 1 ==> s[0] != '0')
    && NumberOf(s) <= 255
  }

  /** An IPv4 address; IPv6 addresses contain colons, so no domain is one. */
  predicate IsIpAddress(name: string) {
    var parts := Split(name, '.');
    |parts| == 4 && forall i :: 0 <= i < 4 ==> IsOctet(parts[i])
  }

  predicate IsValidPublisher(publisher: string) {
    && |publisher| <= MAX_NAME_LENGTH
    && IsDomain(publisher)
    && (forall part :: part in Split(publisher, '.') ==> |part| <= MAX_LABEL_LENGTH)
    && !IsIpAddress(publisher)
  }

  /** The publisher that a `urn:air` identifier names. */
  function PublisherOf(identifier: string): Option<string> {
    if !HasPrefix(identifier, URN_AIR_PREFIX) then None
    else
      var publisher := Split(identifier[|URN_AIR_PREFIX|..], ':')[0];
      if publisher == "" then None else Some(publisher)
  }

  function Did(publisher: string): string { DID_WEB_PREFIX + publisher }

  predicate IsRootDidWeb(value: string) {
    HasPrefix(value, DID_WEB_PREFIX) && IsValidPublisher(value[|DID_WEB_PREFIX|..])
  }

  /** Whether the signer is the publisher that the identifier names. */
  predicate IsPublisher(identifier: string, signer: string) {
    match PublisherOf(identifier)
    case None => false
    case Some(publisher) => IsValidPublisher(publisher) && signer == Did(publisher)
  }

  predicate IsFragment(s: string) {
    s != "" && forall i :: 0 <= i < |s| ==> s[i] != '/' && s[i] != '?' && s[i] != '#'
  }

  /** Whether the key identifier is the signer followed by a fragment. */
  predicate IsKeyOf(signer: string, keyId: string) {
    HasPrefix(keyId, signer + "#") && IsFragment(keyId[|signer| + 1..])
  }

  // ---------------------------------------------------------------- URIs and extension keys

  predicate IsSchemeChar(c: char) { IsAlphanumeric(c) || c == '+' || c == '.' || c == '-' }

  predicate IsScheme(s: string) {
    s != "" && IsLetter(s[0]) && forall i :: 0 <= i < |s| ==> IsSchemeChar(s[i])
  }

  predicate HasNoSpace(s: string) { forall i :: 0 <= i < |s| ==> !IsWhitespace(s[i]) }

  predicate IsAbsoluteUri(value: string) {
    var colon := Until(value, IsColon);
    && colon < |value| - 1
    && IsScheme(value[..colon]) && HasNoSpace(value[colon + 1..])
  }

  predicate IsUrlKey(key: string) {
    var colon := Until(key, IsColon);
    && colon < |key| && IsScheme(key[..colon])
    && HasPrefix(key[colon..], "://") && |key| > colon + 3
    && var c := key[colon + 3]; c != '/' && c != '?' && c != '#' && !IsWhitespace(c)
  }

  predicate IsDnsChar(c: char) { IsAlphanumeric(c) || c == '-' }

  predicate IsReverseDnsKey(key: string) { |Split(key, '.')| >= 2 && AreLabels(key, IsDnsChar) }

  predicate IsExtensionKey(key: string) { IsUrlKey(key) || IsReverseDnsKey(key) }

  // ---------------------------------------------------------------- properties

  /** Whether `x` occurs in one of the parts. */
  predicate Occurs(parts: seq<string>, x: char) {
    exists j :: 0 <= j < |parts| && x in parts[j]
  }

  lemma {:induction false} SplitChars(s: string, c: char, i: nat)
    requires i < |s|
    ensures s[i] == c || Occurs(Split(s, c), s[i])
  {
    if s[i] != c {
      var rest, parts := Split(s[1..], c), Split(s, c);
      if i == 0 {
        assert s[0] in parts[0];
      } else {
        SplitChars(s[1..], c, i - 1);
        var j :| 0 <= j < |rest| && s[i] in rest[j];
        if s[0] == c {
          assert parts[j + 1] == rest[j];
        } else if j == 0 {
          assert parts[0] == [s[0]] + rest[0];
        } else {
          assert parts[j] == rest[j];
        }
      }
    }
  }

  lemma DomainChars(name: string)
    requires IsDomain(name)
    ensures forall i :: 0 <= i < |name| ==> IsDomainChar(name[i]) || name[i] == '.'
  {
    hide Split;
    forall i | 0 <= i < |name| ensures IsDomainChar(name[i]) || name[i] == '.' {
      SplitChars(name, '.', i);
    }
  }

  /** Every root did:web DID is an absolute URI. */
  lemma RootDidIsUri(value: string)
    requires IsRootDidWeb(value)
    ensures IsAbsoluteUri(value)
  {
    var name := value[8..];
    DomainChars(name);
    EmptyIsNoDomain();
    assert value[..8] == "did:web:" && value[3] == ':';
    assert value[..3] == "did" && value[0] == 'd' && value[1] == 'i' && value[2] == 'd';
    ThirdColon(value);
    DropInside("did:web:", name, 4);
    assert "did:web:"[4..] == "web:" && value == "did:web:" + name;
    assert |name| > 0;
    hide IsDomain, Until, IsRootDidWeb;
  }

  lemma EmptyIsNoDomain()
    ensures !IsDomain("")
  {
    assert Split("", '.')[0] == "";
  }

  lemma ThirdColon(value: string)
    requires |value| > 3 && value[0] == 'd' && value[1] == 'i' && value[2] == 'd' && value[3] == ':'
    ensures Until(value, IsColon) == 3
  {
    assert value[1..][1..] == value[2..] && value[2..][1..] == value[3..];
    assert Until(value[3..], IsColon) == 0;
    assert Until(value[2..], IsColon) == 1;
    assert Until(value[1..], IsColon) == 2;
  }

  // ---------------------------------------------------------------- publishers

  /** The identifier is `urn:air:` and a publisher, followed by nothing or by a colon and more. */
  predicate Names(identifier: string, publisher: string) {
    && publisher != "" && HasNo(publisher, ':')
    && HasPrefix(identifier, URN_AIR_PREFIX) && StartsAs(identifier[|URN_AIR_PREFIX|..], publisher, ':')
  }

  /** What it is to be the publisher of an identifier: to sign as the `did:web` of the valid domain that
      the identifier names. */
  lemma PublisherExact(identifier: string, signer: string)
    ensures IsPublisher(identifier, signer) <==>
            exists publisher :: Names(identifier, publisher) && IsValidPublisher(publisher) && signer == Did(publisher)
  {
    hide IsValidPublisher, Names, PublisherOf;
    forall publisher ensures PublisherOf(identifier) == Some(publisher) <==> Names(identifier, publisher) {
      NamesExact(identifier, publisher);
    }
  }

  lemma NamesExact(identifier: string, publisher: string)
    ensures PublisherOf(identifier) == Some(publisher) <==> Names(identifier, publisher)
  {
    if HasPrefix(identifier, URN_AIR_PREFIX) {
      FirstPartExact(identifier[|URN_AIR_PREFIX|..], ':', publisher);
    }
    hide Split;
  }

  // ---------------------------------------------------------------- forms

  /** A root DID is `did:web:` and a valid domain. */
  lemma RootDidExact(value: string)
    ensures IsRootDidWeb(value) <==> exists domain :: IsValidPublisher(domain) && value == "did:web:" + domain
  {
    hide IsValidPublisher;
    if IsRootDidWeb(value) {
      assert value == "did:web:" + value[8..];
    }
    forall domain | value == "did:web:" + domain ensures value[8..] == domain {
    }
  }

  /** A key of a signer is named by the signer, a hash sign and a fragment. */
  lemma KeyOfExact(signer: string, keyId: string)
    ensures IsKeyOf(signer, keyId) <==>
            exists fragment :: fragment != "" && HasNo(fragment, '/') && HasNo(fragment, '?') && HasNo(fragment, '#')
                               && keyId == signer + ("#" + fragment)
  {
    if HasPrefix(keyId, signer + "#") {
      var fragment := keyId[|signer| + 1..];
      assert keyId == signer + "#" + fragment == signer + ("#" + fragment);
    }
    forall fragment | keyId == signer + ("#" + fragment) ensures HasPrefix(keyId, signer + "#") && keyId[|signer| + 1..] == fragment {
      assert keyId == signer + "#" + fragment;
    }
  }

  /** A URI is a scheme, a colon and something without white space. */
  lemma AbsoluteUriExact(value: string)
    ensures IsAbsoluteUri(value) <==>
            exists scheme, rest :: IsScheme(scheme) && rest != "" && HasNoSpace(rest) && value == scheme + (":" + rest)
  {
    var colon := Until(value, IsColon);
    if colon < |value| - 1 {
      assert value == value[..colon] + (":" + value[colon + 1..]);
    }
    forall scheme, rest | IsScheme(scheme) && value == scheme + (":" + rest)
      ensures colon == |scheme| && value[..colon] == scheme && value[colon + 1..] == rest
    {
      SchemeHasNoColon(scheme);
      UntilHit(value, |scheme|, IsColon);
    }
    hide Until, IsScheme, HasNoSpace;
  }

  lemma SchemeHasNoColon(scheme: string)
    requires IsScheme(scheme)
    ensures HasNo(scheme, ':')
  {
  }

  /** A URL key is a scheme, `://` and something that starts with a character of an authority. */
  lemma UrlKeyExact(key: string)
    ensures IsUrlKey(key) <==>
            exists scheme, rest :: IsScheme(scheme) && StartsAuthority(rest) && key == scheme + ("://" + rest)
  {
    var colon := Until(key, IsColon);
    if IsUrlKey(key) {
      UrlKeyParts(key);
    }
    forall scheme, rest | IsScheme(scheme) && StartsAuthority(rest) && key == scheme + ("://" + rest) ensures IsUrlKey(key) {
      SchemeHasNoColon(scheme);
      UntilHit(key, |scheme|, IsColon);
      assert key[..|scheme|] == scheme && key[|scheme|..] == "://" + rest;
      assert ("://" + rest)[..3] == "://" && key[|scheme| + 3] == rest[0];
      hide Until, IsScheme;
    }
    hide IsUrlKey;
  }

  predicate StartsAuthority(s: string) { s != "" && s[0] != '/' && s[0] != '?' && s[0] != '#' && !IsWhitespace(s[0]) }

  lemma UrlKeyParts(key: string)
    requires IsUrlKey(key)
    ensures exists scheme, rest :: IsScheme(scheme) && StartsAuthority(rest) && key == scheme + ("://" + rest)
  {
    var colon := Until(key, IsColon);
    var scheme, rest := key[..colon], key[colon + 3..];
    assert key[colon..][..3] == "://";
    assert key[colon..] == "://" + rest;
    assert key == scheme + ("://" + rest) && rest[0] == key[colon + 3];
    hide Until, IsScheme;
  }

  predicate IsMark(c: char) { c == '.' || c == '-' }

  /** Such a name consists of dots and characters in `p`, and neither a dot nor a hyphen stands at an end or next to a dot. */
  predicate IsDotted(name: string, p: char -> bool) {
    && name != "" && !IsMark(name[0]) && !IsMark(name[|name| - 1])
    && (forall i :: 0 <= i < |name| ==> p(name[i]) || name[i] == '.')
    && forall i :: 0 < i < |name| ==> !(name[i] == '.' && IsMark(name[i - 1])) && !(name[i - 1] == '.' && IsMark(name[i]))
  }

  lemma {:induction false} LabelsExact(name: string, p: char -> bool)
    requires !p('.')
    ensures AreLabels(name, p) <==> IsDotted(name, p)
    decreases |name|
  {
    var k := Until(name, IsDot);
    UntilMissed(name, IsDot);
    if k == |name| {
      OneLabel(name, p);
    } else {
      var first, rest := name[..k], name[k + 1..];
      assert name == first + ("." + rest);
      SplitAfter(first, '.', rest);
      LabelsExact(rest, p);
      LabelsStep(first, rest, name, p);
      DottedStep(first, rest, name, p);
      hide AreLabels, IsDotted, IsLabel, Split;
    }
  }

  lemma OneLabel(name: string, p: char -> bool)
    requires HasNo(name, '.')
    ensures IsDotted(name, p) <==> IsLabel(name, p)
    ensures AreLabels(name, p) <==> IsLabel(name, p)
  {
    SplitWord(name, '.');
    assert Split(name, '.')[0] == name;
    hide Split;
  }

  predicate IsDot(c: char) { c == '.' }

  lemma LabelsStep(first: string, rest: string, name: string, p: char -> bool)
    requires Split(name, '.') == [first] + Split(rest, '.')
    ensures AreLabels(name, p) <==> IsLabel(first, p) && AreLabels(rest, p)
  {
    hide Split, IsLabel;
    var labels, more := Split(name, '.'), Split(rest, '.');
    assert forall i :: 0 <= i < |more| ==> labels[i + 1] == more[i];
    assert labels[0] == first;
  }

  lemma DottedStep(first: string, rest: string, name: string, p: char -> bool)
    requires !p('.') && HasNo(first, '.') && name == first + ("." + rest)
    ensures IsDotted(name, p) <==> IsLabel(first, p) && IsDotted(rest, p)
  {
    var k := |first|;
    assert forall i :: 0 <= i < k ==> name[i] == first[i];
    assert name[k] == '.';
    assert forall i :: 0 <= i < |rest| ==> name[k + 1 + i] == rest[i];
    if IsDotted(name, p) {
      DottedParts(first, rest, name, p);
    }
    if IsLabel(first, p) && IsDotted(rest, p) {
      forall i | 0 < i < |name| ensures !(name[i] == '.' && IsMark(name[i - 1])) && !(name[i - 1] == '.' && IsMark(name[i])) {
        if i > k + 1 {
          assert name[i] == rest[i - k - 1] && name[i - 1] == rest[i - k - 2];
        }
      }
      forall i | 0 <= i < |name| ensures p(name[i]) || name[i] == '.' {
        if i > k {
          assert name[i] == rest[i - k - 1];
        }
      }
    }
  }

  lemma DottedParts(first: string, rest: string, name: string, p: char -> bool)
    requires HasNo(first, '.') && name == first + ("." + rest) && IsDotted(name, p)
    ensures IsLabel(first, p) && IsDotted(rest, p)
  {
    var k := |first|;
    assert name[k] == '.';
    assert forall i :: 0 <= i < k ==> name[i] == first[i];
    assert k > 0 && first[0] == name[0];
    assert !IsMark(name[k - 1]) && name[k - 1] == first[k - 1];
    assert k + 1 < |name| && !IsMark(name[k + 1]) && name[k + 1] == rest[0];
    assert rest[|rest| - 1] == name[|name| - 1];
    forall i | 0 <= i < |rest| ensures p(rest[i]) || rest[i] == '.' {
      assert name[k + 1 + i] == rest[i];
    }
    forall i | 0 < i < |rest| ensures !(rest[i] == '.' && IsMark(rest[i - 1])) && !(rest[i - 1] == '.' && IsMark(rest[i])) {
      assert name[k + 1 + i] == rest[i] && name[k + i] == rest[i - 1];
    }
  }

  /** A domain is a dotted name of lower-case letters, digits and hyphens. */
  lemma DomainExact(name: string)
    ensures IsDomain(name) <==> IsDotted(name, IsDomainChar)
  {
    LabelsExact(name, IsDomainChar);
  }

  /** A reverse-DNS key is a dotted name of letters, digits and hyphens with at least one dot. */
  lemma ReverseDnsExact(key: string)
    ensures IsReverseDnsKey(key) <==> IsDotted(key, IsDnsChar) && !HasNo(key, '.')
  {
    LabelsExact(key, IsDnsChar);
    DotsSplit(key);
    hide Split, IsDotted;
  }

  lemma DotsSplit(s: string)
    ensures |Split(s, '.')| >= 2 <==> !HasNo(s, '.')
  {
    if HasNo(s, '.') {
      SplitWord(s, '.');
    } else if |Split(s, '.')| == 1 {
      SplitClean(s, '.', 0);
      JoinOfSplit(s, '.');
    }
    hide Split;
  }
}
