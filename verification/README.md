# A verified model of ai-catalog

This project models the hard parts of the `ai-catalog` workspace in Dafny and proves what they promise.

* **OCI store** (`OciModel`, `OciStore`, `OciRoundTrip`, `OciInvariant`, `OciLayout`, `OciLayoutRoundTrip`, `OciMaterial`,
  `OciUnpack`, `OciImport`, `SortedKeys`). Packing a catalog into an index, manifests, referrers and content-addressed blobs;
  attaching cosign material; writing a layout directory and reading it back; unpacking. `OciModel` says what each operation
  yields, the methods of `OciStore` and `OciLayout` compute it step by step in the order of the crate. The other modules prove
  the round trips, what a reader finds under every descriptor (`OciMaterial`), and what unpacking and importing make of any
  artifact set and any directory, whoever made them (`OciUnpack`, `OciImport`).
* **Link header** (`LinkHeader`, `LinkCombination`, `LinkRoundTrip`). The cursor parser for section 3 of RFC 8288, its
  behaviour on joined field lines, and a printer that it inverts.
* **Discovery** (`Discover`, `DiscoverProofs`, `DiscoverExact`). The search over an arbitrary fetcher, with its trace of
  requests; `DiscoverExact` says what is found in terms of responses and links alone.
* **Validation** (`Validation`, `Validator`, `Nesting`, `Uniqueness`, `Validity`, `Diagnostics`, `Numerals`). `Validation` gives
  the report on each record, relative to that record; the class `Validator` is the collector, which appends exactly those
  reports under absolute paths and depths; `Validity` says of the records themselves which catalogs are accepted, and
  `Diagnostics` which codes are reported at which paths.
* **Trust and verification** (`Trust`, `DetachedJws`, `Identity`, `Verification`, `Agreement`, `Verdicts`, `TrustedMeaning`).
  Digests, signing payloads, keys and detached JWS; the verifier; its agreement with the validator; every outcome it reports,
  by its inputs (`Verdicts`); and what `Trusted` means.

`Basics`, `JsonValue` and `Catalog` hold the shared strings, JSON values and records. The lemmas named `...Exact` and `...Says`
of the modules `DiscoverExact`, `OciImport`, `OciUnpack`, `Validity`, `Diagnostics` and `Verdicts` state their conditions on
records, strings, documents and fetches.

## Parameters and hypotheses

Hash functions, base64url, UTF-8, JSON text, RFC 8785, the P-256 curve, serde codecs, RFC 3339 timestamps, URL joining and
HTML link extraction are functions that the statements quantify over (`Crypto`, `World`, `Env`, `Web`, `Outside`).
Fetching is a function of the URL. What is assumed of them is written in each statement that needs it:

* `Lawful`: SHA-256 yields 32 bytes; manifests, indexes and layout metadata survive serialization; an index is never
  written like a manifest.
* `Survives`: the records of this catalog survive their serialization.
* `CollisionFree` and `ExportCollisionFree`: no two different byte strings among those that this run stores or exports
  share a digest. Nothing is assumed of any others.
* `HashLengths`: the three digests have 32, 48 and 64 bytes.
* `instant("") == None`: an empty string is not a timestamp.
* `ReadsMembers` and `DecodesTo`: contributor and subject are read from the members of those names, and the verified
  document is the one the catalog was decoded from. `ToldApart`: two signed values with the same canonical form are equal.
* `JoinKeepsScheme`: joining the well-known path keeps the scheme.
* `IgnoresFragments`: whether a URL serves a catalog does not depend on its fragment, which is never sent.

## Where the code does less than one may expect

* Trust manifests are filed under the digest of the entry manifest, which does not contain them. Two entries that are equal
  apart from trust manifests share one key, and each is restored with the manifests of both. `RestoresExactly` gives the
  exact condition; the uniqueness rule of the validator implies it (`AcceptedIsRestored`).
* The validator takes an empty `url` as absent, packing does not: a valid catalog fails to pack exactly when an entry with
  data has an empty `url`, or a signing payload has no canonical form (`ValidPacks`).
* `export_layout` prepares the directory before it looks at the tag, so a call with a blank tag leaves a `blobs` folder
  behind and the next call is refused (`BlankTagSpoilsDirectory`). No other failing export of a consistent set changes the
  directory (`SpoilsExactly`).
* The validator does not look at an empty `expiresAt`; the verifier refuses it (`EmptyExpiryParts`). This and `b64`, which
  is left to the check of the JWS, are the only differences (`OfflineExact`, `VerifierExact`).
* A release with no `type` is covered by any subject type; only an error-free validation, which `Trusted` requires, makes
  the types equal (`ReleaseExact`, `TrustedMeans`).
* crates/ai-catalog-validate/README.md:71-72 says that other contributors' manifests never hold the publisher back. That
  is so for the verdict on an entry (`NonInterference`). The level of a Trusted catalog keeps it exactly as long as every
  manifest that the publisher did not sign is valid for its entry and is not signed where the entry has no digest;
  otherwise the catalog becomes Minimal (`OthersHoldBackExact`; `OneMoreManifest` adds a manifest without a contributor).
* A host that is reached over another scheme than https after a redirect is asked for its well-known URL over that scheme
  (`HttpsExactly`).
* Two `Link` field lines may not always be joined by a comma: an unclosed quote or angle bracket swallows what follows.
  `CombinationExact` gives the exact condition.

## Model

| member | source | states |
|---|---|---|
| LinkHeader.ParseValue | crates/ai-catalog-discover/src/link.rs:106-127 | the cursor loop over a quoted string or a token computes the value and the rest, also when the quote is never closed |
| LinkHeader.ParseParams | crates/ai-catalog-discover/src/link.rs:78-103 | the loop over parameters yields the lower-case names, their values and the remainder that starts at the next link |
| LinkHeader.Parse | crates/ai-catalog-discover/src/link.rs:31-74 | the loop with its junk recovery yields the links of the field value, in order |
| LinkCombination.CombinationExact | crates/ai-catalog-discover/src/link.rs:31-74 | a field line may be followed by a comma and any text without changing either meaning if and only if it is complete: it ends inside no quote and no bracket |
| LinkCombination.CompleteAppend | crates/ai-catalog-discover/src/link.rs:31-74 | a complete line joined with another is complete exactly when that one is |
| LinkCombination.JunkSkipped | crates/ai-catalog-discover/src/link.rs:35-45 | comma-free text that is no link is skipped, and no later link is lost |
| LinkCombination.CombinedTargets | crates/ai-catalog-discover/src/link.rs:18-28 | separate complete field lines have the same targets as the one line that combines them |
| LinkCombination.UnquoteSuffix | crates/ai-catalog-discover/src/link.rs:106-127 | a quoted string leaves a suffix of its input |
| LinkCombination.ParamsSuffix | crates/ai-catalog-discover/src/link.rs:78-103 | the parameter parser leaves a suffix of its input, whatever the input |
| LinkRoundTrip.QuotedValue | crates/ai-catalog-discover/src/link.rs:106-120 | any value, quotes, backslashes, commas and semicolons included, is read back from its quoted form |
| LinkRoundTrip.EncodedReads | crates/ai-catalog-discover/src/link.rs:113-126 | however a text is escaped within quotes it is read back, up to the closing quote, or to the end of an unclosed one, where a last lone backslash is dropped |
| LinkRoundTrip.UnquoteExact | crates/ai-catalog-discover/src/link.rs:113-126 | everything that can follow a quote is an escaped text that is closed, unclosed, or unclosed with a lone backslash, and is read as such |
| LinkRoundTrip.TokenValue | crates/ai-catalog-discover/src/link.rs:107-112 | an unquoted value ends at a semicolon, a comma or white space |
| LinkRoundTrip.RoundTrip | crates/ai-catalog-discover/src/link.rs:31-74 | parsing a printed list of links, with values as tokens or quoted and blanks wherever the grammar allows them, gives, in order, those with a valued `rel` and no `anchor`, each with its trimmed target and the types of its first valued `rel`; the printed line is complete |
| LinkRoundTrip.RelationTypesExact | crates/ai-catalog-discover/src/link.rs:63-70 | for any value, the relation types are its maximal runs without ASCII whitespace in lower case, in order |
| Discover.KeepHttps | crates/ai-catalog-discover/src/lib.rs:165-173 | the https links are kept in order, and every other one is reported |
| Discover.JoinWellKnown | crates/ai-catalog-discover/src/lib.rs:174-178 | one candidate for every base that the well-known path joins with, in order |
| Discover.Search | crates/ai-catalog-discover/src/lib.rs:180-196 | the loop asks each URL whose fragment-free key is new until one is a catalog, and reports the failures before it |
| Discover.DiscoverWith | crates/ai-catalog-discover/src/lib.rs:130-197 | the procedure refines the declared outcome and asks exactly the declared requests; when the URL itself serves a catalog, that is returned and nothing else asked |
| Discover.AsCatalogExact | crates/ai-catalog-discover/src/lib.rs:252-267 | a response is a catalog if and only if its status is 200 to 299, its body parses and its `specVersion` is not blank; otherwise the reason is the status, HTML, no document or no version, in this order |
| DiscoverProofs.UnseenExact | crates/ai-catalog-discover/src/lib.rs:180-184 | deduplication keeps exactly the first candidate for every new key, in order |
| DiscoverProofs.RequestedOnce | crates/ai-catalog-discover/src/lib.rs:132-192 | no URL is requested twice, whatever its fragment |
| DiscoverProofs.NothingFound | crates/ai-catalog-discover/src/lib.rs:130-197 | NotFound exactly when nothing planned is a catalog; then everything planned was asked, and attempts are as many as requests and links that are not https |
| DiscoverProofs.FirstIsFound | crates/ai-catalog-discover/src/lib.rs:130-197 | the first catalog of the plan is found, and the requests are the plan up to it |
| DiscoverProofs.PlanByPriority | crates/ai-catalog-discover/src/lib.rs:130-178 | the plan is ordered direct, Link header, HTML link, well-known |
| DiscoverProofs.HttpsExactly | crates/ai-catalog-discover/src/lib.rs:132-192 | from an https start every request is https, except exactly when the host was reached over another scheme and no earlier candidate is a catalog |
| DiscoverExact.ParseInputExact | crates/ai-catalog-discover/src/lib.rs:199-224 | an input stands for the URL that it, or `https://` and it, parses to, if that is https and has a host |
| DiscoverExact.HtmlExact | crates/ai-catalog-discover/src/http.rs:34-40 | a response is HTML when the media type before any parameters is one of two, whatever its letter case and surrounding white space |
| DiscoverExact.FoundExact | crates/ai-catalog-discover/src/lib.rs:130-197 | nothing is found if and only if none of these serves a catalog: the URL itself, https links in its Link header or HTML, and the well-known URLs of the host asked for and the host reached; what is found is what one of them serves |
| DiscoverExact.DirectExact | crates/ai-catalog-discover/src/lib.rs:137-148 | the start's own response is returned, and nothing else asked, if and only if it is a catalog |
| DiscoverExact.TargetsInOrder | crates/ai-catalog-discover/src/link.rs:18-28 | links are taken line by line and link by link, and those without the relation are passed over |
| DiscoverExact.ResolveInOrder | crates/ai-catalog-discover/src/lib.rs:289-294 | references are resolved in order, and those that do not resolve are dropped |
| DiscoverExact.WellKnownInOrder | crates/ai-catalog-discover/src/lib.rs:142-178 | the well-known URL of the host reached, if it is another one, comes before that of the host asked for |
| DiscoverExact.RefusedInOrder | crates/ai-catalog-discover/src/lib.rs:167-173 | links are kept or reported by their scheme, in order |
| DiscoverExact.ReportExact | crates/ai-catalog-discover/src/lib.rs:137-196 | the report lists the start, then the refused links, then every other place asked, each with where its response came from and why it is no catalog |
| Trust.DigestHex | crates/ai-catalog-trust/src/lib.rs:236-246 | the loop writes two hex digits for every byte |
| Trust.HexInjective | crates/ai-catalog-trust/src/lib.rs:236-246 | different bytes have different hex forms |
| Trust.DigestExact | crates/ai-catalog-trust/src/lib.rs:51-104 | a digest string is accepted for some bytes if and only if it is, up to letter case, one of their three digests |
| Trust.ParseDigestExact | crates/ai-catalog-trust/src/lib.rs:51-82 | a string is a digest if and only if, in lower case, it is `sha256:`, `sha384:` or `sha512:` and exactly 64, 96 or 128 hex digits; it is read in lower case |
| Trust.DigestErrorExact | crates/ai-catalog-trust/src/lib.rs:51-82 | the form, a weak algorithm and an unsupported one are each reported exactly when they are the first thing wrong |
| Trust.ReadObject | crates/ai-catalog-trust/src/lib.rs:220-233 | an object is refused exactly when a name occurs twice, and else holds exactly the entries read |
| Trust.StripExact | crates/ai-catalog-trust/src/lib.rs:118-157 | two documents have the same signed value if and only if they agree everywhere but in `additionalSignatures` and the `jws` of a `signature` object |
| Trust.StripIdempotent | crates/ai-catalog-trust/src/lib.rs:147-157 | stripping twice is stripping once |
| Trust.SigningKeepsPayload | crates/ai-catalog-trust/src/lib.rs:118-157 | putting a `jws` into an existing signature object leaves the signed value unchanged |
| Trust.PayloadExact | crates/ai-catalog-trust/src/lib.rs:125-131 | signing payloads agree exactly when the documents differ in nothing but signatures |
| Trust.MemoHonest | crates/ai-catalog/src/model.rs:193-218 | after any assignments to the fields, the signing JSON decodes to the current fields, and is the published JSON exactly while they equal the published ones |
| Trust.FromJwk | crates/ai-catalog-trust/src/jws.rs:24-75 | the loop over the coordinates builds the uncompressed point, refusing private, foreign or unusable keys |
| DetachedJws.FormExact | crates/ai-catalog-trust/src/jws.rs:81-87 | splitting at dots recognizes exactly `header..signature` with no dot in either part |
| DetachedJws.DetachedExact | crates/ai-catalog-validate/src/jws.rs:62-69 | a JWS is detached exactly when it is `header..signature` with two non-empty parts |
| DetachedJws.VerifiedExact | crates/ai-catalog-trust/src/jws.rs:80-128 | a JWS is accepted if and only if it has that form, its header declares ES256 without `b64` or `crit`, and the key signed header, dot and payload |
| DetachedJws.HeaderExact | crates/ai-catalog-validate/src/jws.rs:24-60 | a header is read if and only if what stands before the first dot is base64url of UTF-8 JSON of an object with a non-empty `alg` whose `kid` and `typ` are strings where given |
| DetachedJws.JwkExact | crates/ai-catalog-trust/src/jws.rs:24-75 | a key is read from a JWK if and only if it is a public P-256 key that may verify ES256, and is the uncompressed point of its two 32-byte coordinates |
| OciStore.StoreBlob | crates/ai-catalog-oci/src/lib.rs:856-882 | the bytes are stored under their digest, every other key is as before, and the descriptor has the digest, the size and the media type |
| OciStore.PackEntry | crates/ai-catalog-oci/src/lib.rs:181-268 | one round of the packing loop: its blobs, its manifest, its referrers, or the error of the entry |
| OciStore.PackTrust | crates/ai-catalog-oci/src/lib.rs:224-263 | the inner loop files one referrer for every trust manifest under the digest of the entry manifest |
| OciStore.PackCatalog | crates/ai-catalog-oci/src/lib.rs:175-277 | packing yields the declared artifact set, or the first error in entry order |
| OciStore.UnpackCatalog | crates/ai-catalog-oci/src/lib.rs:279-379 | unpacking yields the declared catalog, or the first error met |
| OciStore.Artifacts.AttachCosign | crates/ai-catalog-oci/src/lib.rs:404-503 | attaching adds the two referrers and their blobs under the subject; for an unknown subject it fails and changes nothing |
| OciMaterial.AttachedHolds | crates/ai-catalog-oci/src/lib.rs:404-503 | after a call on a listed subject the last two referrers under it are a signature, whose layers lead to the signature and the bundle, and a key, whose layer leads to the public key; the configs and annotations hold identity and payload digest |
| OciMaterial.MaterialSurvives | crates/ai-catalog-oci/src/lib.rs:404-647 | after any run the material of every call on a listed subject can be read, and again after an export and import |
| OciMaterial.PackedReads | crates/ai-catalog-oci/src/lib.rs:175-277 | in a packed set the descriptor of each entry leads to its manifest, that to its record and data with their sizes and types, and its referrers to each trust manifest and to exactly the bytes that were signed |
| OciUnpack.PackExact | crates/ai-catalog-oci/src/lib.rs:175-277 | packing succeeds if and only if every entry has either a URL or data and its trust can be signed; otherwise the first entry for which this fails is reported |
| OciUnpack.UnpackExact | crates/ai-catalog-oci/src/lib.rs:279-379 | for any artifact set, unpacking yields a catalog if and only if its annotations and descriptors lead to that catalog, member by member |
| OciUnpack.UnpackRefuses | crates/ai-catalog-oci/src/lib.rs:279-290 | a set of another type, and one without a version, are refused with that reason |
| OciRoundTrip.KeyExact | crates/ai-catalog-oci/src/lib.rs:207-222 | manifest digests of packed entries coincide exactly for entries that are equal up to trust manifests |
| OciRoundTrip.UnpackOfPack | crates/ai-catalog-oci/src/lib.rs:175-379 | unpacking what was packed succeeds and gives every entry the trust manifests of all entries of the same release, in order |
| OciRoundTrip.PooledExact | crates/ai-catalog-oci/src/lib.rs:175-379 | pooling them restores the catalog exactly when no two entries equal up to trust manifests carry any |
| OciRoundTrip.RestoresExactly | crates/ai-catalog-oci/src/lib.rs:175-379 | when packing succeeds, unpacking restores the catalog if and only if no two entries equal apart from trust manifests carry any |
| OciRoundTrip.RestoredPayload | crates/ai-catalog-oci/src/lib.rs:224-263 | a restored manifest keeps its signed payload exactly when its published and its serialized JSON differ in nothing that a signature covers |
| OciInvariant.PackConsistent | crates/ai-catalog-oci/src/lib.rs:175-277 | after packing, blobs are keyed by their digest, none is missing, none is left over, and every referrer is filed under its own listed subject |
| OciInvariant.AttachConsistent | crates/ai-catalog-oci/src/lib.rs:404-503 | every attach call keeps all of that, whatever it attaches |
| OciInvariant.AttachKeepsCatalog | crates/ai-catalog-oci/src/lib.rs:279-503 | attaching, successful or not, never changes what is unpacked |
| OciInvariant.RunConsistent | crates/ai-catalog-oci/src/lib.rs:175-503 | every state that packing and any number of calls reach is consistent and unpacks to what was packed |
| SortedKeys.Keys | crates/ai-catalog-oci/src/lib.rs:534-556 | iterating a BTreeMap visits its keys in ascending order, each once |
| SortedKeys.SortedIsSorted | crates/ai-catalog-oci/src/lib.rs:534-556 | that list is strictly ascending and holds exactly the keys |
| OciLayout.LayoutDirectory.PrepareLayout | crates/ai-catalog-oci/src/lib.rs:763-777 | a directory with anything in it is refused and left alone; any other exists afterwards with the same files and the `blobs` folder added |
| OciLayout.LayoutDirectory.WriteLayoutBlob | crates/ai-catalog-oci/src/lib.rs:779-796 | a digest is accepted exactly when both sides of its first colon are non-empty; then the file under these two names holds the bytes and all others are as before |
| OciLayout.SplitDigestExact | crates/ai-catalog-oci/src/lib.rs:789-796 | a digest splits into two non-empty parts, the first without a colon, exactly when it is these two joined by a colon |
| OciLayout.LayoutDirectory.WriteManifests | crates/ai-catalog-oci/src/lib.rs:534-537 | the loop over the manifests writes them in key order until one fails |
| OciLayout.LayoutDirectory.WriteReferrers | crates/ai-catalog-oci/src/lib.rs:539-552 | the nested loops write every referrer and describe each in the same order |
| OciLayout.LayoutDirectory.WriteBlobs | crates/ai-catalog-oci/src/lib.rs:554-556 | the loop over the blobs writes them in key order until one fails |
| OciLayout.LayoutDirectory.ExportLayout | crates/ai-catalog-oci/src/lib.rs:505-579 | exporting leaves exactly the declared files, or the declared error and what was written before it |
| OciLayout.LoadBlobs | crates/ai-catalog-oci/src/lib.rs:740-761 | loading a manifest's blobs reads its config and every layer, and keeps those already loaded |
| OciLayout.ImportEntries | crates/ai-catalog-oci/src/lib.rs:608-613 | the loop over the index loads each manifest and its blobs |
| OciLayout.ImportReferrers | crates/ai-catalog-oci/src/lib.rs:615-639 | the loop over the layout index keeps what refers to an entry, and passes over the root, the entries and the rest |
| OciLayout.ImportLayout | crates/ai-catalog-oci/src/lib.rs:581-647 | importing yields the declared artifact set, or the first error met |
| OciImport.SelectNamedExact | crates/ai-catalog-oci/src/lib.rs:692-716 | in any layout, the root under a name is the first catalog index with that name, and is missing if and only if there is none |
| OciImport.SelectOnlyExact | crates/ai-catalog-oci/src/lib.rs:717-723 | in any layout, the root under no name is the only catalog index; none is reported as missing and two as ambiguous |
| OciImport.ImportExact | crates/ai-catalog-oci/src/lib.rs:581-647 | for any directory, importing yields an artifact set if and only if the directory is a layout of version 1.0.0 whose selected index lists exactly its manifests, whose other descriptors lead to exactly its referrers, in order, and which stores exactly the blobs that these refer to |
| OciImport.ImportRefuses | crates/ai-catalog-oci/src/lib.rs:586-597 | another version and a root that cannot be selected are refused with that reason |
| OciUnpack.LayoutIndexExact | crates/ai-catalog-oci/src/lib.rs:518-571 | the index of an exported layout describes the catalog index under the tag, then the entries, then every referrer, with digests, sizes and types |
| OciLayoutRoundTrip.WritesLand | crates/ai-catalog-oci/src/lib.rs:779-787 | writes of every kind into one namespace leave each byte string under its own digest, and no other file |
| OciLayoutRoundTrip.ExportWrites | crates/ai-catalog-oci/src/lib.rs:505-579 | every exported byte string can be read back under its digest, beside the layout index and metadata |
| OciLayoutRoundTrip.Regrouped | crates/ai-catalog-oci/src/lib.rs:539-639 | regrouping the flat list of referrers by subject gives back the referrers and their order |
| OciLayoutRoundTrip.SelectsRoot | crates/ai-catalog-oci/src/lib.rs:692-723 | the root is selected under no name and under its own tag, and under no other |
| OciLayoutRoundTrip.LayoutRoundTrip | crates/ai-catalog-oci/src/lib.rs:505-647 | export to a vacant directory under a non-blank tag and import return exactly the same artifact set, and a missing reference under any other name |
| OciLayoutRoundTrip.BlankTagSpoilsDirectory | crates/ai-catalog-oci/src/lib.rs:505-516 | export under a blank tag fails and leaves the directory refused for every later export |
| OciLayoutRoundTrip.SpoilsExactly | crates/ai-catalog-oci/src/lib.rs:505-579 | an export of a consistent set fails and yet changes the directory if and only if the directory was vacant and the tag is blank |
| OciLayoutRoundTrip.SurvivesLayout | crates/ai-catalog-oci/src/lib.rs:175-647 | a packed catalog with any number of attachments goes through a layout directory unchanged, and is restored under the same exact condition |
| Validator.Validator.ValidateTimestamp | crates/ai-catalog-validate/src/lib.rs:331-343 | one error for a non-empty value that is no RFC 3339 timestamp |
| Validator.Validator.ValidateDigest | crates/ai-catalog-validate/src/manifest.rs:234-242 | one error for a non-empty value that is no digest |
| Validator.Validator.ValidateExtensionKeys | crates/ai-catalog-validate/src/lib.rs:376-390 | one error for every key that is neither a URL nor a reverse-DNS name |
| Validator.Validator.ValidateSpecVersion | crates/ai-catalog-validate/src/lib.rs:392-429 | one error unless the version is two unsigned numbers with a supported major |
| Validator.Validator.ValidatePolicyUrls | crates/ai-catalog-validate/src/lib.rs:431-451 | one error when the policy URLs are not an object of strings |
| Validator.Validator.ValidateHost | crates/ai-catalog-validate/src/lib.rs:207-215 | a host without a display name is an error |
| Validator.Validator.ValidatePublisher | crates/ai-catalog-validate/src/lib.rs:309-329 | each missing member of a publisher is an error at that member |
| Validator.Validator.ValidateSignature | crates/ai-catalog-validate/src/signature.rs:34-67 | appends the signature report under the path and returns the header that was read |
| Validator.Validator.ValidateValidityWindow | crates/ai-catalog-validate/src/signature.rs:69-85 | an unreadable or misordered expiry is an error |
| Validator.Validator.ValidateJws | crates/ai-catalog-validate/src/signature.rs:87-144 | appends the errors of a JWS and returns its header exactly when it can be read |
| Validator.Validator.SignatureCurrent | crates/ai-catalog-validate/src/signature.rs:148-178 | warns of a signature from the future or expired, and returns whether neither is the case |
| Validator.Validator.CheckSignerProfile | crates/ai-catalog-validate/src/profile.rs:19-76 | appends the profile warnings and returns whether there were none |
| Validator.Validator.CheckManifestProfile | crates/ai-catalog-validate/src/manifest.rs:113-131 | the profile is checked exactly for did-web-v1 signatures whose header can be read |
| Validator.Validator.ValidateContributor | crates/ai-catalog-validate/src/manifest.rs:96-110 | a contributor that is missing, or else is no absolute URI, is an error |
| Validator.Validator.ValidateSubject | crates/ai-catalog-validate/src/manifest.rs:133-149 | each missing member of a subject and a malformed digest are errors |
| Validator.Validator.ValidateSubjectBinding | crates/ai-catalog-validate/src/manifest.rs:151-168 | one error for each member in which subject and entry differ |
| Validator.Validator.ValidateTrustSchema | crates/ai-catalog-validate/src/manifest.rs:170-186 | each missing member of a trust schema is an error |
| Validator.Validator.ValidateAttestation | crates/ai-catalog-validate/src/manifest.rs:188-209 | missing type or URI and a malformed digest are errors |
| Validator.Validator.ValidateProvenance | crates/ai-catalog-validate/src/manifest.rs:211-232 | missing relation or source and a malformed digest are errors |
| Validator.Validator.ValidateTrustManifest | crates/ai-catalog-validate/src/manifest.rs:40-94 | appends the manifest report under the path, attestations and provenance included |
| Validator.Validator.ValidateEntryTrust | crates/ai-catalog-validate/src/manifest.rs:13-38 | every manifest is reported, and a signed one demands a digest of the entry |
| Validator.Validator.ValidateEntryUniqueness | crates/ai-catalog-validate/src/lib.rs:217-260 | the loop over three sets reports at each index what the earlier entries imply |
| Validator.Validator.ValidateEntry | crates/ai-catalog-validate/src/lib.rs:262-307 | at any path and depth, appends the entry's own report with that prefix and the remaining depth |
| Validator.Validator.ValidateNestedCatalog | crates/ai-catalog-validate/src/lib.rs:345-374 | at any path and depth, appends the report on the decoded catalog, or the nesting error at the limit |
| Validator.Validator.ValidateCatalog | crates/ai-catalog-validate/src/lib.rs:187-205 | validating at any path and depth appends to an untouched prefix the report at the root with the limit reduced by that depth, every path prefixed |
| Validator.ValidateWith | crates/ai-catalog-validate/src/lib.rs:135-185 | the result is the report under `catalog`, with its validity and level |
| Nesting.DepthExact | crates/ai-catalog-validate/src/lib.rs:345-374 | NestedDepth is reported if and only if there is a chain of limit + 1 catalog-typed entries, each in the decodable data of the one before |
| Nesting.NestedInPlace | crates/ai-catalog-validate/src/lib.rs:345-374 | what a nested catalog reports on its own, with one level less, stands in one piece in the report of the enclosing one |
| Uniqueness.DuplicateExact | crates/ai-catalog-validate/src/lib.rs:217-260 | an error at an index exactly when an earlier entry has the same identifier and either is unversioned or the versions are equal |
| Uniqueness.UniquenessExact | crates/ai-catalog-validate/src/lib.rs:217-260 | nothing is reported exactly when no two entries conflict |
| Uniqueness.OrderDoesNotMatter | crates/ai-catalog-validate/src/lib.rs:217-260 | entries in another order are reported exactly when the first order is |
| Uniqueness.UniqueSharesNoTrust | crates/ai-catalog-validate/src/lib.rs:217-260 | the rule excludes the entries whose trust manifests would be pooled |
| Uniqueness.AcceptedIsRestored | crates/ai-catalog-oci/src/lib.rs:175-647 | a catalog that the uniqueness rule accepts and that packs is restored exactly, directly and, with any attachments, through a layout directory |
| Validity.ManifestSilent | crates/ai-catalog-validate/src/manifest.rs:40-110 | a trust manifest has no error exactly when its contributor is a URI, it says something, its parts are complete, and it is signed, if at all, soundly by its contributor about a subject |
| Validity.MismatchesExact | crates/ai-catalog-validate/src/manifest.rs:258-310 | no mismatch is listed exactly when no member of the subject contradicts the entry |
| Validity.ValidExact | crates/ai-catalog-validate/src/lib.rs:187-451 | the validator reports no error if and only if the catalog is valid: a condition on the records, at every depth up to the limit |
| Validity.LevelExact | crates/ai-catalog-validate/src/lib.rs:135-185 | a catalog is Discoverable exactly when it is valid and has a host, and Minimal otherwise |
| Validity.ValidPacks | crates/ai-catalog-oci/src/lib.rs:175-277 | a valid catalog packs if and only if no entry with data has an empty `url` and every signing payload has a canonical form |
| Diagnostics.SignatureReportSays | crates/ai-catalog-validate/src/signature.rs:34-144 | every error in a signature, by code and path, and what causes it |
| Diagnostics.ProfileReportSays | crates/ai-catalog-validate/src/profile.rs:19-76 | every warning of the profile, by code and path, and what causes it |
| Diagnostics.ManifestReportSays | crates/ai-catalog-validate/src/manifest.rs:40-110 | every error in a trust manifest, by code and path, and what causes it |
| Diagnostics.EntryReportSays | crates/ai-catalog-validate/src/lib.rs:262-307 | every error and warning about an entry and what it contains, by code and path, and what causes it |
| Diagnostics.CatalogReportSays | crates/ai-catalog-validate/src/lib.rs:187-451 | for every code and path, however deep: it is reported about a catalog if and only if a record at that place causes it |
| Diagnostics.ResultSays | crates/ai-catalog-validate/src/lib.rs:135-153 | the result of validation says exactly that, below `catalog` |
| Numerals.SpecVersionExact | crates/ai-catalog-validate/src/lib.rs:392-429 | a version is supported if and only if it is two numerals, with or without a plus sign, joined by a dot, the first 0 or 1 and the second of 64 bits |
| Numerals.OctetExact | crates/ai-catalog-validate/src/identity.rs:27-34 | an octet of an IPv4 address is the decimal form of a number up to 255 |
| Identity.RootDidIsUri | crates/ai-catalog-validate/src/identity.rs:41-45 | every root did:web DID is an absolute URI |
| Identity.RootDidExact | crates/ai-catalog-validate/src/identity.rs:41-45 | a root DID is `did:web:` and a valid domain |
| Identity.DomainExact | crates/ai-catalog-validate/src/identity.rs:14-18 | a domain consists of lower-case letters, digits, dots and hyphens, with neither a dot nor a hyphen at an end or next to a dot |
| Identity.KeyOfExact | crates/ai-catalog-validate/src/verify.rs:306-311 | a key of a signer is named by the signer, a hash sign and a fragment |
| Identity.AbsoluteUriExact | crates/ai-catalog-validate/src/lib.rs:454-461 | a URI is a scheme, a colon and something without white space |
| Identity.UrlKeyExact | crates/ai-catalog-validate/src/lib.rs:463-476 | a URL key is a scheme, `://` and the start of an authority |
| Identity.ReverseDnsExact | crates/ai-catalog-validate/src/lib.rs:463-476 | a reverse-DNS key is a dotted name of letters, digits and hyphens with at least one dot |
| Identity.PublisherExact | crates/ai-catalog-validate/src/identity.rs:20-52 | a signer is the publisher exactly when it is the did:web of the valid domain that follows `urn:air:` up to the next colon |
| Verification.SelectKeyOf | crates/ai-catalog-validate/src/did.rs:20-82 | the loops over the two member lists select the declared key |
| Verification.Verify | crates/ai-catalog-validate/src/verify.rs:107-160 | verifying yields the declared verification, or says that the document is not JSON or not a catalog |
| Agreement.SignatureSilent | crates/ai-catalog-validate/src/signature.rs:34-144 | the validator finds no error in a signature exactly when its members are present, its window is ordered, and its JWS is detached, readable and fit for its kind |
| Agreement.SignerProfileSilent | crates/ai-catalog-validate/src/profile.rs:19-76 | there is no profile warning exactly when signer, algorithm, key identifier and key source follow the profile |
| Agreement.OfflineMeans | crates/ai-catalog-validate/src/verify.rs:274-343 | the offline checks pass exactly when the JWS is detached, readable, ES256 and of its kind, its header follows the profile, and both dates can be read and are current |
| Agreement.OfflineExact | crates/ai-catalog-validate/src/verify.rs:274-343 | for did-web-v1, the validator is silent and `expiresAt` is not empty if and only if the offline checks pass and there is no `b64` |
| Agreement.AcceptanceExact | crates/ai-catalog-validate/src/verify.rs:241-343 | a signature of a catalog or of a manifest is accepted if and only if the validator finds no error in it, it selects and follows the profile, is current, has no empty `expiresAt`, and the key of the signer verifies it |
| Agreement.VerifierExact | crates/ai-catalog-validate/src/verify.rs:241-343 | a signature is accepted if and only if it selects the profile, the validator is silent, `expiresAt` is not empty and the key of the signer verifies it |
| Agreement.VerifiedIsSilent | crates/ai-catalog-validate/src/verify.rs:233-272 | an accepted signature draws no error and no profile warning at the same clock |
| Agreement.EmptyExpiryParts | crates/ai-catalog-validate/src/signature.rs:69-85 | an empty `expiresAt` changes nothing for the validator and is refused by the verifier |
| Verdicts.SelectKeyExact | crates/ai-catalog-validate/src/did.rs:20-82 | a key is selected if and only if the document is the signer's, authorizes the key for assertions, and contains exactly one method with its identifier, controlled by the signer |
| Verdicts.ReleaseExact | crates/ai-catalog-validate/src/verify.rs:388-406 | a release is covered exactly when the contributor signed a complete subject equal to the entry in identifier, version, digest and, if the entry has one, type; otherwise it has failed, never unverifiable |
| TrustedMeaning.SignedCovers | crates/ai-catalog-validate/src/manifest.rs:13-94 | where the validator finds no error, every signed manifest covers its entry release |
| Verdicts.KeyExact | crates/ai-catalog-validate/src/verify.rs:257-271 | for a publisher the key check passes exactly when the document on the publisher's own domain designates a key that verifies the signature |
| Verdicts.SignatureVerdictExact | crates/ai-catalog-validate/src/verify.rs:233-343 | the outcome of any signature: Unverifiable exactly when it selects another profile, or is in order and the DID document cannot be fetched; otherwise Verified exactly when it is in order and authentic; and else Failed |
| Verdicts.ArtifactVerdictExact | crates/ai-catalog-validate/src/verify.rs:345-384 | the outcome of an artifact: Unverifiable exactly when there is no data and its URL is not https or cannot be fetched; Verified exactly when its content has the digest of the entry; and else Failed |
| Verdicts.EntryReportExact | crates/ai-catalog-validate/src/verify.rs:178-231 | the report on an entry, manifest by manifest: signer, outcome, release and publisher, the artifact exactly when some manifest is accepted, and the two verdicts |
| Verdicts.CatalogSignatureExact | crates/ai-catalog-validate/src/verify.rs:131-139 | the catalog signature is reported by its outcome, and authorized if and only if it is Verified and its signer is one of the operators |
| TrustedMeaning.EndorsedExact | crates/ai-catalog-validate/src/verify.rs:178-210 | an entry counts as endorsed exactly when one of its manifests is an endorsement by its publisher, and as failed exactly when a manifest that the publisher signed is refused, or one is accepted and the artifact has failed, each by records, documents and fetches |
| TrustedMeaning.TrustedExact | crates/ai-catalog-validate/src/verify.rs:107-160 | Trusted if and only if there is a host, the catalog is valid, some entry is endorsed, and no manifest that a publisher signed is refused or accepted for an artifact that fails |
| TrustedMeaning.TrustedMeans | crates/ai-catalog-validate/src/verify.rs:107-231 | in a Trusted catalog some manifest is signed by its contributor, the did:web of the publisher that the identifier names, about exactly this identifier, version, type and digest, with the single authorized key of that domain |
| TrustedMeaning.TrustedSigned | crates/ai-catalog-validate/src/verify.rs:107-271 | when the document decodes to the catalog, every manifest that the publisher's signature would also cover has this contributor and exactly this release as its subject |
| TrustedMeaning.NonInterference | crates/ai-catalog-validate/src/verify.rs:178-210 | inserting, removing, repeating or reordering manifests that the publisher did not sign never changes the verdict on the publisher |
| TrustedMeaning.OthersHoldBackExact | crates/ai-catalog-validate/src/verify.rs:107-210 | change the manifests that publishers did not sign in a Trusted catalog in any way: it stays Trusted if and only if each of them is valid for its entry and none is signed where the entry has no digest, and becomes Minimal otherwise |
| TrustedMeaning.OneMoreManifest | crates/ai-catalog-validate/src/verify.rs:107-210 | one more such manifest leaves a Trusted catalog Trusted or makes it Minimal under that condition; one without a contributor makes it Minimal |
| TrustedMeaning.FaultyManifestHoldsBack | crates/ai-catalog-validate/src/verify.rs:144-151 | in any catalog, one manifest that is invalid for its entry, or signed where the entry has no digest, makes the level Minimal |

## Left out

- Diagnostic messages and `Display` texts: reports are sequences of codes and paths.
- `http.rs`: timeouts, size limits and redirects. A response is what the fetcher returns for a URL, with its final URL.
- `html.rs`: the hrefs and the base of a page are parameters.
- URL syntax: parsing and joining are parameters; the `host` of a URL stands for host and port, and the path and query are opaque.
- JSON text, RFC 8785 output, base64url, UTF-8, SHA-2 and P-256: parameters, as described above.
- Numbers in JSON values are reals, and sizes are unbounded naturals; float formatting is not modelled.
- Regular expressions are written out as predicates on characters. `\s` is the White_Space property of Unicode.
- File-system errors, modes and path components with separators: a directory is a set of folders and a map from paths to bytes.
- `attach_cosign_verification_artifacts` without a bundle is the same call with no bundle.
- `get_by_id`, `search` and `search_by_regex`, and the command line: no property beyond their own bodies.
- Several fetches of one URL during one verification may differ in reality; here they agree.
