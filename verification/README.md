# HTTP message signatures: a Dafny model

This project models the deterministic core of an HTTP-signature library. It has two halves.

Verifying and signing both build a **verify data** object: the request headers plus the derived
fields `(request-target)`, `(created)` and `host`. They put its entries in a fixed order and turn
those entries into the **signature string**: one `key: value` line per entry, joined by newlines.
The library signs or verifies the UTF-8 bytes of that string.

- **Verification** reads a cavage-style `Signature` header
  (`keyId="…",created=…,headers="…",signature="…"`, draft-cavage-http-signatures-12). It picks
  the request headers that the `headers` list names, rebuilds the verify data, checks the body
  digest when there is one, and asks an external verifier.
- **Signing** reads an existing `Signature` / `Signature-Input` dictionary pair (sections 4.1
  and 4.2 of RFC 9421) when the request has one. It chooses a fresh signature id, signs, and
  appends the new member to both header values.

Cryptography, hashing, base64, `url.parse`, the structured-field dictionary parser,
`splitWithSpace`, `generateSignatureParams` and the clock are parameters. They are function-typed
fields of an environment datatype or explicit arguments (`now`). A promise that rejects, or a call
that throws, is an explicit outcome of these collaborators.

The JavaScript and library semantics the code relies on are modelled explicitly:

- objects are insertion-ordered association lists (`JsObject`);
- `in` also sees the names every object inherits;
- `Array.prototype.sort` compares `String([key, value])` (`DefaultSort`);
- lazy regular expressions (`LazyRegex`), `Number()` and `Number.prototype.toString` (`JsNumber`);
- `trim`, `split`, `join`, `indexOf` and ASCII lower-casing (`JsText`);
- Ramda `uniq` (`JsArray`) and `pickBy`;
- UTF-8 encoding (`Utf8`).

The source files come from different revisions of the library. Each file is modelled as written.
Modules, in dependency order:

- `Wrappers`, `JsArray`, `JsText`, `JsNumber`, `JsObject`, `Utf8`: the language and library layer.
- `Types`: header values, bodies, parsed URLs and error tags.
- `Common`: the header list string, the signature string and its bytes.
- `DefaultSort`, `SortedEntries`: entry ordering.
- `VerifyDataConstruction`, `VerifyDataEntries`: the two verify-data builders.
- `SignatureDictionary`: `getSignatureData`, an imperative walk.
- `LazyRegex`, `SignatureParamsParsing`: `getSignatureParams`.
- `DigestCheck`, `SignatureVerification`, `LegacyVerification`: the two verification pipelines.
- `SignatureCreation`: `createSignatureHeader`. Id selection is imperative; header assembly is pure.

## Model

| member | source | states |
|---|---|---|
| Common.JoinWithSpacePair | src/common/index.ts:12 | `joinWithSpace([a, b])` is `a + " " + b` |
| Common.JoinWithSpaceSplits | src/common/index.ts:12 | splitting a space join of space-free words on `' '` gives the words back |
| Common.HeadersListStringWords | src/common/index.ts:20-21 | the header list string is the entry keys, in order, lower-cased and separated by single spaces |
| Common.HeadersListStringAppend | src/common/index.ts:20-21 | one more entry appends a space and its lower-cased key |
| Common.ProcessedValueTrimmed | src/common/index.ts:30 | a processed value (array joined with `", "` then trimmed, string trimmed, `undefined` as the text `undefined`) has no white space at either end |
| Common.SignatureLineSingle | src/common/index.ts:29-31 | a line built from newline-free names and values holds no newline |
| Common.SignatureStringLines | src/common/index.ts:27-33 | splitting the signature string on `"\n"` gives exactly the lines, in entry order |
| Common.SignatureStringAppend | src/common/index.ts:27-33 | one more entry appends a newline and its line |
| Common.SignatureStringNoTrailingNewline | src/common/index.ts:27-33 | a non-empty entry list gives a string that does not end with a newline |
| Common.SignatureBytesDetermineString | src/common/index.ts:34 | the signature bytes are the UTF-8 encoding of the string, and equal bytes mean equal strings |
| Utf8.EncodeInjective | src/common/index.ts:13 | UTF-8 encoding is injective |
| Utf8.EncodeDecodes | src/common/index.ts:13 | decoding the encoding gives back the code points |
| Utf8.EncodeAscii | src/common/index.ts:13 | ASCII text encodes to one byte per character, its code |
| DefaultSort.SortSortedPermutation | src/common/generateSortedVerifyDataEntries.ts:12 | the default sort returns a permutation of its input, ordered by the text of `[key, value]` |
| DefaultSort.InsertPermutation | src/common/generateSortedVerifyDataEntries.ts:12 | inserting adds exactly one occurrence of the entry |
| DefaultSort.InsertSorted | src/common/generateSortedVerifyDataEntries.ts:12 | inserting into a sorted list keeps it sorted |
| SortedEntries.CoveredEntries | src/common/generateSortedVerifyDataEntries.ts:27-32 | the reduce gives one entry per covered field, in list order, each `[field, verifyData[field]]` |
| SortedEntries.CoveredFieldsError | src/common/generateSortedVerifyDataEntries.ts:22-25 | with a list, the result is the missing-keys error exactly when some listed name is not an own name of the verify data |
| SortedEntries.CoveredFieldsEntries | src/common/generateSortedVerifyDataEntries.ts:19-35 | on success, entry i is the i-th listed name with its value; unlisted names are dropped and a name listed twice appears twice |
| SortedEntries.EmptyCoveredFields | src/common/generateSortedVerifyDataEntries.ts:45 | an empty array is truthy and yields `ok([])` |
| SortedEntries.DefaultOrder | src/common/generateSortedVerifyDataEntries.ts:41-45 | without covered fields the result is never an error, and is a sorted permutation of all pairs |
| SortedEntries.TextCoveredFields | src/common/generateSortedVerifyDataEntries.ts:19-45 | a non-empty string in place of the list succeeds exactly when each of its characters is a name |
| JsArray.UniqLength | src/common/generateVerifyData.ts:17-18 | `uniq` keeps the length exactly when the elements are distinct |
| VerifyDataConstruction.DuplicateDetection | src/common/generateVerifyData.ts:17-18 | the duplicate check holds exactly when two header names are equal after lower-casing |
| VerifyDataConstruction.ReduceKeysToLowerCaseRenames | src/common/generateVerifyData.ts:15-16 | without such a collision, the reduce renames every header in place, and the names stay distinct |
| VerifyDataConstruction.GenerateVerifyDataErrors | src/common/generateVerifyData.ts:31-62 | checks run in the order duplicates, clock (`created > now`; equal passes; NaN passes), URL, and the first failure decides the message; success is exactly when all pass |
| VerifyDataConstruction.SuccessIsSpread | src/common/generateVerifyData.ts:55-61 | on success the verify data is the derived fields spread with the lower-cased headers |
| VerifyDataConstruction.GenerateVerifyDataNames | src/common/generateVerifyData.ts:49-59 | on success the derived names come first; the names are distinct and are exactly the derived ones plus the lower-cased header names |
| VerifyDataConstruction.GenerateVerifyDataHeaders | src/common/generateVerifyData.ts:55-59 | every header is present under its lower-cased name with its value unchanged |
| VerifyDataConstruction.GenerateVerifyDataDerived | src/common/generateVerifyData.ts:49-59 | `(request-target)` is the lower-cased method, a space and the path; `(created)` is the decimal text of `created`; `host` is the URL host; each holds unless a header's lower-cased name overrides it |
| JsNumber.NatToStringRoundTrip | src/common/generateVerifyData.ts:51 | the decimal text `toString` writes for a natural number is a non-empty run of digits whose value is that number |
| JsNumber.FromStringToString | src/verify/getSignatureParams.ts:30 | `Number()` of the text of any number gives that number back |
| JsObject.AssignGet | src/common/generateVerifyData.ts:56-59 | in a spread, the later object's property wins, and otherwise the earlier one's shows through |
| VerifyDataEntries.GenerateVerifyDataEntriesErrors | src/common/generateVerifyDataEntries.ts:25-56 | four checks in order: duplicates, clock, exact-case `Digest` without exact-case `Content-Type`, URL; the first failure decides the (lower-case) message, and success is exactly when all pass |
| VerifyDataEntries.ContentTypeCheckIsCaseSensitive | src/common/generateVerifyDataEntries.ts:40-42 | only the exact names `Digest` and `Content-Type` take part in the content-type check |
| VerifyDataEntries.GenerateVerifyDataEntriesSorted | src/common/generateVerifyDataEntries.ts:48-55 | on success the entries are a sorted permutation of the merged object's pairs |
| VerifyDataEntries.MergedDataContents | src/common/generateVerifyDataEntries.ts:48-53 | headers keep their own names and values; a derived field (`(request-target)` as the lower-cased method, a space and the path; `(created)`; `host`) is replaced only by a header of exactly its name |
| SignatureDictionary.GetSignatureData | src/common/getSignatureData.ts:28-79 | the loop that reassigns the accumulator returns exactly the walk's result |
| SignatureDictionary.WalkPrefix | src/common/getSignatureData.ts:37-76 | after a run of sound members, the accumulator holds exactly their records |
| SignatureDictionary.SignatureDataSuccess | src/common/getSignatureData.ts:37-78 | success exactly when no member fails, and then one record per member, in order |
| SignatureDictionary.FirstFailure | src/common/getSignatureData.ts:39-63 | the error is that of the first failing member (id seen before, missing field, no signature); nothing gathered earlier escapes |
| SignatureDictionary.DuplicateIdRejected | src/common/getSignatureData.ts:39-42 | an id met a second time gives "Invalid signature data" |
| SignatureDictionary.ExtraSignaturesIgnored | src/common/getSignatureData.ts:59-63 | signatures that no input member names play no part |
| LazyRegex.LazyEnd | src/verify/getSignatureParams.ts:20-23 | the end of the shortest group of at least one character, without line terminators, that is followed by the closing character |
| LazyRegex.ExecMeaning | src/verify/getSignatureParams.ts:20-23 | `exec` finds the leftmost match and its shortest group, and finds none exactly when no position matches |
| LazyRegex.ExecCapture | src/verify/getSignatureParams.ts:20-23 | a captured group is non-empty, occurs between the prefix and the closing character, holds no line terminator, and holds the closing character only at its first position |
| LazyRegex.NoCloseNoMatch | src/verify/getSignatureParams.ts:20-23 | with no closing character in the text, there is no match |
| LazyRegex.NoPrefixNoMatch | src/verify/getSignatureParams.ts:20-23 | with no occurrence of the prefix, there is no match |
| SignatureParamsParsing.GetSignatureParamsError | src/verify/getSignatureParams.ts:25-27 | the result is "Signature string is missing a required field" exactly when one of the four patterns matches nowhere |
| SignatureParamsParsing.GetSignatureParamsFields | src/verify/getSignatureParams.ts:28-33 | `keyId`, `headers` and `signature` are non-empty and occur as `name="…"`; `created` is `Number()` of a run `created=…,` |
| SignatureParamsParsing.CreatedNeedsComma | src/verify/getSignatureParams.ts:21 | a value without a comma is rejected |
| SignatureParamsParsing.KeyIdIsCaseSensitive | src/verify/getSignatureParams.ts:20 | without the exact text `keyId="` the value is rejected |
| LegacyVerification.TwinAgrees | src/verify/index.ts:22-37 | the throwing twin reads the same fields, and throws "signature string is missing a required field" exactly where the other returns its error |
| LegacyVerification.MatchingHeadersMeaning | src/verify/index.ts:80-82 | a header is kept, with its value, exactly when its lower-cased name is a substring of the `headers` text |
| JsText.IndexOfMeaning | src/verify/index.ts:80 | `indexOf` is non-negative exactly when the text occurs |
| LegacyVerification.NonStringSignatureRejects | src/verify/index.ts:73-76 | a non-string exact-case `Signature` rejects with "bad signature header - signature header must be a string" |
| LegacyVerification.MismatchRejects | src/verify/index.ts:91-94 | a header list different from the `headers` text rejects with "signature headers string mismatch" |
| LegacyVerification.HeaderListMismatchRejects | src/verify/index.ts:73-94 | in the whole pipeline, entries whose header list is not exactly the `headers` text reject with "signature headers string mismatch" before decoding or verifying |
| LegacyVerification.FulfilledIsVerifierAnswer | src/verify/index.ts:73-98 | a fulfilled promise is the verifier's own answer for the header's `keyId` and decoded signature, over the bytes of the entries built from the headers that match the `headers` text, whose header list equals that text |
| DigestCheck.VerifyDigest | src/verify/verifyDigest.ts:11-25 | true exactly when the digest is a single string, the body is present and its digest equals that string |
| DigestCheck.ListDigestNeverMatches | src/verify/verifyDigest.ts:16-18 | an array of digests is false, whatever the body |
| SignatureVerification.NonStringSignatureIsFalse | src/verify/verifySignatureHeader.ts:75-79 | a lower-case `signature` that is not a string gives `ok(false)` |
| SignatureVerification.UnreadableParamsIsFalse | src/verify/verifySignatureHeader.ts:80-84 | an unreadable signature header gives `ok(false)` |
| SignatureVerification.HeadersToVerifyMeaning | src/verify/verifySignatureHeader.ts:88-90 | the headers used are exactly those whose lower-cased name is a whole word of the split `headers` list, with their values |
| SignatureVerification.EarlyExitsAreFalse | src/verify/verifySignatureHeader.ts:92-126 | failures of verify-data construction, digest, ordering or decoding give `ok(false)`; a throwing `url.parse` gives the unexpected-error result |
| SignatureVerification.BodyIgnoredWithoutDigest | src/verify/verifySignatureHeader.ts:104-109 | without a header named `digest` in any case, the body plays no part |
| SignatureVerification.EntriesAccounted | src/verify/verifySignatureHeader.ts:120-133 | the last stage answers the verifier's boolean over the bytes of the ordered entries, a rejection as "Failed to verify signature header", or a throw |
| SignatureVerification.ParamsAccounted | src/verify/verifySignatureHeader.ts:92-133 | after parsing, the only errors are the two VerifyFailed ones; `ok(true)` and the rejection need the ordered entries to exist and the verifier to have answered so over their bytes |
| SignatureVerification.VerifyOutcomes | src/verify/verifySignatureHeader.ts:59-143 | the only errors are the two VerifyFailed messages; `ok(true)` needs the verifier to have resolved true for the header's `keyId`, its decoded signature and the bytes of the ordered entries; the rejection error needs the verifier to have rejected those |
| SignatureVerification.WholeTextStops | src/verify/verifySignatureHeader.ts:111-115 | when the first character of the `headers` text is not a name of the verify data, the answer is `ok(false)` |
| SignatureVerification.NoOneCharacterNames | src/verify/verifySignatureHeader.ts:88-97 | verify data built from headers without one-character names has no one-character name |
| SignatureVerification.AsWrittenNeverVerifies | src/verify/verifySignatureHeader.ts:111 | as written, when no header has a one-character name, the answer is `ok(false)` or the unexpected error, never the verifier's |
| SignatureVerification.IntendedReachesVerifier | src/verify/verifySignatureHeader.ts:111-133 | with the words of the list as covered fields, a well-formed request reaches the verifier over the entries in listed order |
| SignatureCreation.EmptyHeadersRefused | src/sign/createSignatureHeader.ts:79-81 | empty headers give MalformedInput "Http headers must not be empty" |
| SignatureCreation.ExistingPairMeaning | src/sign/createSignatureHeader.ts:84-90 | the existing path is taken exactly when both lower-cased `signature` and `signature-input` are strings |
| SignatureCreation.ChooseSignatureId | src/sign/createSignatureHeader.ts:84-123 | the imperative selection, with its loop and `break`, returns exactly the specified choice |
| SignatureCreation.FirstFreeFound | src/sign/createSignatureHeader.ts:105-111 | the number found is at most 99, its `sig<n>` is free, and every smaller one from the start is taken |
| SignatureCreation.FirstFreeNone | src/sign/createSignatureHeader.ts:105-114 | no number is found exactly when all of `sig1` to `sig99` are taken |
| SignatureCreation.GeneratedIdIsLowestFree | src/sign/createSignatureHeader.ts:105-114 | without a given id, the lowest free `sig<n>` is chosen, and "Could not find a valid signature id to use" comes exactly when none is free |
| SignatureCreation.FreshRequestChoice | src/sign/createSignatureHeader.ts:116-122 | without the existing pair, the given id or `sig1` is used and nothing is appended to |
| SignatureCreation.AsWrittenIdCheck | src/sign/createSignatureHeader.ts:99-103 | as written, a given id is refused exactly when it names a member of the `Ok` wrapper, whatever ids are in use |
| SignatureCreation.UsedIdExample | src/sign/createSignatureHeader.ts:99-103 | a request signed as `sig1` parses to data in which `sig1` is taken, yet `sig1` is not a wrapper member |
| SignatureCreation.IntendedIdIsFresh | src/sign/createSignatureHeader.ts:99-114 | corrected: a given id is refused exactly when it is in use, and every chosen id is new to the existing signatures |
| SignatureCreation.HeadersToSignMeaning | src/sign/createSignatureHeader.ts:125-134 | only `Content-Digest` can change, and it holds the body's digest when there is one |
| SignatureCreation.SignedStringEndsWithParams | src/sign/createSignatureHeader.ts:151-153 | the text whose bytes are signed is the covered entries' signature string, a newline, and the line `@signature-params: ` with the trimmed params |
| SignatureCreation.SignedHeadersFormat | src/sign/createSignatureHeader.ts:125-169 | `digest` is returned exactly when the body is truthy; the signer got the UTF-8 bytes of the five fixed covered fields' lines in order and then the `@signature-params` line; `signature` is the existing value and `", "` (when there is one), the id, `=:`, the base64 of the signer's bytes and `:`; `signatureInput` is the existing value and `", "`, the id, `=` and the params |
| SignatureCreation.SignWithIdErrors | src/sign/createSignatureHeader.ts:135-175 | verify-data and ordering failures give MalformedInput carrying their message; once both succeed, a rejected signer gives SignFailed with its message or "Unknown", a throwing signer gives the catch-all "An error occurred when signing signature header", and signing succeeds exactly when the signer returns bytes |
| SignatureCreation.IdChoiceErrors | src/sign/createSignatureHeader.ts:87-97 | with existing signature headers, a throw from either dictionary parser gives the catch-all SignFailed, and a `getSignatureData` error gives MalformedInput with its message, which is the only source of MalformedInput there |
| SignatureCreation.CreateSignatureHeader | src/sign/createSignatureHeader.ts:64-176 | the method returns exactly the specified outcome: empty-headers check, id choice, then signing |

## Left out

- Cryptography: the `sign` and `verify` calls are parameters. So are SHA-256 with JSON canonicalisation (`generateDigest`), base64 encoding and decoding, `url.parse`, the structured-field `parseDictionary`, `splitWithSpace` and `generateSignatureParams`, whose source is not part of this model.
- Promises are flattened. The signer and the verifier each resolve, reject or throw. `url.parse` and `parseDictionary` each answer or throw, and the enclosing `try` catches the throw.
- `Date.now()` is the argument `now`.
- Debug logging, the request adapters (`signRequest`, `verifyRequest`), the cryptographic primitives and the error-class plumbing are not part of this model.
- Lower-casing covers ASCII letters only. Other characters keep their case.
- Strings are sequences of code points. The default sort compares code points, not UTF-16 units.
- `Number()` reads optional white space, a sign and decimal digits, plus `Infinity`. Fractions, exponents and hexadecimal text read as NaN here, and values beyond double precision are exact.
- Objects keep insertion order for every name. JavaScript's order for integer-like names is not modelled.
- The parsed `Signature` dictionary is a map from id to the member's signature text. `Object.values(signatureMap[0])[0]` is that extraction and is not modelled.
- Parameters of a `Signature-Input` member are modelled as a bare-item value. Tokens and byte sequences count as truthy objects.
- In `createSignatureHeader`, `generateVerifyData` is called with no `created` argument, unlike the modelled `generateVerifyData.ts`. That call is the parameter `verifyDataOf`. The ordering call uses the modelled `generateSortedVerifyDataEntries` with the fixed covered-field list.
- A throw from the digest, `verifyDataOf`, `signatureParamsOf` or `base64Encode` inside `createSignatureHeader`'s `try` is not modelled. Those collaborators are total.
- `url.parse` in the two verify-data builders is modelled by its answer: optional host and path.
- In `verifySignatureHeader`, the body digest, `splitWithSpace` and `decodeBase64Url` are total. A throw from any of them inside the `try`, which the source catches as the unexpected-error result, is not modelled.
- DigestCheck.VerifyDigest: the third argument, the digest algorithm name, is dropped. `generateDigest` takes only the body, and the caller at src/verify/verifySignatureHeader.ts:106 passes only two arguments.
- SignatureVerification.VerifySignatureHeader: the `headers` text has no default in this model. The parser always captures it on success, so the `= ""` default is never used.
- DefaultSort.SortSortedPermutation: stability among entries with equal text is not stated.

## Findings

| source | as written | input that shows it | evidently intended | confidence | as-written member | corrected member |
|---|---|---|---|---|---|---|
| src/verify/verifySignatureHeader.ts:111 | the `headers` text is passed as the covered-fields list, so `all` and `reduce` walk its characters as one-character names | any request whose headers have names longer than one character, e.g. `headers="host"` with a `host` header: `h` is not a name, so the answer is `ok(false)` | the words of the space-split list are the covered fields | not executed | SignatureVerification.AsWrittenNeverVerifies | SignatureVerification.IntendedReachesVerifier |
| src/sign/createSignatureHeader.ts:100 | `signatureId in existingSignatureData` tests the `Ok` wrapper's member names (`value`, `map`, `isOk`, …) instead of the existing signature ids | an existing `sig1` signature and `signatureId: "sig1"`: the id is accepted and the headers get a second `sig1` member; `signatureId: "map"` is refused although unused | test `.value`, as the default-id loop at line 107 does | not executed | SignatureCreation.AsWrittenIdCheck | SignatureCreation.IntendedIdIsFresh |
