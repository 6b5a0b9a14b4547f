# signum-js client core, modelled in Dafny

signum-js builds authentication requests in the browser. Each login or sign-up request
is sent under a server-issued policy document, the *server instructions*. That document
carries three things:

- which optional protections the server wants: a hashcash proof of work, a CSRF token,
  a captcha flag;
- how a passphrase is to be *tolerated*: a normalisation chain applied before hashing;
- how the passphrase is to be *hashed*: PBKDF2 cycles, result length, and salting by
  username.

The client checks every argument and validates the document against three constraint
tables. It then:

1. normalises the passphrase;
2. hashes it;
3. solves the hashcash puzzle if one is required;
4. assembles the headers;
5. hands one POST descriptor to the caller's transport function and returns its answer.

The model covers those steps. It has one module per concern:

| module | file | what it holds |
|---|---|---|
| `Wrappers` | wrappers.dfy | `Option` and `Result` |
| `Strings` | strings.dfy | filtering, counting, subsequences, decimal rendering, split and join |
| `JsValue` | jsvalue.dfy | JavaScript values of the policy document: truthiness, property reads (last duplicate key wins, string-method names on strings), deep lookup, template-literal conversion, `\s` whitespace, UTF-16 length |
| `Validation` | validation.dfy | the part of validate.js the tables use (`presence`, `type`, `numericality`) as a rule interpreter returning structured violations in flat-format order |
| `ServerInstructions` | server_instructions.dfy | the three constraint tables, each with a plain predicate of validity and an if-and-only-if proof |
| `PasswordTolerance` | password_tolerance.dfy | `buildNormalizers` and `normalize`, and the five normalisation steps, each with an independent characterisation |
| `Encoding` | encoding.dfy | UTF-8, lowercase hex, base64 (section 4 of RFC 4648) as `btoa`, the hex-to-binary rendering of a digest, and SHA-1 and PBKDF2 known only by their output lengths |
| `Hashcash` | hashcash.dfy | the `yyyymmdd-HHMMss` timestamp, the six-field candidate header, the acceptance test, and the counter search (as a function and as a loop) |
| `Signum` | signum.dfy | `processAuthentication`, `executeLogin`, `executeSignup`, `normalizePassphrase` and `hashPasstext` |

Nothing in the model touches the outside world. These are parameters of the call (the
`Environment` datatype):

- the SHA-1 and PBKDF2 functions;
- the public IP address;
- the clock reading;
- the decimal text of the random draw;
- the engine's rendering of non-integral numbers;
- a bound on the number of hashcash candidates.

The transport is a function argument, and its answer is returned unchanged.

Where the code and the repository's tests or documentation disagree, the model follows
the code, with one exception. The punctuation step's bracket class leaves out the backslash
(src/passwordTolerance.js:67). The model keeps that step as written in
`RemovePunctuationAsWritten`, but the normalisation chain runs the corrected class; see
"## Findings" and "## Left out". The other disagreements, all decided for the code:

- **`hashcash.zeroCount` bound.** It is checked against at most 50 (src/serverInstructions.js:18). The login tests expect 10.
- **Minimal-length key.** The tolerance key is `passphraseMinimalLength` (src/serverInstructions.js:71). The tolerance tests use `minimalLength`.
- **captcha.** It is always a required argument, and `X-captcha` is always sent (src/signum.js:51-53, 87). It does not depend on the `captcha.require` flag.
- **authUrl.** It is only checked for truthiness; it is not parsed as a URL (src/signum.js:55-57).
- **Hashcash redraw.** The hashcash search never draws a second random string. The inner loop bound `Number.MAX_VALUE - 1` equals `Number.MAX_VALUE` as a double, and a double counter stops growing at 2^53. So the inner loop never ends by exhausting its counter, and the outer loop's redraw is never reached (src/utils.js:58-76).

## Model

| member | source | states |
|---|---|---|
| PasswordTolerance.BuildNormalizers | src/passwordTolerance.js:15-39 | a step is selected exactly when its flag reads truthy on the `normalizers` value (string-method names count as truthy on a string), and the selected steps are strictly in the fixed order lowerCase, trim, whitespacesToDash, digitsToSingleZero, removePunctuation |
| PasswordTolerance.BuildNormalizersDependsOnlyOnFlags | src/passwordTolerance.js:15-39 | two policy objects whose five flags agree in truthiness select the same steps |
| PasswordTolerance.BuildNormalizersIgnoresKeyOrder | src/passwordTolerance.js:15-39 | permuting the keys of a policy object without repeated keys never changes the selected steps |
| PasswordTolerance.Normalize | src/passwordTolerance.js:7-13 | applying the selected steps never lengthens the passphrase, and an empty chain returns it unchanged |
| PasswordTolerance.NormalizeAppend | src/passwordTolerance.js:7-13 | running a chain equals running its first part and then the rest on the intermediate result |
| PasswordTolerance.NormalizeWithoutFlags | src/passwordTolerance.js:1-39 | a policy with no truthy flag leaves every passphrase unchanged |
| PasswordTolerance.ToLowerCase | src/passwordTolerance.js:42-46 | same length; no upper-case letter is left; each upper-case letter is replaced by its lower-case form; every other character is kept in place |
| PasswordTolerance.ToLowerCaseIdempotent | src/passwordTolerance.js:42-46 | lower-casing twice equals lower-casing once |
| PasswordTolerance.Trim | src/passwordTolerance.js:48-52 | the result is a contiguous slice of the input with only whitespace cut on either side, and it neither starts nor ends with whitespace |
| PasswordTolerance.TrimIdempotent | src/passwordTolerance.js:48-52 | trimming twice equals trimming once |
| PasswordTolerance.WhitespacesToDash | src/passwordTolerance.js:53-57 | no whitespace is left; the result equals the one-character-at-a-time scanner that emits one dash per maximal whitespace run; the characters that are neither whitespace nor dash keep their order |
| PasswordTolerance.WhitespacesToDashIdempotent | src/passwordTolerance.js:53-57 | replacing whitespace runs twice equals doing it once |
| PasswordTolerance.DigitsToSingleZero | src/passwordTolerance.js:59-63 | no two adjacent digits and no digit other than '0' are left; the result equals the scanner that emits one '0' per maximal digit run; the non-digits keep their order |
| PasswordTolerance.DigitsToSingleZeroIdempotent | src/passwordTolerance.js:59-63 | collapsing digit runs twice equals doing it once |
| PasswordTolerance.CollapseRunsMatchesScan | src/passwordTolerance.js:53-63 | the run-dropping replacement agrees on every input with an independent scanner that marks only the character opening a run |
| PasswordTolerance.CollapseRunsCollapsed | src/passwordTolerance.js:53-63 | after the replacement no two neighbours are both in the class, and every class character left is the mark |
| PasswordTolerance.CollapseRunsFixed | src/passwordTolerance.js:53-63 | a string whose runs are already collapsed is left unchanged |
| PasswordTolerance.CollapseRunsKeepsOthers | src/passwordTolerance.js:53-63 | characters outside the class, other than the mark, survive in order |
| PasswordTolerance.CollapseRunsAppend | src/passwordTolerance.js:53-63 | a split point that does not cut a run lets the replacement work piece by piece |
| PasswordTolerance.RemovePunctuation | src/passwordTolerance.js:67 | the corrected class of the "## Findings" row, not the class as written: no ASCII punctuation, backslash included, is left; the result is a subsequence of the input; every other character occurs exactly as often as before |
| PasswordTolerance.RemovePunctuationIdempotent | src/passwordTolerance.js:67 | for the corrected class of the "## Findings" row: removing punctuation twice equals removing it once |
| PasswordTolerance.RemovePunctuationIsWrittenWithoutBackslash | src/passwordTolerance.js:65-69 | the corrected step equals the step as written followed by dropping every backslash, so on a passphrase without a backslash the model and the code agree |
| PasswordTolerance.PunctuationAsWrittenMissesBackslash | src/passwordTolerance.js:67 | the bracket class as written is exactly ASCII punctuation minus the backslash |
| PasswordTolerance.RemovePunctuationAsWritten | src/passwordTolerance.js:65-69 | no character of the written class is left; the result is a subsequence of the input; every other character, the backslash included, occurs exactly as often as before |
| PasswordTolerance.RemovePunctuationAsWrittenIdempotent | src/passwordTolerance.js:65-69 | the step as written, applied twice, equals applying it once |
| PasswordTolerance.RemovePunctuationAsWrittenKeepsBackslash | src/passwordTolerance.js:67 | on `a\b` the step as written returns its input, which still holds a punctuation character |
| PasswordTolerance.Apply | src/passwordTolerance.js:42-69 | no single step lengthens the passphrase |
| PasswordTolerance.ApplyIdempotent | src/passwordTolerance.js:42-69 | every step is idempotent |
| JsValue.Get | src/signum.js:129 | a property read is undefined exactly when no binding has the key; otherwise it returns the last binding of that key |
| JsValue.GetIgnoresKeyOrder | src/passwordTolerance.js:18-36 | in an object without repeated keys, reordering the bindings never changes a read |
| JsValue.PathTruthyIsTruthyLookup | src/serverInstructions.js:12-14 | the guarded `&&` chain over a path is truthy exactly when the value the validator looks up at that path is truthy, when the last key names no string method |
| Validation.NumericKinds | src/serverInstructions.js:15-19 | no violation exactly when the value satisfies every numericality option; a non-number gives only "is not a number"; a fraction under `onlyInteger` gives only "must be an integer" |
| Validation.CheckRule | src/signum.js:71-77 | a rule reports nothing exactly when the value it looks up passes its presence, type and numericality checks; every report names the rule's attribute |
| Validation.ValidIff | src/signum.js:71-77 | the document is valid exactly when every rule of the table holds |
| Validation.ValidateNamesTableAttributes | src/signum.js:71-77 | every reported violation names an attribute of some rule of the table |
| Validation.ValidateHasNoDuplicates | src/signum.js:71-77 | over a table with distinct attributes no violation is reported twice, so the flat format's deduplication changes nothing |
| Validation.AboutValidate | src/signum.js:71-77 | everything reported about one attribute of a table with distinct attributes comes from that attribute's own rule |
| Validation.PresenceFailsOnlyWhenUndefinedOrEmpty | src/serverInstructions.js:6-8 | presence always fails on an undefined value, and otherwise only on a string, array or object |
| ServerInstructions.AuthenticationValidIff | src/serverInstructions.js:1-44 | the authentication table reports nothing exactly when: each `require` flag is a boolean when given; each flag is given whenever its parent is truthy; both hashcash parameters are present when hashcash is required; a present zeroCount is an integer in 1..50 |
| ServerInstructions.RequireRuleHolds | src/serverInstructions.js:5-10 | a `require` flag's rule holds exactly when the flag is given whenever its parent is truthy and is a boolean whenever given |
| ServerInstructions.HashcashParameterRulesHold | src/serverInstructions.js:11-25 | once the flag's rule holds, zeroCount's rule holds exactly when it is present when required and an integer in 1..50 when present; serverString's holds exactly when it is present when required |
| ServerInstructions.AuthenticationRuleMeanings | src/serverInstructions.js:1-44 | the three flag rules mean their `require` predicate; the three parent rules (`presence: false`) never report anything |
| ServerInstructions.ZeroCountReports | src/serverInstructions.js:11-20 | what is reported about `hashcash.zeroCount` in the whole report: "can't be blank" exactly when demanded and missing; only "is not a number" for a non-number, preceded by "can't be blank" when the value is empty and the `require` flag is an object carrying `allowEmpty: false`; only "must be an integer" for a fraction; for an integer, the failed bounds, lower first |
| ServerInstructions.MissingHashcashParameters | src/serverInstructions.js:11-25 | `{hashcash: {require: true}}` yields exactly two violations, zeroCount blank then serverString blank |
| ServerInstructions.EmptyDocumentIsValid | src/serverInstructions.js:1-44 | a document with none of the optional keys is valid |
| ServerInstructions.EmptyCsrfTokenDemandsFlag | src/serverInstructions.js:26-34 | `{csrfToken: {}}` yields exactly one violation: the missing `csrfToken.require` |
| ServerInstructions.EmptyCaptchaDemandsFlag | src/serverInstructions.js:35-43 | `{captcha: {}}` yields exactly one violation: the missing `captcha.require` |
| ServerInstructions.ToleranceValidIff | src/serverInstructions.js:47-78 | the tolerance table reports nothing exactly when every given normaliser flag is a boolean and `passphraseMinimalLength` is an integer of at least 20 |
| ServerInstructions.NormalizerFlagRulesHold | src/serverInstructions.js:51-70 | each normaliser flag's rule holds exactly when the flag is a boolean whenever given |
| ServerInstructions.MinimalLengthRuleHolds | src/serverInstructions.js:71-77 | the minimal-length rule holds exactly when the value is an integer of at least 20 |
| ServerInstructions.HashingValidIff | src/serverInstructions.js:80-100 | the hashing table reports nothing exactly when `hashCycles` is an integer of at least 1, `resultLength` is an even integer of at least 20, and a given `saltHashByUsername` is a boolean |
| ServerInstructions.HashCyclesRuleHolds | src/serverInstructions.js:81-87 | the `hashCycles` rule holds exactly when it is an integer of at least 1 |
| ServerInstructions.ResultLengthRuleHolds | src/serverInstructions.js:88-95 | the `resultLength` rule holds exactly when it is an even integer of at least 20 |
| ServerInstructions.SaltRuleHolds | src/serverInstructions.js:96-99 | the salting rule holds exactly when a given `saltHashByUsername` is a boolean |
| ServerInstructions.ValidHashingKeyLength | src/serverInstructions.js:88-95 | on a valid hashing policy, half of `resultLength` is a whole number of at least ten |
| Encoding.Utf8RoundTrip | src/utils.js:45-47 | decoding the UTF-8 bytes of a string gives the string back |
| Encoding.HexRoundTrip | src/utils.js:40 | decoding the lowercase hex of a byte string gives the bytes back |
| Encoding.GroupRoundTrip | src/utils.js:45-47 | four base64 digits decode to the three bytes they encode |
| Encoding.Base64RoundTrip | src/utils.js:45-47 | strict base64 decoding inverts base64 encoding on every byte string |
| Encoding.Base64Length | src/utils.js:45-47 | base64 output has four characters per started group of three bytes |
| Encoding.Base64HasNoColon | src/utils.js:45-47 | base64 output is made only of base64 digits and `=`, so it holds no colon |
| Encoding.Btoa | src/utils.js:45-47 | `btoa` output never contains a colon |
| Encoding.BtoaLength | src/utils.js:45-47 | `btoa` output length from the UTF-8 length, and from the character count on ASCII text |
| Encoding.BtoaRoundTrip | src/utils.js:45-47 | base64-decoding and then UTF-8-decoding `btoa(s)` gives `s` back |
| Encoding.Pbkdf2Hex | src/utils.js:32-43 | the derived key as hex: `2 * keylen` lowercase hex digits that decode to the key derived from the UTF-8 password and salt |
| Encoding.BinaryHash | src/utils.js:65-67 | the hex-to-binary rendering of a SHA-1 digest is 160 characters: the digest's bits, most significant first |
| Encoding.HexToBinaryOfHex | src/utils.js:65-67 | rendering a digest as hex and then as binary equals writing out its bits |
| Encoding.BitsValue | src/utils.js:65-69 | the binary rendering denotes the digest read as a big-endian number |
| Encoding.LeadingZerosIffSmall | src/utils.js:69 | a binary numeral starts with `k` zeros exactly when its value is below 2^(length - k) |
| Hashcash.FormatTimestamp | src/utils.js:52 | the timestamp contains no colon |
| Hashcash.TimestampFields | src/utils.js:52 | a valid clock reading renders as fifteen characters with `-` at position 8, and each of the six fields reads back as its number |
| Hashcash.CandidateFields | src/utils.js:63 | a candidate header splits at colons into exactly its six fields, given colon-free timestamp, IP, server string and random string |
| Hashcash.CandidateReadsBack | src/utils.js:59-63 | the first field of a candidate parses to `zeroCount`, the fourth is the server string, and the last decodes to the counter's decimal text |
| Hashcash.AcceptsIffSmallDigest | src/utils.js:65-69 | a header is accepted exactly when its SHA-1 digest, as a 160-bit number, is below 2^(160 - zeroCount); nothing is accepted for zeroCount above 160 |
| Hashcash.JsIncrement | src/utils.js:62-74 | `counter++` adds one below 2^53 and leaves the counter unchanged from there on |
| Hashcash.SearchFindsLeast | src/utils.js:58-76 | the search returns the least accepted counter of the window it reaches; it finds nothing only when the whole window is rejected |
| Hashcash.FirstAccepted | src/utils.js:58-76 | the counter loop returns an accepted counter with every smaller counter rejected, or nothing when every counter it tried was rejected |
| Hashcash.GenerateHashCash | src/utils.js:49-82 | the returned header is the candidate of an accepted counter, every smaller counter rejected; `None` only when all tried counters were rejected |
| Hashcash.SolveFindsLeast | src/utils.js:58-76 | the functional solver returns a header exactly when the search finds a counter, and then it is that counter's accepted candidate |
| Signum.FirstMissingIn | src/signum.js:43-69 | the reported position is the first argument, in check order, that is missing; none is reported exactly when all are present |
| Signum.FirstMissingArgumentReported | src/signum.js:43-69 | the first missing argument (username, passtext, captcha, authUrl, serverInstructions, referer, state) decides the error, whatever else the call holds |
| Signum.BadInstructionsFailFirst | src/signum.js:71-77 | a document violating the authentication table fails with the whole report before any hashing, clock or network use |
| Signum.NormalizePassphrase | src/signum.js:112-134 | fails exactly when the passphrase is empty, the tolerance policy is falsy, or the policy is invalid; the result is never longer than the input; it is the input itself when normalisation does not apply |
| Signum.NormalizeOnValidPolicy | src/signum.js:129-133 | on a valid policy the passphrase is normalised exactly when `normalizers` is truthy and the UTF-16 length reaches `passphraseMinimalLength` |
| Signum.UsernameRefusedIffBlank | src/signum.js:156-161 | a string username is refused exactly when it is whitespace only, and then only as blank |
| Signum.BlankUsernameRefused | src/signum.js:155-161 | with `saltHashByUsername` truthy, a whitespace-only username fails the hashing with a blank report |
| Signum.HashPasstext | src/signum.js:136-166 | fails exactly when the passtext is empty, the hashing policy is falsy or invalid, a salting username is blank, or `hashCycles` or `resultLength / 2` exceeds the int32 range that `crypto.pbkdf2` accepts (its `ERR_OUT_OF_RANGE` rejection, reached through src/utils.js:32-43, is the last of these checks); otherwise `2 * keylen` lowercase hex digits decoding to the key derived from the passtext, salted by the username only when `saltHashByUsername` is truthy |
| Signum.ValidHashingArguments | src/signum.js:147-165 | on a valid hashing policy the key length is exactly half of `resultLength` and at least ten, and the iteration count is `hashCycles`, at least one |
| Signum.HashedLengthIsResultLength | src/signum.js:165 | a hashed passtext has exactly `resultLength` characters |
| Signum.ValidZeroCount | src/signum.js:71-92 | on a valid document requiring hashcash, the zeroCount passed to the solver is its integer value, between 1 and 50 |
| Signum.HeaderDecisionTable | src/signum.js:83-108 | the request is a POST of `state` with `referer`; its first four headers are always there; `X-Hashcash` is present exactly when hashcash is required, and then it is fifth; `X-Csrf-Token` is present exactly when the CSRF flag is truthy, and then it is last and non-empty |
| Signum.MissingCsrfTokenRefused | src/signum.js:95-98 | a truthy CSRF flag without a token fails the call instead of leaving the header out |
| Signum.HashcashHeaderAccepted | src/signum.js:90-93 | a sent `X-Hashcash` header is the least accepted candidate of this call's stamp |
| Signum.ResponseReturnedUnchanged | src/signum.js:103-108 | the transport is called exactly when a request was built, with the auth URL and that request, and its answer is returned unchanged |
| Signum.LoginSignupAgree | src/signum.js:10-38 | login and sign-up send the same request and return the same answer |

## Left out

- SHA-1 and PBKDF2-HMAC-SHA-512 are function parameters whose only known property is their output length. Their internals are not modelled.
- `getPublicIp` and `fetchUrl` (src/utils.js:6-30) are network calls. The IP address is an input, and the transport is a function argument.
- The clock (`new Date()`) and `Math.random()` are inputs: a calendar reading, and the decimal text of the random draw. The floating-point arithmetic that produces the draw is not modelled.
- The asynchronous control flow (`async`/`await`, promises) and the `console.log` calls are not modelled.
- Hashcash.GenerateHashCash: the source loops until it finds a header. The model stops after `fuel` candidates and reports that nothing was found, which the request builder turns into the `StillSearching` outcome. It does not model the outer redraw of the random string, which the source never reaches.
- Hashcash.JsIncrement: models the double counter only by its integer behaviour up to 2^53 and its sticking there. Other floating-point effects are not represented.
- Validation.NumericKinds: validate.js reads a numeric string such as `"25"` as a number. The model reports every string as "is not a number".
- Signum.NormalizePassphrase: a minimal length that is not a number never lets normalisation run. On a valid policy it is always a number, so this is only a simplification outside valid documents.
- PasswordTolerance.ToLowerCase: `toLowerCase` folds only ASCII letters. Unicode case mapping is not modelled.
- PasswordTolerance.Apply: its punctuation case runs the corrected class of "## Findings" (`RemovePunctuation`), not the class as written, so a backslash is removed where the code keeps it. `RemovePunctuationIsWrittenWithoutBackslash` states that this is the only difference.
- PasswordTolerance.ApplyIdempotent: for the punctuation step it proves idempotence of the corrected class. `RemovePunctuationAsWrittenIdempotent` proves the same for the class as written.
- PasswordTolerance.Normalize: a chain with the punctuation step runs the corrected class, as `Apply` does, so its result differs from the code's exactly by the backslashes the code keeps.
- Signum.NormalizePassphrase: when `removePunctuation` is truthy, the normalised passphrase has no backslash, where the code keeps them; it runs the corrected class through `Normalize`. `BuildRequest` and `ProcessAuthentication` therefore hash that passphrase without its backslashes.
- Signum.HashPasstext: the username is always a string. The source's type check only matters for non-string usernames, which the model does not represent.
- `isSignupAuth` is accepted and unused, as in the source. The password strength check mentioned in its TODO does not exist and is not modelled.
- Error message texts, `JSON.stringify` of the violation list, and validate.js's message prettifying are not modelled. Errors carry the structured violations instead.
- Number formatting of non-integral values in template literals is an engine function passed in.
- The root signum.js re-export, the browser tests and the strength tests are outside this model.
- The golden outputs of the normalisation tests on their shared 43-character passphrase are not proved. Symbolic evaluation of a literal of that length exceeds the proof budget. The step-by-step properties are proved for all inputs instead.

## Findings

| source | as written | input that shows it | evidently intended | confidence | as-written member | corrected member |
|---|---|---|---|---|---|---|
| src/passwordTolerance.js:67 | the bracket class contains `\]`, which is an escaped `]`, so the backslash itself is not in the class | `a\b` comes back unchanged although `\` is ASCII punctuation | remove all 32 ASCII punctuation characters, backslash included | high, not executed | PasswordTolerance.RemovePunctuationAsWrittenKeepsBackslash | PasswordTolerance.RemovePunctuation |
