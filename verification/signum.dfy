/**
 The request builder of src/signum.js: `processAuthentication` and its two wrappers,
 `normalizePassphrase` and `hashPasstext`. A call either fails with the error the source
 would throw, keeps searching for a hashcash stamp, or hands one POST descriptor to the
 transport and returns the transport's answer.
 */
module Signum {
  import opened Wrappers
  import opened JsValue
  import opened Strings
  import opened Validation
  import opened ServerInstructions
  import opened PasswordTolerance
  import opened Encoding
  import opened Hashcash

  // ---------------------------------------------------------------------------
  // Inputs, errors and results.

  /** The arguments reported as "<name> is null or empty". */
  datatype Argument =
    | Username | Passtext | Captcha | AuthUrl | Instructions | Referer | State
    | Passphrase | ToleranceInstructions | HashingInstructions | CsrfToken

  /** What the source throws. Violations and kinds stand for the JSON text of the
      validator's report. */
  datatype Error =
    | NullOrEmpty(argument: Argument)
    | BadServerInstructions(violations: seq<Violation>)
    | BadUsername(kinds: seq<Kind>)
    | KdfArgumentOutOfRange

  /** The arguments of `processAuthentication`. The string arguments are strings, the
      empty string also standing for `null` and `undefined` (all three are falsy and give
      the same error); `JNull` stands for a missing object. */
  datatype Call = Call(
    username: string, passtext: string, captcha: string, authUrl: string,
    serverInstructions: Json, referer: string, state: Json, csrfToken: string)

  /** What the source obtains from the outside world: the two hash functions, the public IP
      address, the clock reading, the decimal text of the random draw, the engine's
      rendering of non-integral numbers, and a bound on the number of hashcash candidates. */
  datatype Environment = Environment(
    sha1: Sha1, kdf: Pbkdf2, ip: string, now: DateTime, draw: string,
    renderNumber: real -> string, fuel: nat)

  /** The descriptor passed to the transport: `{method, headers, body, referrer}`, the
      method under the name `verb`. */
  datatype Request = Request(verb: string, headers: seq<(string, string)>, body: Json, referrer: string)

  /** A built request, a thrown error, or a hashcash search that has not finished within
      the fuel bound (the source would still be looping). */
  datatype Prepared = Ready(request: Request) | Rejected(error: Error) | Unsolved

  datatype Outcome<R> = Sent(response: R) | Failed(error: Error) | StillSearching

  // ---------------------------------------------------------------------------
  // The argument checks.

  /** The arguments in the order the source checks them. */
  const InputOrder: seq<Argument> := [Username, Passtext, Captcha, AuthUrl, Instructions, Referer, State]

  predicate Missing(c: Call, a: Argument)
  {
    match a
    case Username => c.username == ""
    case Passtext => c.passtext == ""
    case Captcha => c.captcha == ""
    case AuthUrl => c.authUrl == ""
    case Instructions => !Truthy(c.serverInstructions)
    case Referer => c.referer == ""
    case State => !Truthy(c.state)
    case _ => false
  }

  /** Position in `order` of the first missing argument. */
  function FirstMissingIn(c: Call, order: seq<Argument>): (r: Option<nat>)
    ensures r.None? <==> forall k :: 0 <= k < |order| ==> !Missing(c, order[k])
    ensures r.Some? ==> r.value < |order| && Missing(c, order[r.value])
                        && forall j :: 0 <= j < r.value ==> !Missing(c, order[j])
  {
    if order == [] then None
    else if Missing(c, order[0]) then Some(0)
    else match FirstMissingIn(c, order[1..])
      case None => None
      case Some(k) => Some(k + 1)
  }

  function FirstMissing(c: Call): Option<nat>
  {
    FirstMissingIn(c, InputOrder)
  }

  // ---------------------------------------------------------------------------
  // normalizePassphrase

  /** `passphrase.length >= serverInstructions.passphraseMinimalLength`; a valid policy
      always holds a number there. */
  predicate LongEnough(doc: Json, passphrase: string)
  {
    match Lookup(doc, ["passphraseMinimalLength"])
    case Some(JNum(n)) => Utf16Length(passphrase) as real >= n
    case _ => false
  }

  /** The gate: normalisation runs when `normalizers` is truthy and the passphrase is long
      enough. No `String.prototype` method is called `normalizers`. */
  predicate NormalizationApplies(doc: Json, passphrase: string)
  {
    TruthyAt(Prop(doc, "normalizers")) && LongEnough(doc, passphrase)
  }

  function NormalizePassphrase(passphrase: string, tolerance: Option<Json>): (r: Result<string, Error>)
    ensures r.Err? <==> passphrase == "" || !TruthyAt(tolerance) || Validate(tolerance.value, Tolerance) != []
    ensures r.Ok? ==> |r.value| <= |passphrase|
    ensures r.Ok? && !NormalizationApplies(tolerance.value, passphrase) ==> r.value == passphrase
  {
    if passphrase == "" then Err(NullOrEmpty(Passphrase))
    else if !TruthyAt(tolerance) then Err(NullOrEmpty(ToleranceInstructions))
    else
      var doc := tolerance.value;
      var violations := Validate(doc, Tolerance);
      if violations != [] then Err(BadServerInstructions(violations))
      else if NormalizationApplies(doc, passphrase) then
        Ok(Normalize(BuildNormalizers(Prop(doc, "normalizers").value), passphrase))
      else Ok(passphrase)
  }

  /** On a valid policy, the passphrase is normalised exactly when a truthy `normalizers`
      object is given and the passphrase has at least `passphraseMinimalLength` UTF-16
      units; the steps are those whose flag is `true`, in the fixed order. */
  lemma NormalizeOnValidPolicy(passphrase: string, doc: Json)
    requires passphrase != "" && Truthy(doc) && ToleranceOk(doc)
    ensures var minimal := Lookup(doc, ["passphraseMinimalLength"]).value.n;
            var normalizers := Prop(doc, "normalizers");
            NormalizePassphrase(passphrase, Some(doc)) ==
              if TruthyAt(normalizers) && Utf16Length(passphrase) as real >= minimal
              then Ok(Normalize(BuildNormalizers(normalizers.value), passphrase))
              else Ok(passphrase)
  {
    ToleranceValidIff(doc);
  }

  // ---------------------------------------------------------------------------
  // hashPasstext

  /** `validate.single(username, {presence: {allowEmpty: false}, type: "string"})`. */
  const UsernameRule: Rule := Rule([], Required(false), Some(String), None)

  function UsernameKinds(username: string): seq<Kind>
  {
    Kinds(JStr(username), UsernameRule)
  }

  /** A string username is refused exactly when it is whitespace only, and then only as blank. */
  lemma UsernameRefusedIffBlank(username: string)
    ensures UsernameKinds(username) == if forall i :: 0 <= i < |username| ==> IsWhitespace(username[i]) then [Blank] else []
  {
  }

  /** `serverInstructions.saltHashByUsername`, read for truthiness. */
  predicate SaltedByUsername(doc: Json)
  {
    TruthyAt(Prop(doc, "saltHashByUsername"))
  }

  /** `hashCycles` and `resultLength / 2` as the key-derivation arguments; a valid policy
      holds whole numbers there. */
  function Iterations(doc: Json): nat
  {
    match Lookup(doc, ["hashCycles"])
    case Some(JNum(n)) => if n >= 0.0 then n.Floor else 0
    case _ => 0
  }

  function KeyLength(doc: Json): nat
  {
    match Lookup(doc, ["resultLength"])
    case Some(JNum(n)) => if n >= 0.0 then (n / 2.0).Floor else 0
    case _ => 0
  }

  /** On a valid policy the key has exactly half as many bytes as `resultLength` asks
      for, at least ten, and the iteration count is `hashCycles`, at least one. */
  lemma ValidHashingArguments(doc: Json)
    requires Validate(doc, Hashing) == []
    ensures Lookup(doc, ["resultLength"]).Some? && Lookup(doc, ["resultLength"]).value.JNum?
    ensures Lookup(doc, ["hashCycles"]).Some? && Lookup(doc, ["hashCycles"]).value.JNum?
    ensures 2.0 * KeyLength(doc) as real == Lookup(doc, ["resultLength"]).value.n
    ensures KeyLength(doc) >= 10
    ensures Iterations(doc) as real == Lookup(doc, ["hashCycles"]).value.n && Iterations(doc) >= 1
  {
    HashingValidIff(doc);
    ValidHashingKeyLength(doc);
  }

  /** The largest iteration count and key length Node's `crypto.pbkdf2` accepts; beyond
      it the call throws `ERR_OUT_OF_RANGE` and the returned promise rejects. */
  const Int32Max: nat := 0x7fff_ffff

  function HashPasstext(kdf: Pbkdf2, passtext: string, hashing: Option<Json>, username: string): (r: Result<string, Error>)
    ensures r.Err? <==> || passtext == "" || !TruthyAt(hashing) || Validate(hashing.value, Hashing) != []
                        || (SaltedByUsername(hashing.value) && UsernameKinds(username) != [])
                        || Iterations(hashing.value) > Int32Max || KeyLength(hashing.value) > Int32Max
    ensures r == Err(KdfArgumentOutOfRange) <==>
              && passtext != "" && TruthyAt(hashing) && Validate(hashing.value, Hashing) == []
              && !(SaltedByUsername(hashing.value) && UsernameKinds(username) != [])
              && (Iterations(hashing.value) > Int32Max || KeyLength(hashing.value) > Int32Max)
    ensures r.Ok? ==>
              var salt := if SaltedByUsername(hashing.value) then username else "";
              && |r.value| == 2 * KeyLength(hashing.value)
              && (forall i :: 0 <= i < |r.value| ==> IsLowerHex(r.value[i]))
              && HexDecode(r.value) == Some(kdf(Utf8(passtext), Utf8(salt), Iterations(hashing.value), KeyLength(hashing.value)))
  {
    if passtext == "" then Err(NullOrEmpty(Passtext))
    else if !TruthyAt(hashing) then Err(NullOrEmpty(HashingInstructions))
    else
      var doc := hashing.value;
      var violations := Validate(doc, Hashing);
      if violations != [] then Err(BadServerInstructions(violations))
      else if SaltedByUsername(doc) && UsernameKinds(username) != [] then Err(BadUsername(UsernameKinds(username)))
      else if Iterations(doc) > Int32Max || KeyLength(doc) > Int32Max then Err(KdfArgumentOutOfRange)
      else
        var salt := if SaltedByUsername(doc) then username else "";
        Ok(Pbkdf2Hex(kdf, passtext, salt, Iterations(doc), KeyLength(doc)))
  }

  /** The hashed passtext has exactly `resultLength` hex digits. */
  lemma HashedLengthIsResultLength(kdf: Pbkdf2, passtext: string, doc: Json, username: string)
    requires HashPasstext(kdf, passtext, Some(doc), username).Ok?
    ensures Lookup(doc, ["resultLength"]).Some? && Lookup(doc, ["resultLength"]).value.JNum?
    ensures |HashPasstext(kdf, passtext, Some(doc), username).value| as real == Lookup(doc, ["resultLength"]).value.n
  {
    ValidHashingArguments(doc);
  }

  /** With `saltHashByUsername: true`, a whitespace-only username is refused as blank. */
  lemma BlankUsernameRefused(kdf: Pbkdf2, passtext: string, doc: Json, username: string)
    requires passtext != "" && Truthy(doc) && Validate(doc, Hashing) == [] && SaltedByUsername(doc)
    requires forall i :: 0 <= i < |username| ==> IsWhitespace(username[i])
    ensures HashPasstext(kdf, passtext, Some(doc), username) == Err(BadUsername([Blank]))
  {
    UsernameRefusedIffBlank(username);
  }

  // ---------------------------------------------------------------------------
  // The hashcash parameters.

  /** `serverInstructions.hashcash.zeroCount`; a valid policy that requires hashcash holds
      an integer from 1 to 50 there. */
  function ZeroCountOf(doc: Json): nat
  {
    match Lookup(doc, ZeroCountPath)
    case Some(JNum(n)) => if n >= 0.0 then n.Floor else 0
    case _ => 0
  }

  lemma ValidZeroCount(doc: Json)
    requires Validate(doc, Authentication) == [] && HashcashRequired(doc)
    ensures Lookup(doc, ZeroCountPath).Some? && Lookup(doc, ZeroCountPath).value.JNum?
    ensures 1 <= ZeroCountOf(doc) <= 50
    ensures ZeroCountOf(doc) as real == Lookup(doc, ZeroCountPath).value.n
  {
    AuthenticationValidIff(doc);
  }

  /** `${serverInstructions.hashcash.serverString}`. */
  function ServerStringOf(doc: Json, renderNumber: real -> string): string
  {
    match Lookup(doc, ServerStringPath)
    case Some(v) => Stringify(v, renderNumber)
    case None => "undefined"
  }

  function StampOf(doc: Json, env: Environment): Stamp
  {
    Stamp(ZeroCountOf(doc), ServerStringOf(doc, env.renderNumber), FormatTimestamp(env.now), env.ip, Btoa(env.draw))
  }

  // ---------------------------------------------------------------------------
  // processAuthentication

  /** `serverInstructions.csrfToken && serverInstructions.csrfToken.require`. */
  predicate CsrfRequired(doc: Json)
  {
    PathTruthy(doc, ["csrfToken", "require"])
  }

  /** The four headers every request carries. */
  function BaseHeaders(c: Call, hashed: string): seq<(string, string)>
  {
    [("Content-Type", "application/json;charset=utf-8"), ("X-Username", c.username),
     ("X-hashed-Passtext", hashed), ("X-captcha", c.captcha)]
  }

  /** The optional headers, in the order they are added. */
  function OptionalHeaders(doc: Json, hashcash: string, csrfToken: string): seq<(string, string)>
  {
    (if HashcashRequired(doc) then [("X-Hashcash", hashcash)] else [])
    + (if CsrfRequired(doc) then [("X-Csrf-Token", csrfToken)] else [])
  }

  /** The `X-Hashcash` value when hashcash is required (`None` while the search has not
      finished), and a placeholder that is never sent otherwise. */
  function HashcashValue(doc: Json, env: Environment): Option<string>
  {
    if HashcashRequired(doc) then Solve(env.sha1, StampOf(doc, env), env.fuel) else Some("")
  }

  /** The CSRF check and the descriptor, once the hashcash value is known. */
  function Assemble(c: Call, hashed: string, hashcash: Option<string>): Prepared
  {
    var doc := c.serverInstructions;
    if hashcash.None? then Unsolved
    else if CsrfRequired(doc) && c.csrfToken == "" then Rejected(NullOrEmpty(CsrfToken))
    else Ready(Request("POST", BaseHeaders(c, hashed) + OptionalHeaders(doc, hashcash.value, c.csrfToken),
                       c.state, c.referer))
  }

  /** Everything after the hashed passtext is known: the hashcash search, then the CSRF
      check, then the descriptor. */
  function Finish(c: Call, env: Environment, hashed: string): Prepared
  {
    Assemble(c, hashed, HashcashValue(c.serverInstructions, env))
  }

  /** Everything `processAuthentication` does before calling the transport. */
  function BuildRequest(c: Call, env: Environment): Prepared
  {
    match FirstMissing(c)
    case Some(k) => Rejected(NullOrEmpty(InputOrder[k]))
    case None =>
      var doc := c.serverInstructions;
      var violations := Validate(doc, Authentication);
      if violations != [] then Rejected(BadServerInstructions(violations))
      else match NormalizePassphrase(c.passtext, Prop(doc, "tolerance"))
        case Err(e) => Rejected(e)
        case Ok(tolerant) =>
          match HashPasstext(env.kdf, tolerant, Prop(doc, "hashing"), c.username)
          case Err(e) => Rejected(e)
          case Ok(hashed) => Finish(c, env, hashed)
  }

  /** `processAuthentication`: the transport's answer to the built request, returned as is.
      `isSignupAuth` is accepted and not used. */
  function ProcessAuthentication<R>(c: Call, env: Environment, authFunction: (string, Request) -> R, isSignupAuth: bool): Outcome<R>
  {
    match BuildRequest(c, env)
    case Ready(request) => Sent(authFunction(c.authUrl, request))
    case Rejected(e) => Failed(e)
    case Unsolved => StillSearching
  }

  function ExecuteLogin<R>(c: Call, env: Environment, loginFunction: (string, Request) -> R): Outcome<R>
  {
    ProcessAuthentication(c, env, loginFunction, false)
  }

  function ExecuteSignup<R>(c: Call, env: Environment, signupFunction: (string, Request) -> R): Outcome<R>
  {
    ProcessAuthentication(c, env, signupFunction, true)
  }

  // ---------------------------------------------------------------------------
  // What a call promises.

  /** Login and sign-up send the same request and return the same answer. */
  lemma LoginSignupAgree<R>(c: Call, env: Environment, transport: (string, Request) -> R)
    ensures ExecuteLogin(c, env, transport) == ExecuteSignup(c, env, transport)
  {
  }

  /** The first missing argument, in the order username, passtext, captcha, authUrl,
      serverInstructions, referer, state, decides the error; nothing else is consulted. */
  lemma FirstMissingArgumentReported<R>(c: Call, env: Environment, transport: (string, Request) -> R, k: nat)
    requires k < |InputOrder| && Missing(c, InputOrder[k])
    requires forall j :: 0 <= j < k ==> !Missing(c, InputOrder[j])
    ensures ProcessAuthentication(c, env, transport, false) == Failed(NullOrEmpty(InputOrder[k]))
  {
    assert FirstMissing(c) == Some(k);
  }

  /** A policy with authentication-constraint violations fails with the whole report,
      whatever the hash functions, clock or network would do. */
  lemma BadInstructionsFailFirst<R>(c: Call, env: Environment, transport: (string, Request) -> R)
    requires FirstMissing(c).None?
    requires Validate(c.serverInstructions, Authentication) != []
    ensures ProcessAuthentication(c, env, transport, false) ==
            Failed(BadServerInstructions(Validate(c.serverInstructions, Authentication)))
  {
  }

  /** The transport's answer is returned unchanged, and it is asked exactly once, with
      the authentication URL and the built request. */
  lemma ResponseReturnedUnchanged<R>(c: Call, env: Environment, transport: (string, Request) -> R)
    ensures BuildRequest(c, env).Ready? <==> ProcessAuthentication(c, env, transport, false).Sent?
    ensures BuildRequest(c, env).Ready? ==>
              ProcessAuthentication(c, env, transport, false).response == transport(c.authUrl, BuildRequest(c, env).request)
  {
  }

  /** Name lookup in a header list. */
  predicate HasHeader(headers: seq<(string, string)>, name: string)
  {
    exists i :: 0 <= i < |headers| && headers[i].0 == name
  }

  /** The header decision table: the descriptor is a POST of `state` with `referer`; its
      first four headers are always present; `X-Hashcash` is there exactly when hashcash
      is required, and then it is the fifth header and carries the stamp; `X-Csrf-Token` is
      there exactly when the CSRF flag is truthy, and then it is last and carries the
      (non-empty) token. */
  lemma HeaderDecisionTable(c: Call, hashed: string, hashcash: Option<string>)
    requires Assemble(c, hashed, hashcash).Ready?
    ensures var req := Assemble(c, hashed, hashcash).request;
            var doc := c.serverInstructions;
            && req.verb == "POST" && req.body == c.state && req.referrer == c.referer
            && req.headers[..4] == BaseHeaders(c, hashed)
            && (HasHeader(req.headers, "X-Hashcash") <==> HashcashRequired(doc))
            && (HashcashRequired(doc) ==> req.headers[4] == ("X-Hashcash", hashcash.value))
            && (HasHeader(req.headers, "X-Csrf-Token") <==> CsrfRequired(doc))
            && (CsrfRequired(doc) ==> c.csrfToken != "" && req.headers[|req.headers| - 1] == ("X-Csrf-Token", c.csrfToken))
  {
    var req := Assemble(c, hashed, hashcash).request;
    var doc := c.serverInstructions;
    var base := BaseHeaders(c, hashed);
    var extra := OptionalHeaders(doc, hashcash.value, c.csrfToken);
    assert req.headers == base + extra;
    assert req.headers[..4] == base;
    assert forall i :: 0 <= i < 4 ==> base[i].0 != "X-Hashcash" && base[i].0 != "X-Csrf-Token";
    if HashcashRequired(doc) {
      assert req.headers[4] == extra[0];
    } else {
      assert forall i :: 0 <= i < |extra| ==> extra[i].0 != "X-Hashcash";
    }
    if CsrfRequired(doc) {
      assert req.headers[|req.headers| - 1] == extra[|extra| - 1];
    } else {
      assert forall i :: 0 <= i < |extra| ==> extra[i].0 != "X-Csrf-Token";
    }
    assert forall i :: 4 <= i < |req.headers| ==> req.headers[i] == extra[i - 4];
  }

  /** With a truthy CSRF flag and no token, the call fails once hashing and the hashcash
      search have succeeded, instead of leaving the header out. */
  lemma MissingCsrfTokenRefused(c: Call, env: Environment, hashed: string)
    requires CsrfRequired(c.serverInstructions) && c.csrfToken == ""
    requires HashcashValue(c.serverInstructions, env).Some?
    ensures Finish(c, env, hashed) == Rejected(NullOrEmpty(CsrfToken))
  {
  }

  /** A sent `X-Hashcash` header is an accepted candidate of this call's stamp: every
      smaller counter was rejected, and its digest starts with `zeroCount` zero bits. */
  lemma HashcashHeaderAccepted(c: Call, env: Environment, hashed: string)
    requires Finish(c, env, hashed).Ready? && HashcashRequired(c.serverInstructions)
    ensures var st := StampOf(c.serverInstructions, env);
            var found := Search(Passes(env.sha1, st), 0, env.fuel);
            var header := Finish(c, env, hashed).request.headers[4];
            && found.Some?
            && header == ("X-Hashcash", Candidate(st, found.value))
            && Accepts(env.sha1, st.zeroCount, header.1)
            && forall d: nat :: d < found.value ==> !Passes(env.sha1, st)(d)
  {
    var doc := c.serverInstructions;
    var hashcash := HashcashValue(doc, env);
    HeaderDecisionTable(c, hashed, hashcash);
    SolveFindsLeast(env.sha1, StampOf(doc, env), env.fuel);
  }
}
