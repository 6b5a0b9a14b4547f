/**
 The three constraint tables a server-instructions document is validated against
 (src/serverInstructions.js), each with a plain statement of what a valid document looks
 like and a proof that the validator reports nothing exactly for those documents.
 */
module ServerInstructions {
  import opened Wrappers
  import opened JsValue
  import opened Validation

  const ZeroCountPath: seq<string> := ["hashcash", "zeroCount"]
  const ServerStringPath: seq<string> := ["hashcash", "serverString"]

  /** `authenticationConstraints`: every `require` flag is demanded by its parent object;
      the hashcash parameters are demanded by `hashcash.require`. */
  const Authentication: seq<Rule> := [
    Rule(["hashcash"], NotRequired, None, None),
    Rule(["hashcash", "require"], RequiredWhen(["hashcash"]), Some(Boolean), None),
    Rule(ZeroCountPath, RequiredWhen(["hashcash", "require"]), None,
         Some(Numericality(true, Some(0.0), None, Some(50.0), false))),
    Rule(ServerStringPath, RequiredWhen(["hashcash", "require"]), None, None),
    Rule(["csrfToken"], NotRequired, None, None),
    Rule(["csrfToken", "require"], RequiredWhen(["csrfToken"]), Some(Boolean), None),
    Rule(["captcha"], NotRequired, None, None),
    Rule(["captcha", "require"], RequiredWhen(["captcha"]), Some(Boolean), None)
  ]

  /** `passwordToleranceConstraints`. */
  const Tolerance: seq<Rule> := [
    Rule(["normalizers"], NotRequired, None, None),
    Rule(["normalizers", "lowerCase"], NotRequired, Some(Boolean), None),
    Rule(["normalizers", "trim"], NotRequired, Some(Boolean), None),
    Rule(["normalizers", "whitespacesToDash"], NotRequired, Some(Boolean), None),
    Rule(["normalizers", "digitsToSingleZero"], NotRequired, Some(Boolean), None),
    Rule(["normalizers", "removePunctuation"], NotRequired, Some(Boolean), None),
    Rule(["passphraseMinimalLength"], Required(true), None,
         Some(Numericality(true, None, Some(20.0), None, false)))
  ]

  /** `passwordHashingConstraints`. */
  const Hashing: seq<Rule> := [
    Rule(["hashCycles"], Required(true), None, Some(Numericality(true, None, Some(1.0), None, false))),
    Rule(["resultLength"], Required(true), None, Some(Numericality(true, None, Some(20.0), None, true))),
    Rule(["saltHashByUsername"], NotRequired, Some(Boolean), None)
  ]

  // ---------------------------------------------------------------------------
  // What a valid document is, in the policy's own terms.

  predicate IsBooleanAt(v: Option<Json>)
  {
    v.Some? && v.value.JBool?
  }

  /** A `require` flag under `parent`: must be a boolean whenever it is given, and must be
      given whenever `parent` is truthy. */
  predicate RequireFlagOk(doc: Json, parent: string)
  {
    var flag := Lookup(doc, [parent, "require"]);
    && (PathTruthy(doc, [parent]) ==> IsBooleanAt(flag))
    && (Defined(flag) ==> flag.value.JBool?)
  }

  /** `serverInstructions.hashcash && serverInstructions.hashcash.require`. */
  predicate HashcashRequired(doc: Json)
  {
    PathTruthy(doc, ["hashcash", "require"])
  }

  predicate IsZeroCount(v: Json)
  {
    v.JNum? && IsIntegral(v.n) && 0.0 < v.n <= 50.0
  }

  predicate AuthenticationOk(doc: Json)
  {
    var zeroCount := Lookup(doc, ZeroCountPath);
    && RequireFlagOk(doc, "hashcash")
    && RequireFlagOk(doc, "csrfToken")
    && RequireFlagOk(doc, "captcha")
    && (HashcashRequired(doc) ==> Defined(zeroCount) && Defined(Lookup(doc, ServerStringPath)))
    && (Defined(zeroCount) ==> IsZeroCount(zeroCount.value))
  }

  const NormalizerFlags: seq<string> := ["lowerCase", "trim", "whitespacesToDash", "digitsToSingleZero", "removePunctuation"]

  predicate IsIntegerAtLeast(v: Option<Json>, least: real)
  {
    v.Some? && v.value.JNum? && IsIntegral(v.value.n) && v.value.n >= least
  }

  predicate ToleranceOk(doc: Json)
  {
    && (forall k :: 0 <= k < |NormalizerFlags| ==>
          var flag := Lookup(doc, ["normalizers", NormalizerFlags[k]]);
          Defined(flag) ==> flag.value.JBool?)
    && IsIntegerAtLeast(Lookup(doc, ["passphraseMinimalLength"]), 20.0)
  }

  predicate HashingOk(doc: Json)
  {
    var resultLength := Lookup(doc, ["resultLength"]);
    var salted := Lookup(doc, ["saltHashByUsername"]);
    && IsIntegerAtLeast(Lookup(doc, ["hashCycles"]), 1.0)
    && IsIntegerAtLeast(resultLength, 20.0) && IsEven(resultLength.value.n)
    && (Defined(salted) ==> salted.value.JBool?)
  }

  // ---------------------------------------------------------------------------
  // The validator agrees with those statements.

  lemma KeysAreNotStringMethods()
    ensures "hashcash" !in StringPrototypeMethods && "csrfToken" !in StringPrototypeMethods
    ensures "captcha" !in StringPrototypeMethods && "require" !in StringPrototypeMethods
  {
  }

  /** The two rules of a `require` flag under `parent`. */
  function ParentRule(parent: string): Rule
  {
    Rule([parent], NotRequired, None, None)
  }

  function FlagRule(parent: string): Rule
  {
    Rule([parent, "require"], RequiredWhen([parent]), Some(Boolean), None)
  }

  lemma AuthenticationRulesByParent()
    ensures Authentication[0] == ParentRule("hashcash") && Authentication[1] == FlagRule("hashcash")
    ensures Authentication[4] == ParentRule("csrfToken") && Authentication[5] == FlagRule("csrfToken")
    ensures Authentication[6] == ParentRule("captcha") && Authentication[7] == FlagRule("captcha")
  {
  }

  lemma RequireRuleHolds(doc: Json, parent: string)
    requires parent !in StringPrototypeMethods
    ensures RuleHolds(doc, FlagRule(parent)) <==> RequireFlagOk(doc, parent)
  {
    var flag := Lookup(doc, [parent, "require"]);
    PathTruthyIsTruthyLookup(doc, [parent]);
    if PathTruthy(doc, [parent]) && Defined(flag) && flag.value.JBool? {
      // A boolean is never empty, whatever options the parent object carries.
      assert !PresenceFails(flag, AllowsEmpty(doc, RequiredWhen([parent])));
    }
  }

  /** The hashcash parameters' rules, given the flag's own rule holds. */
  lemma HashcashParameterRulesHold(doc: Json)
    requires RuleHolds(doc, Authentication[1])
    ensures RuleHolds(doc, Authentication[2]) <==>
      var zeroCount := Lookup(doc, ZeroCountPath);
      (HashcashRequired(doc) ==> Defined(zeroCount)) && (Defined(zeroCount) ==> IsZeroCount(zeroCount.value))
    ensures RuleHolds(doc, Authentication[3]) <==> (HashcashRequired(doc) ==> Defined(Lookup(doc, ServerStringPath)))
  {
    // The flag passed its type check, so it carries no `allowEmpty` option.
    assert !DisallowsEmpty(Lookup(doc, ["hashcash", "require"]));
  }

  /** The flags' rules and the parents' rules, each stated on its own. */
  lemma AuthenticationRuleMeanings(doc: Json)
    ensures RuleHolds(doc, Authentication[1]) <==> RequireFlagOk(doc, "hashcash")
    ensures RuleHolds(doc, Authentication[5]) <==> RequireFlagOk(doc, "csrfToken")
    ensures RuleHolds(doc, Authentication[7]) <==> RequireFlagOk(doc, "captcha")
    ensures CheckRule(doc, Authentication[0]) == [] && CheckRule(doc, Authentication[4]) == []
    ensures CheckRule(doc, Authentication[6]) == []
  {
    AuthenticationRulesByParent();
    KeysAreNotStringMethods();
    RequireRuleHolds(doc, "hashcash");
    RequireRuleHolds(doc, "csrfToken");
    RequireRuleHolds(doc, "captcha");
    assert CheckRule(doc, ParentRule("hashcash")) == [];
    assert CheckRule(doc, ParentRule("csrfToken")) == [];
    assert CheckRule(doc, ParentRule("captcha")) == [];
  }

  lemma AuthenticationValidIff(doc: Json)
    ensures Validate(doc, Authentication) == [] <==> AuthenticationOk(doc)
  {
    AuthenticationInTableOrder(doc);
    AuthenticationRuleMeanings(doc);
    if RuleHolds(doc, Authentication[1]) {
      HashcashParameterRulesHold(doc);
    }
  }

  lemma NormalizerFlagRulesHold(doc: Json, k: nat)
    requires 1 <= k < |Tolerance| - 1
    ensures RuleHolds(doc, Tolerance[k]) <==>
      var flag := Lookup(doc, ["normalizers", NormalizerFlags[k - 1]]);
      Defined(flag) ==> flag.value.JBool?
  {
    assert k in {1, 2, 3, 4, 5};
  }

  lemma MinimalLengthRuleHolds(doc: Json)
    ensures RuleHolds(doc, Tolerance[6]) <==> IsIntegerAtLeast(Lookup(doc, ["passphraseMinimalLength"]), 20.0)
  {
  }

  lemma ToleranceValidIff(doc: Json)
    ensures Validate(doc, Tolerance) == [] <==> ToleranceOk(doc)
  {
    var rules := Tolerance;
    var all := forall k :: 0 <= k < |rules| ==> RuleHolds(doc, rules[k]);
    ValidIff(doc, rules);
    MinimalLengthRuleHolds(doc);
    if all {
      forall k | 0 <= k < |NormalizerFlags|
        ensures var flag := Lookup(doc, ["normalizers", NormalizerFlags[k]]);
                Defined(flag) ==> flag.value.JBool?
      {
        NormalizerFlagRulesHold(doc, k + 1);
      }
    } else if ToleranceOk(doc) {
      forall k | 0 <= k < |rules|
        ensures RuleHolds(doc, rules[k])
      {
        if 1 <= k < |rules| - 1 {
          NormalizerFlagRulesHold(doc, k);
        }
      }
    }
  }

  lemma HashingInTableOrder(doc: Json)
    ensures Validate(doc, Hashing) == CheckRule(doc, Hashing[0]) + (CheckRule(doc, Hashing[1]) + CheckRule(doc, Hashing[2]))
  {
    ValidateOneStep(doc, Hashing, 2);
    ValidateOneStep(doc, Hashing, 1);
    ValidateOneStep(doc, Hashing, 0);
    assert Hashing[0..] == Hashing;
    assert Validate(doc, Hashing[3..]) == [] by {
      assert Hashing[3..] == [];
    }
  }

  lemma HashCyclesRuleHolds(doc: Json)
    ensures RuleHolds(doc, Hashing[0]) <==> IsIntegerAtLeast(Lookup(doc, ["hashCycles"]), 1.0)
  {
  }

  lemma ResultLengthRuleHolds(doc: Json)
    ensures var resultLength := Lookup(doc, ["resultLength"]);
            RuleHolds(doc, Hashing[1]) <==> IsIntegerAtLeast(resultLength, 20.0) && IsEven(resultLength.value.n)
  {
  }

  lemma SaltRuleHolds(doc: Json)
    ensures var salted := Lookup(doc, ["saltHashByUsername"]);
            RuleHolds(doc, Hashing[2]) <==> (Defined(salted) ==> salted.value.JBool?)
  {
  }

  lemma HashingValidIff(doc: Json)
    ensures Validate(doc, Hashing) == [] <==> HashingOk(doc)
  {
    HashingInTableOrder(doc);
    HashCyclesRuleHolds(doc);
    ResultLengthRuleHolds(doc);
    SaltRuleHolds(doc);
  }

  /** A valid hashing policy halves its result length into a whole number of key bytes,
      at least ten of them. */
  lemma ValidHashingKeyLength(doc: Json)
    requires Validate(doc, Hashing) == []
    ensures var r := Lookup(doc, ["resultLength"]);
            r.Some? && r.value.JNum? && IsIntegral(r.value.n / 2.0) && r.value.n / 2.0 >= 10.0
  {
    HashingValidIff(doc);
  }

  // ---------------------------------------------------------------------------
  // What is reported about single attributes.

  lemma AuthenticationAttributesDistinct()
    ensures forall i, j :: 0 <= i < j < |Authentication| ==> Authentication[i].attribute != Authentication[j].attribute
  {
  }

  /** Everything reported about `hashcash.zeroCount`: "can't be blank" when it is demanded
      and missing; otherwise nothing when it is absent, only "is not a number" for a
      non-number, only "must be an integer" for a fraction, and the failed bounds of an
      integer, lower bound first. */
  lemma ZeroCountReports(doc: Json)
    ensures var zeroCount := Lookup(doc, ZeroCountPath);
            var reported := About(Validate(doc, Authentication), ZeroCountPath);
            && (!Defined(zeroCount) ==> reported == if HashcashRequired(doc) then [Blank] else [])
            && (Defined(zeroCount) && !zeroCount.value.JNum? ==>
                  reported == if BlankUnderObjectFlag(doc, zeroCount) then [Blank, NotANumber] else [NotANumber])
            && (Defined(zeroCount) && zeroCount.value.JNum? && !IsIntegral(zeroCount.value.n) ==>
                  reported == [NotAnInteger])
            && (Defined(zeroCount) && zeroCount.value.JNum? && IsIntegral(zeroCount.value.n) ==>
                  reported == (if zeroCount.value.n <= 0.0 then [NotGreaterThan(0.0)] else [])
                              + (if zeroCount.value.n > 50.0 then [NotLessThanOrEqualTo(50.0)] else []))
  {
    AuthenticationAttributesDistinct();
    AboutValidate(doc, Authentication, 2);
    ZeroCountKinds(doc);
  }

  lemma ZeroCountKinds(doc: Json)
    ensures var zeroCount := Lookup(doc, ZeroCountPath);
            var reported := Kinds(doc, Authentication[2]);
            && (!Defined(zeroCount) ==> reported == if HashcashRequired(doc) then [Blank] else [])
            && (Defined(zeroCount) && !zeroCount.value.JNum? ==>
                  reported == if BlankUnderObjectFlag(doc, zeroCount) then [Blank, NotANumber] else [NotANumber])
            && (Defined(zeroCount) && zeroCount.value.JNum? && !IsIntegral(zeroCount.value.n) ==>
                  reported == [NotAnInteger])
            && (Defined(zeroCount) && zeroCount.value.JNum? && IsIntegral(zeroCount.value.n) ==>
                  reported == (if zeroCount.value.n <= 0.0 then [NotGreaterThan(0.0)] else [])
                              + (if zeroCount.value.n > 50.0 then [NotLessThanOrEqualTo(50.0)] else []))
  {
    var rule := Authentication[2];
    var zeroCount := Lookup(doc, ZeroCountPath);
    var presence: seq<Kind> :=
      if PresenceRuns(doc, rule.presence) && PresenceFails(zeroCount, AllowsEmpty(doc, rule.presence)) then [Blank] else [];
    if Defined(zeroCount) {
      // Numbers are never empty; anything else is not a number, which presence may add to.
      if zeroCount.value.JNum? {
        assert presence == [];
      } else {
        assert NumericKinds(zeroCount.value, rule.numericality.value) == [NotANumber];
        assert presence == if BlankUnderObjectFlag(doc, zeroCount) then [Blank] else [];
      }
    }
  }

  /** A `require` flag given as an object with `allowEmpty: false` becomes the presence
      options of the hashcash parameters, and an empty value then also counts as blank. */
  predicate BlankUnderObjectFlag(doc: Json, v: Option<Json>)
  {
    HashcashRequired(doc) && DisallowsEmpty(Lookup(doc, ["hashcash", "require"])) && IsEmpty(v)
  }

  /** The authentication table's report is its rules' reports in table order. */
  lemma AuthenticationInTableOrder(doc: Json)
    ensures Validate(doc, Authentication)
            == CheckRule(doc, Authentication[0]) + (CheckRule(doc, Authentication[1])
               + (CheckRule(doc, Authentication[2]) + (CheckRule(doc, Authentication[3])
               + (CheckRule(doc, Authentication[4]) + (CheckRule(doc, Authentication[5])
               + (CheckRule(doc, Authentication[6]) + CheckRule(doc, Authentication[7])))))))
  {
    var r := Authentication;
    ValidateOneStep(doc, r, 7);
    ValidateOneStep(doc, r, 6);
    ValidateOneStep(doc, r, 5);
    ValidateOneStep(doc, r, 4);
    ValidateOneStep(doc, r, 3);
    ValidateOneStep(doc, r, 2);
    ValidateOneStep(doc, r, 1);
    ValidateOneStep(doc, r, 0);
    assert r[0..] == r;
    assert Validate(doc, r[8..]) == [] by {
      assert r[8..] == [];
    }
    assert Validate(doc, r[7..]) == CheckRule(doc, r[7]);
  }

  /** An absent parent object: neither of its rules reports anything. */
  lemma AbsentParentQuiet(doc: Json, parent: string)
    requires parent !in StringPrototypeMethods
    requires Lookup(doc, [parent]) == None
    ensures CheckRule(doc, ParentRule(parent)) == []
    ensures CheckRule(doc, FlagRule(parent)) == []
  {
    PathTruthyIsTruthyLookup(doc, [parent]);
    assert Lookup(doc, [parent, "require"]) == None;
  }

  /** A parent given as `{}`: its flag is missing, which is the one violation. */
  lemma EmptyParentBlank(doc: Json, parent: string)
    requires parent !in StringPrototypeMethods
    requires Lookup(doc, [parent]) == Some(JObj([]))
    ensures CheckRule(doc, ParentRule(parent)) == []
    ensures CheckRule(doc, FlagRule(parent)) == [Violation([parent, "require"], Blank)]
  {
    PathTruthyIsTruthyLookup(doc, [parent]);
    assert Lookup(JObj([]), ["require"]) == None;
    assert Lookup(doc, [parent, "require"]) == None;
    assert Kinds(doc, FlagRule(parent)) == [Blank];
  }

  /** Without a `hashcash` object the hashcash parameters are not demanded. */
  lemma AbsentHashcashQuiet(doc: Json)
    requires Lookup(doc, ["hashcash"]) == None
    ensures CheckRule(doc, Authentication[2]) == []
    ensures CheckRule(doc, Authentication[3]) == []
  {
    assert Lookup(doc, ZeroCountPath) == None;
    assert Lookup(doc, ServerStringPath) == None;
    assert !HashcashRequired(doc);
  }

  /** `{hashcash: {require: true}}`: demands the hashcash parameters and gives neither. */
  const RequireOnly: Json := JObj([("hashcash", JObj([("require", JBool(true))]))])

  lemma RequireOnlyLookups()
    ensures Lookup(RequireOnly, ["hashcash", "require"]) == Some(JBool(true))
    ensures HashcashRequired(RequireOnly)
    ensures Lookup(RequireOnly, ZeroCountPath) == None
    ensures Lookup(RequireOnly, ServerStringPath) == None
    ensures Lookup(RequireOnly, ["csrfToken"]) == None
    ensures Lookup(RequireOnly, ["captcha"]) == None
  {
    var hashcash := JObj([("require", JBool(true))]);
    assert Lookup(RequireOnly, ["hashcash"]) == Some(hashcash);
    assert Lookup(hashcash, ["require"]) == Some(JBool(true));
    assert Lookup(hashcash, ["zeroCount"]) == None;
    assert Lookup(hashcash, ["serverString"]) == None;
  }

  /** The flag itself is a boolean, so its own two rules are satisfied. */
  lemma RequireOnlyFlagRules()
    ensures CheckRule(RequireOnly, Authentication[0]) == []
    ensures CheckRule(RequireOnly, Authentication[1]) == []
  {
    RequireOnlyLookups();
    KeysAreNotStringMethods();
    RequireRuleHolds(RequireOnly, "hashcash");
  }

  /** The demanded parameters are both missing: one "can't be blank" each. */
  lemma RequireOnlyParameterRules()
    ensures CheckRule(RequireOnly, Authentication[2]) == [Violation(ZeroCountPath, Blank)]
    ensures CheckRule(RequireOnly, Authentication[3]) == [Violation(ServerStringPath, Blank)]
  {
    RequireOnlyLookups();
    ZeroCountKinds(RequireOnly);
  }

  /** No `csrfToken` and no `captcha`: their four rules are silent. */
  lemma RequireOnlyOtherParents()
    ensures CheckRule(RequireOnly, Authentication[4]) == []
    ensures CheckRule(RequireOnly, Authentication[5]) == []
    ensures CheckRule(RequireOnly, Authentication[6]) == []
    ensures CheckRule(RequireOnly, Authentication[7]) == []
  {
    AuthenticationRulesByParent();
    KeysAreNotStringMethods();
    RequireOnlyLookups();
    AbsentParentQuiet(RequireOnly, "csrfToken");
    AbsentParentQuiet(RequireOnly, "captcha");
  }

  /** `{hashcash: {require: true}}` lacks both parameters: two violations, zeroCount's first. */
  lemma MissingHashcashParameters()
    ensures Validate(RequireOnly, Authentication)
            == [Violation(ZeroCountPath, Blank), Violation(ServerStringPath, Blank)]
  {
    AuthenticationInTableOrder(RequireOnly);
    RequireOnlyFlagRules();
    RequireOnlyParameterRules();
    RequireOnlyOtherParents();
  }

  /** A document with none of the optional keys is valid. */
  lemma EmptyDocumentIsValid()
    ensures Validate(JObj([]), Authentication) == []
  {
    AuthenticationValidIff(JObj([]));
  }

  /** An empty `csrfToken` object still demands its `require` flag. */
  lemma EmptyCsrfTokenDemandsFlag()
    ensures Validate(JObj([("csrfToken", JObj([]))]), Authentication) == [Violation(["csrfToken", "require"], Blank)]
  {
    var doc := JObj([("csrfToken", JObj([]))]);
    AuthenticationInTableOrder(doc);
    AuthenticationRulesByParent();
    KeysAreNotStringMethods();
    assert Lookup(doc, ["hashcash"]) == None;
    assert Lookup(doc, ["csrfToken"]) == Some(JObj([]));
    assert Lookup(doc, ["captcha"]) == None;
    AbsentParentQuiet(doc, "hashcash");
    AbsentHashcashQuiet(doc);
    EmptyParentBlank(doc, "csrfToken");
    AbsentParentQuiet(doc, "captcha");
  }

  /** An empty `captcha` object still demands its `require` flag. */
  lemma EmptyCaptchaDemandsFlag()
    ensures Validate(JObj([("captcha", JObj([]))]), Authentication) == [Violation(["captcha", "require"], Blank)]
  {
    var doc := JObj([("captcha", JObj([]))]);
    AuthenticationInTableOrder(doc);
    AuthenticationRulesByParent();
    KeysAreNotStringMethods();
    assert Lookup(doc, ["hashcash"]) == None;
    assert Lookup(doc, ["csrfToken"]) == None;
    assert Lookup(doc, ["captcha"]) == Some(JObj([]));
    AbsentParentQuiet(doc, "hashcash");
    AbsentHashcashQuiet(doc);
    AbsentParentQuiet(doc, "csrfToken");
    EmptyParentBlank(doc, "captcha");
  }
}
