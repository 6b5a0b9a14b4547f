/**
 The subset of validate.js the policy tables use, as a rule interpreter: `presence`
 (fixed or computed from the document), `type` and `numericality`. Each rule names a
 dotted attribute path; a failed check is reported as a structured violation rather than
 a prettified message, and `validate(doc, table, {format: "flat"})` becomes the list of
 violations in table order, empty meaning "valid".
 */
module Validation {
  import opened Wrappers
  import opened JsValue
  import Strings

  /** How an attribute's `presence` option is given. `RequiredWhen(path)` is a function
      returning the document's value at `path` (a `&&` chain): presence is checked when
      that value is truthy, and the value itself is then the validator's options. */
  datatype Presence =
    | NotRequired
    | Required(allowEmpty: bool)
    | RequiredWhen(condition: seq<string>)

  datatype JsType = Boolean | String

  /** The numericality options the tables use; absent bounds are `None`. */
  datatype Numericality = Numericality(
    onlyInteger: bool,
    greaterThan: Option<real>,
    greaterThanOrEqualTo: Option<real>,
    lessThanOrEqualTo: Option<real>,
    even: bool)

  datatype Rule = Rule(
    attribute: seq<string>,
    presence: Presence,
    typ: Option<JsType>,
    numericality: Option<Numericality>)

  /** One failed check; each kind stands for one of validate.js's default messages. */
  datatype Kind =
    | Blank                                  // "can't be blank"
    | NotOfType(expected: JsType)            // "must be of type %{type}"
    | NotANumber                             // "is not a number"
    | NotAnInteger                           // "must be an integer"
    | NotGreaterThan(bound: real)            // "must be greater than %{count}"
    | NotGreaterThanOrEqualTo(bound: real)   // "must be greater than or equal to %{count}"
    | NotLessThanOrEqualTo(bound: real)      // "must be less than or equal to %{count}"
    | NotEven                                // "must be even"

  datatype Violation = Violation(attribute: seq<string>, kind: Kind)

  // ---------------------------------------------------------------------------
  // presence

  /** validate.js `isEmpty`: absent, `null`, a string of whitespace only, an empty array
      or an object without keys. Numbers and booleans are never empty. */
  predicate IsEmpty(v: Option<Json>)
  {
    match v
    case None => true
    case Some(JNull) => true
    case Some(JStr(s)) => forall i :: 0 <= i < |s| ==> IsWhitespace(s[i])
    case Some(JArr(items)) => items == []
    case Some(JObj(fields)) => fields == []
    case Some(_) => false
  }

  /** Options copied from an object carrying `allowEmpty: false` switch the presence
      check from "defined" to "not empty". */
  predicate DisallowsEmpty(options: Option<Json>)
  {
    options.Some? && options.value.JObj? && Get(options.value.fields, "allowEmpty") == Some(JBool(false))
  }

  /** Whether the presence validator runs at all: a falsy option skips it. */
  predicate PresenceRuns(doc: Json, p: Presence)
  {
    match p
    case NotRequired => false
    case Required(_) => true
    case RequiredWhen(path) => PathTruthy(doc, path)
  }

  predicate AllowsEmpty(doc: Json, p: Presence)
  {
    match p
    case NotRequired => true
    case Required(allowEmpty) => allowEmpty
    case RequiredWhen(path) => !DisallowsEmpty(Lookup(doc, path))
  }

  /** The presence validator's verdict on a value. */
  predicate PresenceFails(v: Option<Json>, allowEmpty: bool)
  {
    if allowEmpty then !Defined(v) else IsEmpty(v)
  }

  lemma PresenceFailsOnlyWhenUndefinedOrEmpty(v: Option<Json>, allowEmpty: bool)
    ensures !Defined(v) ==> PresenceFails(v, allowEmpty)
    ensures PresenceFails(v, allowEmpty) ==> !Defined(v) || v.value.JStr? || v.value.JArr? || v.value.JObj?
  {
  }

  // ---------------------------------------------------------------------------
  // type and numericality

  predicate HasType(v: Json, t: JsType)
  {
    match t
    case Boolean => v.JBool?
    case String => v.JStr?
  }

  /** `x % 2 === 0` in JavaScript holds exactly for the even integers. */
  predicate IsEven(x: real)
  {
    IsIntegral(x / 2.0)
  }

  /** What the numericality options demand of a defined value, as one conjunction. */
  predicate SatisfiesNumericality(v: Json, n: Numericality)
  {
    && v.JNum?
    && (n.onlyInteger ==> IsIntegral(v.n))
    && (n.greaterThan.Some? ==> v.n > n.greaterThan.value)
    && (n.greaterThanOrEqualTo.Some? ==> v.n >= n.greaterThanOrEqualTo.value)
    && (n.lessThanOrEqualTo.Some? ==> v.n <= n.lessThanOrEqualTo.value)
    && (n.even ==> IsEven(v.n))
  }

  /** The messages the numericality validator returns for a defined value: a non-number
      stops at "is not a number", a non-integer at "must be an integer"; otherwise every
      failed bound is reported, in validate.js's check order, then parity. */
  function NumericKinds(v: Json, n: Numericality): (r: seq<Kind>)
    ensures r == [] <==> SatisfiesNumericality(v, n)
    ensures !v.JNum? ==> r == [NotANumber]
    ensures v.JNum? && n.onlyInteger && !IsIntegral(v.n) ==> r == [NotAnInteger]
    ensures NotANumber in r ==> r == [NotANumber]
    ensures NotAnInteger in r ==> r == [NotAnInteger]
  {
    if !v.JNum? then [NotANumber]
    else if n.onlyInteger && !IsIntegral(v.n) then [NotAnInteger]
    else
      (if n.greaterThan.Some? && !(v.n > n.greaterThan.value)
       then [NotGreaterThan(n.greaterThan.value)] else [])
      + (if n.greaterThanOrEqualTo.Some? && !(v.n >= n.greaterThanOrEqualTo.value)
         then [NotGreaterThanOrEqualTo(n.greaterThanOrEqualTo.value)] else [])
      + (if n.lessThanOrEqualTo.Some? && !(v.n <= n.lessThanOrEqualTo.value)
         then [NotLessThanOrEqualTo(n.lessThanOrEqualTo.value)] else [])
      + (if n.even && !IsEven(v.n) then [NotEven] else [])
  }

  // ---------------------------------------------------------------------------
  // rules and tables

  /** What one rule demands of the document, stated check by check. */
  predicate RuleHolds(doc: Json, rule: Rule)
  {
    var v := Lookup(doc, rule.attribute);
    && (PresenceRuns(doc, rule.presence) ==> !PresenceFails(v, AllowsEmpty(doc, rule.presence)))
    && (rule.typ.Some? && Defined(v) ==> HasType(v.value, rule.typ.value))
    && (rule.numericality.Some? && Defined(v) ==> SatisfiesNumericality(v.value, rule.numericality.value))
  }

  function Kinds(doc: Json, rule: Rule): seq<Kind>
  {
    var v := Lookup(doc, rule.attribute);
    (if PresenceRuns(doc, rule.presence) && PresenceFails(v, AllowsEmpty(doc, rule.presence))
     then [Blank] else [])
    + (if rule.typ.Some? && Defined(v) && !HasType(v.value, rule.typ.value)
       then [NotOfType(rule.typ.value)] else [])
    + (if rule.numericality.Some? && Defined(v) then NumericKinds(v.value, rule.numericality.value) else [])
  }

  function Tag(attribute: seq<string>, kinds: seq<Kind>): (r: seq<Violation>)
    ensures |r| == |kinds|
    ensures forall i :: 0 <= i < |r| ==> r[i] == Violation(attribute, kinds[i])
  {
    if kinds == [] then [] else [Violation(attribute, kinds[0])] + Tag(attribute, kinds[1..])
  }

  /** The violations one attribute's validators report, in validator declaration order. */
  function CheckRule(doc: Json, rule: Rule): (r: seq<Violation>)
    ensures r == [] <==> RuleHolds(doc, rule)
    ensures forall i :: 0 <= i < |r| ==> r[i].attribute == rule.attribute
  {
    Tag(rule.attribute, Kinds(doc, rule))
  }

  /** `validate(doc, table, {format: "flat"})`, with `[]` standing for `undefined`. */
  function Validate(doc: Json, rules: seq<Rule>): seq<Violation>
  {
    if rules == [] then [] else CheckRule(doc, rules[0]) + Validate(doc, rules[1..])
  }

  /** The document is valid exactly when every rule of the table holds. */
  lemma {:induction false} ValidIff(doc: Json, rules: seq<Rule>)
    ensures Validate(doc, rules) == [] <==> forall k :: 0 <= k < |rules| ==> RuleHolds(doc, rules[k])
  {
    if rules != [] {
      ValidIff(doc, rules[1..]);
      assert forall k :: 1 <= k < |rules| ==> rules[1..][k - 1] == rules[k];
    }
  }

  /** Every violation names the attribute of one of the table's rules. */
  lemma {:induction false} ValidateNamesTableAttributes(doc: Json, rules: seq<Rule>)
    ensures forall i :: 0 <= i < |Validate(doc, rules)| ==>
              exists k :: 0 <= k < |rules| && Validate(doc, rules)[i].attribute == rules[k].attribute
  {
    if rules != [] {
      var head: seq<Violation> := CheckRule(doc, rules[0]);
      var rest: seq<Violation> := Validate(doc, rules[1..]);
      ValidateNamesTableAttributes(doc, rules[1..]);
      var all := Validate(doc, rules);
      assert all == head + rest;
      forall i | 0 <= i < |all|
        ensures exists k :: 0 <= k < |rules| && all[i].attribute == rules[k].attribute
      {
        if i < |head| {
          assert all[i].attribute == rules[0].attribute;
        } else {
          assert all[i] == rest[i - |head|];
          var k :| 0 <= k < |rules[1..]| && rest[i - |head|].attribute == rules[1..][k].attribute;
          assert rules[1..][k] == rules[k + 1];
        }
      }
    } else {
      assert Validate(doc, rules) == [];
    }
  }

  lemma ValidateOneStep(doc: Json, rules: seq<Rule>, k: nat)
    requires k < |rules|
    ensures Validate(doc, rules[k..]) == CheckRule(doc, rules[k]) + Validate(doc, rules[k + 1..])
  {
    assert rules[k..][1..] == rules[k + 1..];
  }

  lemma {:induction false} ValidateAppend(doc: Json, a: seq<Rule>, b: seq<Rule>)
    ensures Validate(doc, a + b) == Validate(doc, a) + Validate(doc, b)
  {
    if a == [] {
      assert a + b == b;
    } else {
      var head := CheckRule(doc, a[0]);
      assert (a + b)[0] == a[0];
      assert (a + b)[1..] == a[1..] + b;
      ValidateAppend(doc, a[1..], b);
      assert Validate(doc, a + b) == head + (Validate(doc, a[1..]) + Validate(doc, b));
      Strings.AppendAssociative(head, Validate(doc, a[1..]), Validate(doc, b));
    }
  }

  /** The violations reported for one attribute, in order. */
  function About(vs: seq<Violation>, attribute: seq<string>): (r: seq<Kind>)
    ensures |r| <= |vs|
  {
    if vs == [] then []
    else (if vs[0].attribute == attribute then [vs[0].kind] else []) + About(vs[1..], attribute)
  }

  lemma {:induction false} AboutAppend(a: seq<Violation>, b: seq<Violation>, attribute: seq<string>)
    ensures About(a + b, attribute) == About(a, attribute) + About(b, attribute)
  {
    if a == [] {
      assert a + b == b;
    } else {
      var head := if a[0].attribute == attribute then [a[0].kind] else [];
      assert (a + b)[0] == a[0];
      assert (a + b)[1..] == a[1..] + b;
      assert About(a + b, attribute) == head + About(a[1..] + b, attribute);
      AboutAppend(a[1..], b, attribute);
      Strings.AppendAssociative(head, About(a[1..], attribute), About(b, attribute));
    }
  }

  lemma {:induction false} AboutTag(attribute: seq<string>, kinds: seq<Kind>, other: seq<string>)
    ensures About(Tag(attribute, kinds), other) == if attribute == other then kinds else []
  {
    if kinds != [] {
      AboutTag(attribute, kinds[1..], other);
    }
  }

  /** What the first rule of a table contributes to the report about `attribute`. */
  lemma AboutValidateHead(doc: Json, rules: seq<Rule>, attribute: seq<string>)
    requires rules != []
    ensures About(Validate(doc, rules), attribute)
            == (if rules[0].attribute == attribute then Kinds(doc, rules[0]) else [])
               + About(Validate(doc, rules[1..]), attribute)
  {
    assert Validate(doc, rules) == CheckRule(doc, rules[0]) + Validate(doc, rules[1..]);
    AboutAppend(CheckRule(doc, rules[0]), Validate(doc, rules[1..]), attribute);
    AboutTag(rules[0].attribute, Kinds(doc, rules[0]), attribute);
  }

  /** Everything validate.js reports about one attribute of a table whose attributes
      are distinct comes from that attribute's own rule. */
  lemma {:induction false} AboutValidate(doc: Json, rules: seq<Rule>, k: nat)
    requires k < |rules|
    requires forall i, j :: 0 <= i < j < |rules| ==> rules[i].attribute != rules[j].attribute
    ensures About(Validate(doc, rules), rules[k].attribute) == Kinds(doc, rules[k])
  {
    var attribute := rules[k].attribute;
    var tail := rules[1..];
    AboutValidateHead(doc, rules, attribute);
    if k == 0 {
      forall i | 0 <= i < |tail|
        ensures tail[i].attribute != attribute
      {
        assert rules[i + 1].attribute != attribute;
      }
      AboutAbsent(doc, tail, attribute);
      assert Kinds(doc, rules[0]) + [] == Kinds(doc, rules[0]);
    } else {
      forall i, j | 0 <= i < j < |tail|
        ensures tail[i].attribute != tail[j].attribute
      {
        assert rules[i + 1].attribute != rules[j + 1].attribute;
      }
      AboutValidate(doc, tail, k - 1);
      assert [] + Kinds(doc, rules[k]) == Kinds(doc, rules[k]);
    }
  }

  lemma {:induction false} AboutAbsent(doc: Json, rules: seq<Rule>, attribute: seq<string>)
    requires forall i :: 0 <= i < |rules| ==> rules[i].attribute != attribute
    ensures About(Validate(doc, rules), attribute) == []
  {
    if rules != [] {
      AboutValidateHead(doc, rules, attribute);
      AboutAbsent(doc, rules[1..], attribute);
    }
  }

  predicate NoDuplicates<T(==)>(s: seq<T>)
  {
    forall i, j :: 0 <= i < j < |s| ==> s[i] != s[j]
  }

  lemma AppendNoDuplicates<T>(a: seq<T>, b: seq<T>)
    requires NoDuplicates(a) && NoDuplicates(b)
    requires forall x :: x in a ==> x !in b
    ensures NoDuplicates(a + b)
  {
    forall i, j | 0 <= i < j < |a + b|
      ensures (a + b)[i] != (a + b)[j]
    {
      if i < |a| && j >= |a| {
        assert (a + b)[i] in a;
        assert (a + b)[j] == b[j - |a|];
      }
    }
  }

  lemma NumericKindsDistinct(v: Json, n: Numericality)
    ensures NoDuplicates(NumericKinds(v, n))
    ensures Blank !in NumericKinds(v, n)
    ensures forall t :: NotOfType(t) !in NumericKinds(v, n)
  {
    if v.JNum? && !(n.onlyInteger && !IsIntegral(v.n)) {
      var a := if n.greaterThan.Some? && !(v.n > n.greaterThan.value)
               then [NotGreaterThan(n.greaterThan.value)] else [];
      var b := if n.greaterThanOrEqualTo.Some? && !(v.n >= n.greaterThanOrEqualTo.value)
               then [NotGreaterThanOrEqualTo(n.greaterThanOrEqualTo.value)] else [];
      var c := if n.lessThanOrEqualTo.Some? && !(v.n <= n.lessThanOrEqualTo.value)
               then [NotLessThanOrEqualTo(n.lessThanOrEqualTo.value)] else [];
      var d: seq<Kind> := if n.even && !IsEven(v.n) then [NotEven] else [];
      AppendNoDuplicates(a, b);
      AppendNoDuplicates(a + b, c);
      AppendNoDuplicates(a + b + c, d);
    }
  }

  lemma KindsDistinct(doc: Json, rule: Rule)
    ensures NoDuplicates(Kinds(doc, rule))
  {
    var v := Lookup(doc, rule.attribute);
    var a: seq<Kind> := if PresenceRuns(doc, rule.presence) && PresenceFails(v, AllowsEmpty(doc, rule.presence))
                        then [Blank] else [];
    var b := if rule.typ.Some? && Defined(v) && !HasType(v.value, rule.typ.value)
             then [NotOfType(rule.typ.value)] else [];
    var c := if rule.numericality.Some? && Defined(v) then NumericKinds(v.value, rule.numericality.value) else [];
    if rule.numericality.Some? && Defined(v) {
      NumericKindsDistinct(v.value, rule.numericality.value);
    }
    AppendNoDuplicates(a, b);
    AppendNoDuplicates(a + b, c);
  }

  /** The flat format drops repeated messages. Over a table with distinct attributes no
      violation is ever repeated, so the list above is exactly what validate.js returns. */
  lemma {:induction false} ValidateHasNoDuplicates(doc: Json, rules: seq<Rule>)
    requires forall i, j :: 0 <= i < j < |rules| ==> rules[i].attribute != rules[j].attribute
    ensures NoDuplicates(Validate(doc, rules))
  {
    if rules != [] {
      var head := CheckRule(doc, rules[0]);
      var rest := Validate(doc, rules[1..]);
      ValidateHasNoDuplicates(doc, rules[1..]);
      ValidateNamesTableAttributes(doc, rules[1..]);
      KindsDistinct(doc, rules[0]);
      forall i, j | 0 <= i < j < |head + rest|
        ensures (head + rest)[i] != (head + rest)[j]
      {
        if j >= |head| && i < |head| {
          var k :| 0 <= k < |rules[1..]| && rest[j - |head|].attribute == rules[1..][k].attribute;
          assert rules[1..][k] == rules[k + 1];
        }
      }
    }
  }
}
