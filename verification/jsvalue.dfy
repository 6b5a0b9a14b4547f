/**
 The JavaScript values the library reads: the server-instructions policy document and the
 opaque `state` body. Objects keep their keys in insertion order, so that order-independence
 claims can be stated at all; numbers are exact reals (floating point is not modelled).
 */
module JsValue {
  import opened Wrappers
  import Strings

  datatype Json =
    | JNull
    | JBool(b: bool)
    | JNum(n: real)
    | JStr(s: string)
    | JArr(items: seq<Json>)
    | JObj(fields: seq<(string, Json)>)

  /** ECMAScript ToBoolean: `false`, `0`, `""` and `null` are falsy, every object is truthy. */
  predicate Truthy(v: Json)
  {
    match v
    case JNull => false
    case JBool(b) => b
    case JNum(n) => n != 0.0
    case JStr(s) => s != ""
    case JArr(_) => true
    case JObj(_) => true
  }

  /** Truthiness of a read that may be `undefined` (`None`), which is falsy. */
  predicate TruthyAt(v: Option<Json>)
  {
    v.Some? && Truthy(v.value)
  }

  /** validate.js `isDefined`: neither `null` nor `undefined`. */
  predicate Defined(v: Option<Json>)
  {
    v.Some? && !v.value.JNull?
  }

  predicate DistinctKeys(fields: seq<(string, Json)>)
  {
    forall i, j :: 0 <= i < j < |fields| ==> fields[i].0 != fields[j].0
  }

  /** Own-property read `obj[key]`: the last binding of `key` wins, as in an object literal. */
  function Get(fields: seq<(string, Json)>, key: string): (r: Option<Json>)
    ensures r.None? <==> forall i :: 0 <= i < |fields| ==> fields[i].0 != key
    ensures r.Some? ==> exists i :: 0 <= i < |fields| && fields[i] == (key, r.value)
                                  && forall j :: i < j < |fields| ==> fields[j].0 != key
  {
    if fields == [] then None
    else
      var later := Get(fields[1..], key);
      if later.Some? then later
      else if fields[0].0 == key then Some(fields[0].1)
      else None
  }

  /** In an object without repeated keys, a read depends only on the set of bindings:
      reordering the keys never changes what any read returns. */
  lemma GetIgnoresKeyOrder(f1: seq<(string, Json)>, f2: seq<(string, Json)>, key: string)
    requires DistinctKeys(f1)
    requires multiset(f1) == multiset(f2)
    ensures Get(f1, key) == Get(f2, key)
  {
    var r2 := Get(f2, key);
    if r2.Some? {
      var i2 :| 0 <= i2 < |f2| && f2[i2] == (key, r2.value);
      assert f2[i2] in multiset(f2);
      assert (key, r2.value) in f1;
      var i1 :| 0 <= i1 < |f1| && f1[i1] == (key, r2.value);
      var r1 := Get(f1, key);
      var j1 :| 0 <= j1 < |f1| && f1[j1] == (key, r1.value);
      assert i1 == j1;
    } else {
      forall i | 0 <= i < |f1|
        ensures f1[i].0 != key
      {
        assert f1[i] in multiset(f1);
        assert f1[i] in f2;
      }
    }
  }

  /** A JavaScript property read `v.key` on an arbitrary value: own keys of objects;
      primitives and arrays carry none of the policy's keys. */
  function Prop(v: Json, key: string): Option<Json>
  {
    if v.JObj? then Get(v.fields, key) else None
  }

  /** Names of the methods on `String.prototype` (ECMAScript 2023). */
  const StringPrototypeMethods: set<string> := {
    "at", "charAt", "charCodeAt", "codePointAt", "concat", "endsWith", "includes",
    "indexOf", "lastIndexOf", "localeCompare", "match", "matchAll", "normalize",
    "padEnd", "padStart", "repeat", "replace", "replaceAll", "search", "slice", "split",
    "startsWith", "substring", "toLocaleLowerCase", "toLocaleUpperCase", "toLowerCase",
    "toString", "toUpperCase", "toWellFormed", "isWellFormed", "trim", "trimEnd",
    "trimStart", "valueOf", "constructor"
  }

  /** Truthiness of `v.key`: on a string, a key naming a `String.prototype` method reads that
      method, which is a truthy function object. */
  predicate PropTruthy(v: Json, key: string)
  {
    match v
    case JStr(_) => key in StringPrototypeMethods
    case _ => TruthyAt(Prop(v, key))
  }

  /** validate.js `getDeepObjectValue`: follows a dotted path through objects only. */
  function Lookup(doc: Json, path: seq<string>): (r: Option<Json>)
    ensures |path| == 1 ==> r == Prop(doc, path[0])
    decreases |path|
  {
    if path == [] then Some(doc)
    else match Prop(doc, path[0])
      case None => None
      case Some(child) => Lookup(child, path[1..])
  }

  /** Truthiness of the JavaScript chain `doc.p0.p1 ...` read with `&&` guards. */
  predicate PathTruthy(doc: Json, path: seq<string>)
    decreases |path|
  {
    if path == [] then Truthy(doc)
    else if |path| == 1 then PropTruthy(doc, path[0])
    else match Prop(doc, path[0])
      case None => false
      case Some(child) => PathTruthy(child, path[1..])
  }

  /** On keys no string method is named after, the guarded chain is truthy exactly when
      the value at the end of the path is. */
  lemma {:induction false} PathTruthyIsTruthyLookup(doc: Json, path: seq<string>)
    requires path != [] && path[|path| - 1] !in StringPrototypeMethods
    ensures PathTruthy(doc, path) <==> TruthyAt(Lookup(doc, path))
    decreases |path|
  {
    if |path| > 1 {
      match Prop(doc, path[0])
      case None =>
      case Some(child) =>
        assert path[1..][|path[1..]| - 1] == path[|path| - 1];
        PathTruthyIsTruthyLookup(child, path[1..]);
    }
  }

  predicate IsIntegral(x: real)
  {
    x == x.Floor as real
  }

  /** Template-literal conversion `${v}`. Integral numbers below 10^21 print in plain decimal;
      any other number is printed by the host engine's `Number.prototype.toString`,
      passed in as `renderNumber`. */
  function Stringify(v: Json, renderNumber: real -> string): string
    decreases v
  {
    match v
    case JNull => "null"
    case JBool(b) => if b then "true" else "false"
    case JNum(n) =>
      if IsIntegral(n) && -1e21 < n < 1e21 then Strings.IntToString(n.Floor) else renderNumber(n)
    case JStr(s) => s
    case JArr(items) => JoinElements(v, items, renderNumber)
    case JObj(_) => "[object Object]"
  }

  /** `Array.prototype.join(",")` as used by array-to-string: `null` elements print empty. */
  function JoinElements(parent: Json, items: seq<Json>, renderNumber: real -> string): string
    requires forall k :: 0 <= k < |items| ==> items[k] < parent
    decreases parent, |items|
  {
    if items == [] then ""
    else
      var head := if items[0].JNull? then "" else Stringify(items[0], renderNumber);
      if |items| == 1 then head else head + "," + JoinElements(parent, items[1..], renderNumber)
  }

  /** JavaScript's `\s` class and the characters `String.prototype.trim` removes: the
      WhiteSpace and LineTerminator productions of ECMAScript. */
  predicate IsWhitespace(c: char)
  {
    || c == '\t' || c == '\n' || c == '\U{B}' || c == '\U{C}' || c == '\r' || c == ' '
    || c == '\U{A0}' || c == '\U{1680}' || ('\U{2000}' <= c <= '\U{200A}')
    || c == '\U{2028}' || c == '\U{2029}' || c == '\U{202F}' || c == '\U{205F}'
    || c == '\U{3000}' || c == '\U{FEFF}'
  }

  /** `s.length`: the number of UTF-16 code units, two for characters beyond U+FFFF. */
  function Utf16Length(s: string): (n: nat)
    ensures |s| <= n <= 2 * |s|
  {
    if s == [] then 0 else (if s[0] as int > 0xFFFF then 2 else 1) + Utf16Length(s[1..])
  }
}
