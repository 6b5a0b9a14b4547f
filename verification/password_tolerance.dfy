/**
 The passphrase normaliser of `src/passwordTolerance.js`: a fixed-order chain of five pure
 string transforms, each switched on by a truthy flag in the `normalizers` policy object.
 */
module PasswordTolerance {
  import opened JsValue
  import opened Strings

  /** One normaliser class of the source; the constructor names are the class names. */
  datatype Step =
    LowerCaseNormalize | TrimNormalize | WhitespacesToDashNormalize | DigitsToSingleZeroNormalize | RemovePunctuationNormalize

  /** The one order in which steps are ever applied. */
  const StepOrder: seq<Step> :=
    [LowerCaseNormalize, TrimNormalize, WhitespacesToDashNormalize, DigitsToSingleZeroNormalize, RemovePunctuationNormalize]

  /** Position of a step in `StepOrder`. */
  function Rank(step: Step): (k: nat)
    ensures k < |StepOrder| && StepOrder[k] == step
  {
    match step
    case LowerCaseNormalize => 0
    case TrimNormalize => 1
    case WhitespacesToDashNormalize => 2
    case DigitsToSingleZeroNormalize => 3
    case RemovePunctuationNormalize => 4
  }

  /** The policy key that switches a step on. */
  function FlagName(step: Step): string
  {
    match step
    case LowerCaseNormalize => "lowerCase"
    case TrimNormalize => "trim"
    case WhitespacesToDashNormalize => "whitespacesToDash"
    case DigitsToSingleZeroNormalize => "digitsToSingleZero"
    case RemovePunctuationNormalize => "removePunctuation"
  }

  /** The steps of `order` whose flag reads truthy, kept in the order given. */
  function Select(normalizers: Json, order: seq<Step>): (steps: seq<Step>)
    requires forall i, j :: 0 <= i < j < |order| ==> Rank(order[i]) < Rank(order[j])
    ensures forall step :: step in steps <==> step in order && PropTruthy(normalizers, FlagName(step))
    ensures forall i, j :: 0 <= i < j < |steps| ==> Rank(steps[i]) < Rank(steps[j])
  {
    if order == [] then []
    else
      RankedTail(order);
      var rest := Select(normalizers, order[1..]);
      if PropTruthy(normalizers, FlagName(order[0])) then [order[0]] + rest else rest
  }

  /** Past the head of a strictly ranked order everything is still strictly ranked, and
      ranked above the head. */
  lemma RankedTail(order: seq<Step>)
    requires order != []
    requires forall i, j :: 0 <= i < j < |order| ==> Rank(order[i]) < Rank(order[j])
    ensures forall i, j :: 0 <= i < j < |order[1..]| ==> Rank(order[1..][i]) < Rank(order[1..][j])
    ensures forall step :: step in order[1..] ==> Rank(order[0]) < Rank(step)
  {
    var tail := order[1..];
    forall i, j | 0 <= i < j < |tail|
      ensures Rank(tail[i]) < Rank(tail[j])
    {
      assert tail[i] == order[i + 1] && tail[j] == order[j + 1];
    }
    forall step | step in tail
      ensures Rank(order[0]) < Rank(step)
    {
      var j :| 0 <= j < |tail| && tail[j] == step;
      assert order[j + 1] == step;
    }
  }

  /** `buildNormalizers`: the steps whose flag reads truthy, as a filter over the fixed order
      lowerCase, trim, whitespacesToDash, digitsToSingleZero, removePunctuation. */
  function BuildNormalizers(normalizers: Json): (steps: seq<Step>)
    ensures forall step :: step in steps <==> PropTruthy(normalizers, FlagName(step))
    ensures forall i, j :: 0 <= i < j < |steps| ==> Rank(steps[i]) < Rank(steps[j])
  {
    assert forall step :: step in StepOrder by {
      forall step ensures step in StepOrder {
        assert StepOrder[Rank(step)] == step;
      }
    }
    Select(normalizers, StepOrder)
  }

  /** The steps depend only on which flags are truthy ... */
  lemma BuildNormalizersDependsOnlyOnFlags(a: Json, b: Json)
    requires forall step :: PropTruthy(a, FlagName(step)) == PropTruthy(b, FlagName(step))
    ensures BuildNormalizers(a) == BuildNormalizers(b)
  {
    SelectDependsOnlyOnFlags(a, b, StepOrder);
  }

  lemma {:induction false} SelectDependsOnlyOnFlags(a: Json, b: Json, order: seq<Step>)
    requires forall i, j :: 0 <= i < j < |order| ==> Rank(order[i]) < Rank(order[j])
    requires forall step :: PropTruthy(a, FlagName(step)) == PropTruthy(b, FlagName(step))
    ensures Select(a, order) == Select(b, order)
  {
    if order != [] {
      SelectDependsOnlyOnFlags(a, b, order[1..]);
      assert PropTruthy(a, FlagName(order[0])) == PropTruthy(b, FlagName(order[0]));
    }
  }

  /** ... and so never on the order in which the policy lists its keys. */
  lemma BuildNormalizersIgnoresKeyOrder(f1: seq<(string, Json)>, f2: seq<(string, Json)>)
    requires DistinctKeys(f1)
    requires multiset(f1) == multiset(f2)
    ensures BuildNormalizers(JObj(f1)) == BuildNormalizers(JObj(f2))
  {
    forall step
      ensures PropTruthy(JObj(f1), FlagName(step)) == PropTruthy(JObj(f2), FlagName(step))
    {
      GetIgnoresKeyOrder(f1, f2, FlagName(step));
    }
    BuildNormalizersDependsOnlyOnFlags(JObj(f1), JObj(f2));
  }

  // ---------------------------------------------------------------------------
  // LowerCaseNormalize

  predicate IsAsciiUpper(c: char)
  {
    'A' <= c <= 'Z'
  }

  function LowerChar(c: char): char
  {
    if IsAsciiUpper(c) then (c as int + 32) as char else c
  }

  /** `toLowerCase`, on ASCII letters: same length, no upper-case letter left, every other
      character untouched, and each letter replaced by its own lower-case form. */
  function ToLowerCase(s: string): (r: string)
    ensures |r| == |s|
    ensures forall i :: 0 <= i < |r| ==> !IsAsciiUpper(r[i])
    ensures forall i :: 0 <= i < |s| && !IsAsciiUpper(s[i]) ==> r[i] == s[i]
    ensures forall i :: 0 <= i < |s| && IsAsciiUpper(s[i]) ==> r[i] as int == s[i] as int + 32
  {
    if s == [] then [] else [LowerChar(s[0])] + ToLowerCase(s[1..])
  }

  lemma ToLowerCaseIdempotent(s: string)
    ensures ToLowerCase(ToLowerCase(s)) == ToLowerCase(s)
  {
  }

  // ---------------------------------------------------------------------------
  // TrimNormalize

  /** Leading whitespace removed: a suffix of `s`, and everything cut was whitespace. */
  function TrimStart(s: string): (r: string)
    ensures |r| <= |s| && r == s[|s| - |r|..]
    ensures forall k :: 0 <= k < |s| - |r| ==> IsWhitespace(s[k])
    ensures r != [] ==> !IsWhitespace(r[0])
  {
    if s != [] && IsWhitespace(s[0]) then TrimStart(s[1..]) else s
  }

  /** Trailing whitespace removed: a prefix of `s`, and everything cut was whitespace. */
  function TrimEnd(s: string): (r: string)
    ensures |r| <= |s| && r == s[..|r|]
    ensures forall k :: |r| <= k < |s| ==> IsWhitespace(s[k])
    ensures r != [] ==> !IsWhitespace(r[|r| - 1])
  {
    if s != [] && IsWhitespace(s[|s| - 1]) then TrimEnd(s[..|s| - 1]) else s
  }

  /** `r` is the contiguous slice of `s` left once its edge whitespace is cut. */
  predicate IsTrimOf(r: string, s: string)
  {
    exists i :: 0 <= i <= |s| - |r| && IsTrimAt(r, s, i)
  }

  /** `r` sits at offset `i` of `s` with only whitespace on either side of it. */
  predicate IsTrimAt(r: string, s: string, i: nat)
    requires i + |r| <= |s|
  {
    && r == s[i..i + |r|]
    && (forall k :: 0 <= k < i ==> IsWhitespace(s[k]))
    && (forall k :: i + |r| <= k < |s| ==> IsWhitespace(s[k]))
  }

  /** `trim`: a contiguous slice of the input that neither starts nor ends with whitespace,
      where only whitespace at the two edges was removed. */
  function Trim(s: string): (r: string)
    ensures IsTrimOf(r, s)
    ensures r != [] ==> !IsWhitespace(r[0]) && !IsWhitespace(r[|r| - 1])
  {
    var t := TrimStart(s);
    var r := TrimEnd(t);
    var i := |s| - |t|;
    assert IsTrimAt(r, s, i);
    r
  }

  lemma TrimIdempotent(s: string)
    ensures Trim(Trim(s)) == Trim(s)
  {
  }

  // ---------------------------------------------------------------------------
  // WhitespacesToDashNormalize and DigitsToSingleZeroNormalize: both replace every maximal
  // run of one character class by a single mark character.

  /** `s` with its leading run of `inRun` characters removed. */
  function DropRun(s: string, inRun: char -> bool): (r: string)
    ensures |r| <= |s|
    ensures s != [] && inRun(s[0]) ==> |r| < |s|
    ensures r != [] ==> !inRun(r[0])
  {
    if s != [] && inRun(s[0]) then DropRun(s[1..], inRun) else s
  }

  /** `s.replace(/<class>+/g, mark)` for the class `inRun`. */
  function CollapseRuns(s: string, inRun: char -> bool, mark: char): (r: string)
    ensures |r| <= |s|
    ensures r != [] && s != [] && !inRun(s[0]) ==> r[0] == s[0]
    decreases |s|
  {
    if s == [] then []
    else if inRun(s[0]) then [mark] + CollapseRuns(DropRun(s, inRun), inRun, mark)
    else [s[0]] + CollapseRuns(s[1..], inRun, mark)
  }

  /** An independent, one-character-at-a-time reading of the same replacement, as a regular
      expression scanner performs it: a class character emits the mark only when it starts a
      run; `afterRun` records whether the previous character was in the class. */
  function ScanRuns(s: string, inRun: char -> bool, mark: char, afterRun: bool): string
  {
    if s == [] then []
    else
      var piece := if inRun(s[0]) then (if afterRun then [] else [mark]) else [s[0]];
      piece + ScanRuns(s[1..], inRun, mark, inRun(s[0]))
  }

  lemma {:induction false} ScanAfterRun(s: string, inRun: char -> bool, mark: char)
    ensures ScanRuns(s, inRun, mark, true) == ScanRuns(DropRun(s, inRun), inRun, mark, false)
  {
    if s != [] {
      if inRun(s[0]) {
        ScanAfterRun(s[1..], inRun, mark);
        assert [] + ScanRuns(s[1..], inRun, mark, true) == ScanRuns(s[1..], inRun, mark, true);
      }
    }
  }

  /** The run-dropping replacement agrees with the character scanner on every input. */
  lemma {:induction false} CollapseRunsMatchesScan(s: string, inRun: char -> bool, mark: char)
    ensures CollapseRuns(s, inRun, mark) == ScanRuns(s, inRun, mark, false)
    decreases |s|
  {
    if s != [] {
      if inRun(s[0]) {
        ScanAfterRun(s[1..], inRun, mark);
        assert DropRun(s, inRun) == DropRun(s[1..], inRun);
        CollapseRunsMatchesScan(DropRun(s, inRun), inRun, mark);
      } else {
        CollapseRunsMatchesScan(s[1..], inRun, mark);
      }
    }
  }

  /** No two neighbours are both class characters, and every class character is the mark. */
  predicate RunsCollapsed(r: string, inRun: char -> bool, mark: char)
  {
    && (forall i :: 0 <= i < |r| - 1 ==> !(inRun(r[i]) && inRun(r[i + 1])))
    && (forall i :: 0 <= i < |r| && inRun(r[i]) ==> r[i] == mark)
  }

  lemma {:induction false} CollapseRunsCollapsed(s: string, inRun: char -> bool, mark: char)
    ensures RunsCollapsed(CollapseRuns(s, inRun, mark), inRun, mark)
    decreases |s|
  {
    if s != [] {
      if inRun(s[0]) {
        var t := DropRun(s, inRun);
        CollapseRunsCollapsed(t, inRun, mark);
        var rest := CollapseRuns(t, inRun, mark);
        assert rest != [] ==> !inRun(rest[0]);
        var r := [mark] + rest;
        assert forall i :: 1 <= i < |r| ==> r[i] == rest[i - 1];
      } else {
        CollapseRunsCollapsed(s[1..], inRun, mark);
        var r := [s[0]] + CollapseRuns(s[1..], inRun, mark);
        assert forall i :: 1 <= i < |r| ==> r[i] == CollapseRuns(s[1..], inRun, mark)[i - 1];
      }
    }
  }

  /** A string whose runs are already collapsed is left unchanged. */
  lemma {:induction false} CollapseRunsFixed(s: string, inRun: char -> bool, mark: char)
    requires RunsCollapsed(s, inRun, mark)
    ensures CollapseRuns(s, inRun, mark) == s
    decreases |s|
  {
    if s != [] {
      assert RunsCollapsed(s[1..], inRun, mark) by {
        assert forall i :: 0 <= i < |s| - 1 ==> s[1..][i] == s[i + 1];
      }
      if inRun(s[0]) {
        assert |s| > 1 ==> !inRun(s[1]);
        assert DropRun(s, inRun) == s[1..];
      }
      CollapseRunsFixed(s[1..], inRun, mark);
    }
  }

  /** Characters outside the class, other than the mark itself, survive in order. */
  lemma {:induction false} CollapseRunsKeepsOthers(s: string, inRun: char -> bool, mark: char, keep: char -> bool)
    requires forall c :: keep(c) ==> !inRun(c)
    requires !keep(mark)
    ensures Filter(keep, CollapseRuns(s, inRun, mark)) == Filter(keep, s)
    decreases |s|
  {
    if s != [] {
      if inRun(s[0]) {
        var t := DropRun(s, inRun);
        CollapseRunsKeepsOthers(t, inRun, mark, keep);
        FilterAppend(keep, [mark], CollapseRuns(t, inRun, mark));
        FilterDropsRun(s, inRun, keep);
      } else {
        CollapseRunsKeepsOthers(s[1..], inRun, mark, keep);
        FilterAppend(keep, [s[0]], CollapseRuns(s[1..], inRun, mark));
      }
    }
  }

  lemma {:induction false} FilterDropsRun(s: string, inRun: char -> bool, keep: char -> bool)
    requires forall c :: keep(c) ==> !inRun(c)
    ensures Filter(keep, DropRun(s, inRun)) == Filter(keep, s)
  {
    if s != [] && inRun(s[0]) {
      FilterDropsRun(s[1..], inRun, keep);
    }
  }

  /** A split point that does not cut a run lets the replacement work piece by piece. */
  lemma {:induction false} CollapseRunsAppend(a: string, b: string, inRun: char -> bool, mark: char)
    requires b == [] || !inRun(b[0])
    ensures CollapseRuns(a + b, inRun, mark) == CollapseRuns(a, inRun, mark) + CollapseRuns(b, inRun, mark)
    decreases |a|, 1
  {
    if a == [] {
      assert a + b == b;
    } else if inRun(a[0]) {
      CollapseRunsAppendRun(a, b, inRun, mark);
    } else {
      CollapseRunsAppendOther(a, b, inRun, mark);
    }
  }

  /** The split point lies after a run that opens `a`. */
  lemma {:induction false} CollapseRunsAppendRun(a: string, b: string, inRun: char -> bool, mark: char)
    requires a != [] && inRun(a[0])
    requires b == [] || !inRun(b[0])
    ensures CollapseRuns(a + b, inRun, mark) == CollapseRuns(a, inRun, mark) + CollapseRuns(b, inRun, mark)
    decreases |a|, 0
  {
    var t := DropRun(a, inRun);
    assert (a + b)[0] == a[0];
    CollapseRunsOpeningRun(a, inRun, mark);
    CollapseRunsOpeningRun(a + b, inRun, mark);
    DropRunAppend(a, b, inRun);
    CollapseRunsAppend(t, b, inRun, mark);
    AppendAssociative<char>([mark], CollapseRuns(t, inRun, mark), CollapseRuns(b, inRun, mark));
  }

  /** A leading run becomes one mark, and the replacement goes on after it. */
  lemma CollapseRunsOpeningRun(s: string, inRun: char -> bool, mark: char)
    requires s != [] && inRun(s[0])
    ensures CollapseRuns(s, inRun, mark) == [mark] + CollapseRuns(DropRun(s, inRun), inRun, mark)
  {
  }

  /** The split point lies after a character outside the class that opens `a`. */
  lemma {:induction false} CollapseRunsAppendOther(a: string, b: string, inRun: char -> bool, mark: char)
    requires a != [] && !inRun(a[0])
    requires b == [] || !inRun(b[0])
    ensures CollapseRuns(a + b, inRun, mark) == CollapseRuns(a, inRun, mark) + CollapseRuns(b, inRun, mark)
    decreases |a|, 0
  {
    var t := a[1..];
    assert CollapseRuns(a + b, inRun, mark) == [a[0]] + CollapseRuns(t + b, inRun, mark) by {
      assert (a + b)[0] == a[0];
      assert (a + b)[1..] == t + b;
    }
    CollapseRunsAppend(t, b, inRun, mark);
    AppendAssociative<char>([a[0]], CollapseRuns(t, inRun, mark), CollapseRuns(b, inRun, mark));
  }

  lemma {:induction false} DropRunAppend(a: string, b: string, inRun: char -> bool)
    requires b == [] || !inRun(b[0])
    ensures DropRun(a + b, inRun) == DropRun(a, inRun) + b
  {
    if a == [] {
      assert a + b == b;
    } else if inRun(a[0]) {
      assert (a + b)[1..] == a[1..] + b;
      DropRunAppend(a[1..], b, inRun);
    }
  }

  predicate NotWhitespaceOrDash(c: char)
  {
    !IsWhitespace(c) && c != '-'
  }

  predicate NotDigit(c: char)
  {
    !IsDigit(c)
  }

  /** `replace(/\s+/g, '-')`: no whitespace is left, each maximal whitespace run became
      exactly one dash, and all other characters keep their order. */
  function WhitespacesToDash(s: string): (r: string)
    ensures |r| <= |s|
    ensures forall i :: 0 <= i < |r| ==> !IsWhitespace(r[i])
    ensures r == ScanRuns(s, IsWhitespace, '-', false)
    ensures Filter(NotWhitespaceOrDash, r) == Filter(NotWhitespaceOrDash, s)
  {
    CollapseRunsCollapsed(s, IsWhitespace, '-');
    CollapseRunsMatchesScan(s, IsWhitespace, '-');
    CollapseRunsKeepsOthers(s, IsWhitespace, '-', NotWhitespaceOrDash);
    CollapseRuns(s, IsWhitespace, '-')
  }

  /** `replace(/\d+/g, '0')`: no two adjacent digits, no digit other than '0', each maximal
      digit run became exactly one '0', and the non-digits keep their order. */
  function DigitsToSingleZero(s: string): (r: string)
    ensures |r| <= |s|
    ensures forall i :: 0 <= i < |r| - 1 ==> !(IsDigit(r[i]) && IsDigit(r[i + 1]))
    ensures forall i :: 0 <= i < |r| && IsDigit(r[i]) ==> r[i] == '0'
    ensures r == ScanRuns(s, IsDigit, '0', false)
    ensures Filter(NotDigit, r) == Filter(NotDigit, s)
  {
    CollapseRunsCollapsed(s, IsDigit, '0');
    CollapseRunsMatchesScan(s, IsDigit, '0');
    CollapseRunsKeepsOthers(s, IsDigit, '0', NotDigit);
    CollapseRuns(s, IsDigit, '0')
  }

  lemma WhitespacesToDashIdempotent(s: string)
    ensures WhitespacesToDash(WhitespacesToDash(s)) == WhitespacesToDash(s)
  {
    var r := CollapseRuns(s, IsWhitespace, '-');
    CollapseRunsCollapsed(s, IsWhitespace, '-');
    CollapseRunsFixed(r, IsWhitespace, '-');
  }

  lemma DigitsToSingleZeroIdempotent(s: string)
    ensures DigitsToSingleZero(DigitsToSingleZero(s)) == DigitsToSingleZero(s)
  {
    var r := CollapseRuns(s, IsDigit, '0');
    CollapseRunsCollapsed(s, IsDigit, '0');
    CollapseRunsFixed(r, IsDigit, '0');
  }

  // ---------------------------------------------------------------------------
  // RemovePunctuationNormalize

  predicate IsAsciiAlphanumeric(c: char)
  {
    ('a' <= c <= 'z') || ('A' <= c <= 'Z') || ('0' <= c <= '9')
  }

  /** ASCII punctuation: the printable, non-space ASCII characters that are neither letters
      nor digits (32 characters, backslash included). */
  predicate IsPunctuation(c: char)
  {
    '!' <= c <= '~' && !IsAsciiAlphanumeric(c)
  }

  predicate NotPunctuation(c: char)
  {
    !IsPunctuation(c)
  }

  /** The class the source's regular expression actually denotes. Inside a bracket class
      `\]` is an escaped `]`, and `,-.` is the range from ',' to '.'. */
  predicate IsPunctuationAsWritten(c: char)
  {
    c in {'!', '"', '#', '$', '%', '&', '\'', '(', ')', '*', '+', ',', '-', '.', '/', ':', ';',
          '<', '=', '>', '?', '@', '[', ']', '^', '_', '`', '{', '|', '}', '~'}
  }

  predicate NotPunctuationAsWritten(c: char)
  {
    !IsPunctuationAsWritten(c)
  }

  /** The written class is ASCII punctuation with the backslash missing. */
  lemma PunctuationAsWrittenMissesBackslash(c: char)
    ensures IsPunctuationAsWritten(c) <==> IsPunctuation(c) && c != '\\'
  {
  }

  /** The step as the source writes it: nothing of the written class is left, the result is
      a subsequence of the input, and every other character, the backslash included, occurs
      as often as before. */
  function RemovePunctuationAsWritten(s: string): (r: string)
    ensures forall i :: 0 <= i < |r| ==> !IsPunctuationAsWritten(r[i])
    ensures IsSubsequence(r, s)
    ensures forall c :: !IsPunctuationAsWritten(c) ==> Count(c, r) == Count(c, s)
  {
    FilterIsSubsequence(NotPunctuationAsWritten, s);
    forall c | !IsPunctuationAsWritten(c)
      ensures Count(c, Filter(NotPunctuationAsWritten, s)) == Count(c, s)
    {
      FilterCount(NotPunctuationAsWritten, c, s);
    }
    Filter(NotPunctuationAsWritten, s)
  }

  lemma RemovePunctuationAsWrittenIdempotent(s: string)
    ensures RemovePunctuationAsWritten(RemovePunctuationAsWritten(s)) == RemovePunctuationAsWritten(s)
  {
    FilterAllKept(NotPunctuationAsWritten, RemovePunctuationAsWritten(s));
  }

  /** A backslash survives the step as written although it is ASCII punctuation. */
  lemma RemovePunctuationAsWrittenKeepsBackslash()
    ensures RemovePunctuationAsWritten("a\\b") == "a\\b"
    ensures exists i :: 0 <= i < |RemovePunctuationAsWritten("a\\b")|
                        && IsPunctuation(RemovePunctuationAsWritten("a\\b")[i])
  {
    assert RemovePunctuationAsWritten("a\\b") == "a\\b";
    assert IsPunctuation("a\\b"[1]);
  }

  /** Removes exactly the ASCII punctuation: none is left, the result is a subsequence of the
      input, and every other character occurs as often as before. */
  function RemovePunctuation(s: string): (r: string)
    ensures |r| <= |s|
    ensures forall i :: 0 <= i < |r| ==> !IsPunctuation(r[i])
    ensures IsSubsequence(r, s)
    ensures forall c :: !IsPunctuation(c) ==> Count(c, r) == Count(c, s)
  {
    FilterIsSubsequence(NotPunctuation, s);
    forall c | !IsPunctuation(c)
      ensures Count(c, Filter(NotPunctuation, s)) == Count(c, s)
    {
      FilterCount(NotPunctuation, c, s);
    }
    Filter(NotPunctuation, s)
  }

  lemma RemovePunctuationIdempotent(s: string)
    ensures RemovePunctuation(RemovePunctuation(s)) == RemovePunctuation(s)
  {
    FilterAllKept(NotPunctuation, RemovePunctuation(s));
  }

  predicate NotBackslash(c: char)
  {
    c != '\\'
  }

  /** The corrected step is the step as written followed by dropping every backslash, so
      the two agree on every passphrase without a backslash. */
  lemma RemovePunctuationIsWrittenWithoutBackslash(s: string)
    ensures RemovePunctuation(s) == Filter(NotBackslash, RemovePunctuationAsWritten(s))
    ensures (forall i :: 0 <= i < |s| ==> s[i] != '\\') ==> RemovePunctuation(s) == RemovePunctuationAsWritten(s)
  {
    FilterDropsBackslashes(s);
    if forall i :: 0 <= i < |s| ==> s[i] != '\\' {
      FilterKeepsAbsence(NotPunctuationAsWritten, s, '\\');
      FilterAllKept(NotBackslash, RemovePunctuationAsWritten(s));
    }
  }

  lemma {:induction false} FilterDropsBackslashes(s: string)
    ensures Filter(NotPunctuation, s) == Filter(NotBackslash, Filter(NotPunctuationAsWritten, s))
  {
    if s != [] {
      FilterDropsBackslashes(s[1..]);
      var head := if NotPunctuationAsWritten(s[0]) then [s[0]] else [];
      FilterAppend(NotBackslash, head, Filter(NotPunctuationAsWritten, s[1..]));
      PunctuationAsWrittenMissesBackslash(s[0]);
      if head != [] {
        assert head[1..] == [];
      }
    }
  }

  /** Filtering cannot introduce a character the input lacks. */
  lemma {:induction false} FilterKeepsAbsence(keep: char -> bool, s: string, c: char)
    requires forall i :: 0 <= i < |s| ==> s[i] != c
    ensures forall i :: 0 <= i < |Filter(keep, s)| ==> Filter(keep, s)[i] != c
  {
    if s != [] {
      FilterKeepsAbsence(keep, s[1..], c);
    }
  }

  lemma {:induction false} FilterAllKept(keep: char -> bool, s: string)
    requires forall i :: 0 <= i < |s| ==> keep(s[i])
    ensures Filter(keep, s) == s
  {
    if s != [] {
      FilterAllKept(keep, s[1..]);
    }
  }

  // ---------------------------------------------------------------------------
  // PasswordTolerance.normalize

  /** One step, as its `normalize` method; no step lengthens the string. */
  function Apply(step: Step, s: string): (r: string)
    ensures |r| <= |s|
  {
    match step
    case LowerCaseNormalize => ToLowerCase(s)
    case TrimNormalize => Trim(s)
    case WhitespacesToDashNormalize => WhitespacesToDash(s)
    case DigitsToSingleZeroNormalize => DigitsToSingleZero(s)
    case RemovePunctuationNormalize => RemovePunctuation(s)
  }

  lemma ApplyIdempotent(step: Step, s: string)
    ensures Apply(step, Apply(step, s)) == Apply(step, s)
  {
    match step
    case LowerCaseNormalize => ToLowerCaseIdempotent(s);
    case TrimNormalize => TrimIdempotent(s);
    case WhitespacesToDashNormalize => WhitespacesToDashIdempotent(s);
    case DigitsToSingleZeroNormalize => DigitsToSingleZeroIdempotent(s);
    case RemovePunctuationNormalize => RemovePunctuationIdempotent(s);
  }

  /** `normalize`: feeds the passphrase through the steps left to right. The result is never
      longer than the input, and with no step it is the input itself. */
  function Normalize(steps: seq<Step>, s: string): (r: string)
    ensures |r| <= |s|
    ensures steps == [] ==> r == s
  {
    if steps == [] then s else Normalize(steps[1..], Apply(steps[0], s))
  }

  /** Running the chain is running its first part, then the rest. */
  lemma {:induction false} NormalizeAppend(a: seq<Step>, b: seq<Step>, s: string)
    ensures Normalize(a + b, s) == Normalize(b, Normalize(a, s))
  {
    if a != [] {
      assert (a + b)[1..] == a[1..] + b;
      NormalizeAppend(a[1..], b, Apply(a[0], s));
    } else {
      assert a + b == b;
    }
  }

  /** A policy object with no truthy flag leaves every passphrase unchanged. */
  lemma NormalizeWithoutFlags(normalizers: Json, s: string)
    requires forall step :: !PropTruthy(normalizers, FlagName(step))
    ensures Normalize(BuildNormalizers(normalizers), s) == s
  {
    assert !PropTruthy(normalizers, FlagName(LowerCaseNormalize));
    assert !PropTruthy(normalizers, FlagName(TrimNormalize));
    assert !PropTruthy(normalizers, FlagName(WhitespacesToDashNormalize));
    assert !PropTruthy(normalizers, FlagName(DigitsToSingleZeroNormalize));
    assert !PropTruthy(normalizers, FlagName(RemovePunctuationNormalize));
  }
}
