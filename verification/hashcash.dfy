/**
 The proof-of-work header of src/utils.js `generateHashCash`: a colon-separated stamp whose
 SHA-1 digest, written out in binary, starts with `zeroCount` zero bits. The IP address,
 the clock reading and the random draw are parameters; SHA-1 is an arbitrary function with
 20-byte outputs.
 */
module Hashcash {
  import opened Wrappers
  import opened Strings
  import opened Encoding

  // ---------------------------------------------------------------------------
  // The `yyyymmdd-HHMMss` timestamp.

  /** A local calendar reading, month counted from 1. */
  datatype DateTime = DateTime(year: nat, month: nat, day: nat, hour: nat, minute: nat, second: nat)

  predicate ValidDateTime(t: DateTime)
  {
    && t.year <= 9999 && 1 <= t.month <= 12 && 1 <= t.day <= 31
    && t.hour < 24 && t.minute < 60 && t.second < 60
  }

  /** The date library's `pad`: decimal digits, left-filled with `'0'` up to `width`. */
  function Pad(n: nat, width: nat): (r: string)
    ensures forall i :: 0 <= i < |r| ==> IsDigit(r[i])
  {
    var digits := NatToString(n);
    if |digits| >= width then digits else Repeat('0', width - |digits|) + digits
  }

  lemma {:induction false} DigitsValueZeros(k: nat)
    ensures DigitsValue(Repeat('0', k)) == 0
  {
    if k > 0 {
      assert Repeat('0', k)[..k - 1] == Repeat('0', k - 1);
      DigitsValueZeros(k - 1);
    }
  }

  /** Leading zeros do not change a decimal value. */
  lemma {:induction false} DigitsValueLeadingZeros(k: nat, s: string)
    requires forall i :: 0 <= i < |s| ==> IsDigit(s[i])
    ensures DigitsValue(Repeat('0', k) + s) == DigitsValue(s)
    decreases |s|
  {
    if s == [] {
      assert Repeat('0', k) + s == Repeat('0', k);
      DigitsValueZeros(k);
    } else {
      var z := Repeat('0', k) + s;
      assert z[..|z| - 1] == Repeat('0', k) + s[..|s| - 1];
      DigitsValueLeadingZeros(k, s[..|s| - 1]);
    }
  }

  /** Padding is undone by reading the digits back, and it is exactly `width` long
      whenever the number fits. */
  lemma PadValue(n: nat, width: nat)
    ensures ParseNat(Pad(n, width)) == if |Pad(n, width)| == 0 then None else Some(n)
    ensures |NatToString(n)| <= width ==> |Pad(n, width)| == width
    ensures |Pad(n, width)| > 0
  {
    var digits := NatToString(n);
    DigitsValueOfNatToString(n);
    if |digits| < width {
      DigitsValueLeadingZeros(width - |digits|, digits);
    }
  }

  /** A number below 10^k has at most k decimal digits. */
  lemma {:induction false} NatToStringLength(n: nat, k: nat)
    requires k >= 1 && n < Pow10(k)
    ensures |NatToString(n)| <= k
    decreases k
  {
    if n >= 10 {
      assert k >= 2 && n / 10 < Pow10(k - 1);
      NatToStringLength(n / 10, k - 1);
    }
  }

  function Pow10(k: nat): (p: nat)
    ensures p >= 1
  {
    if k == 0 then 1 else 10 * Pow10(k - 1)
  }

  /** `dateFormat(now, "yyyymmdd-HHMMss")`. */
  function FormatTimestamp(t: DateTime): (r: string)
    ensures ':' !in r
  {
    FormatDate(t) + "-" + FormatTime(t)
  }

  function FormatDate(t: DateTime): string
  {
    Pad(t.year, 4) + Pad(t.month, 2) + Pad(t.day, 2)
  }

  function FormatTime(t: DateTime): string
  {
    Pad(t.hour, 2) + Pad(t.minute, 2) + Pad(t.second, 2)
  }

  lemma ThreeFields(a: string, b: string, c: string)
    requires |a| == 2 && |b| == 2 && |c| == 2
    ensures var r := a + b + c; |r| == 6 && r[..2] == a && r[2..4] == b && r[4..] == c
  {
  }

  lemma PadFits(n: nat, width: nat)
    requires n < Pow10(width) && width > 0
    ensures |Pad(n, width)| == width && ParseNat(Pad(n, width)) == Some(n)
  {
    NatToStringLength(n, width);
    PadValue(n, width);
  }

  /** A valid reading gives fifteen characters from which every field reads back. */
  lemma TimestampFields(t: DateTime)
    requires ValidDateTime(t)
    ensures var r := FormatTimestamp(t);
            && |r| == 15 && r[8] == '-'
            && ParseNat(r[..4]) == Some(t.year) && ParseNat(r[4..6]) == Some(t.month)
            && ParseNat(r[6..8]) == Some(t.day) && ParseNat(r[9..11]) == Some(t.hour)
            && ParseNat(r[11..13]) == Some(t.minute) && ParseNat(r[13..]) == Some(t.second)
  {
    assert Pow10(2) == 100 && Pow10(4) == 10000;
    PadFits(t.year, 4);
    PadFits(t.month, 2);
    PadFits(t.day, 2);
    PadFits(t.hour, 2);
    PadFits(t.minute, 2);
    PadFits(t.second, 2);
    var date, time := FormatDate(t), FormatTime(t);
    ThreeFields(Pad(t.hour, 2), Pad(t.minute, 2), Pad(t.second, 2));
    assert date[..4] == Pad(t.year, 4) && date[4..6] == Pad(t.month, 2) && date[6..] == Pad(t.day, 2);
    var r := FormatTimestamp(t);
    assert r[..8] == date && r[9..] == time;
    assert r[..4] == date[..4] && r[4..6] == date[4..6] && r[6..8] == date[6..];
    assert r[9..11] == time[..2] && r[11..13] == time[2..4] && r[13..] == time[4..];
  }

  // ---------------------------------------------------------------------------
  // Candidate headers and the acceptance test.

  /** What stays fixed across one search: the two policy parameters, already rendered by
      template-literal conversion, the single clock and IP readings, and the random string. */
  datatype Stamp = Stamp(zeroCount: nat, serverString: string, timestamp: string, ip: string, randomString: string)

  /** The header tried with a given counter. */
  function Candidate(st: Stamp, counter: nat): string
  {
    Join([NatToString(st.zeroCount), st.timestamp, st.ip, st.serverString, st.randomString,
          Btoa(NatToString(counter))], ':')
  }

  /** Every candidate splits back into its six fields, provided the IP address, the
      timestamp, the server string and the random string carry no colon. */
  lemma CandidateFields(st: Stamp, counter: nat)
    requires ':' !in st.timestamp && ':' !in st.ip && ':' !in st.serverString && ':' !in st.randomString
    ensures Split(Candidate(st, counter), ':') ==
            [NatToString(st.zeroCount), st.timestamp, st.ip, st.serverString, st.randomString,
             Btoa(NatToString(counter))]
  {
    var fields := [NatToString(st.zeroCount), st.timestamp, st.ip, st.serverString, st.randomString,
                   Btoa(NatToString(counter))];
    assert ':' !in NatToString(st.zeroCount) by {
      assert forall i :: 0 <= i < |NatToString(st.zeroCount)| ==> IsDigit(NatToString(st.zeroCount)[i]);
    }
    assert forall k :: 0 <= k < |fields| ==> ':' !in fields[k];
    SplitJoin(fields, ':');
  }

  /** The first field of a candidate reads back as `zeroCount`, the fourth is the server
      string, and the last decodes to the counter's decimal text. */
  lemma CandidateReadsBack(st: Stamp, counter: nat)
    requires ':' !in st.timestamp && ':' !in st.ip && ':' !in st.serverString && ':' !in st.randomString
    ensures var fields := Split(Candidate(st, counter), ':');
            && |fields| == 6
            && ParseNat(fields[0]) == Some(st.zeroCount)
            && fields[3] == st.serverString
            && Base64Decode(fields[5]).Some?
            && Utf8Decode(Base64Decode(fields[5]).value) == Some(NatToString(counter))
  {
    CandidateFields(st, counter);
    ParseNatToString(st.zeroCount);
    BtoaRoundTrip(NatToString(counter));
  }

  /** `hexToBinary(sha1hex(header)).startsWith("0".repeat(zeroCount))`. */
  predicate Accepts(sha1: Sha1, zeroCount: nat, header: string)
  {
    StartsWith(BinaryHash(sha1, header), Repeat('0', zeroCount))
  }

  /** Acceptance, read as a number: the digest, taken as a 160-bit big-endian integer, is
      below 2^(160 - zeroCount). No digest has more than 160 leading zeros. */
  lemma AcceptsIffSmallDigest(sha1: Sha1, zeroCount: nat, header: string)
    ensures zeroCount <= 160 ==>
              (Accepts(sha1, zeroCount, header) <==> BigEndian(sha1(Utf8(header))) < Pow2(160 - zeroCount))
    ensures zeroCount > 160 ==> !Accepts(sha1, zeroCount, header)
  {
    var bits := BinaryHash(sha1, header);
    var digest := sha1(Utf8(header));
    if zeroCount <= 160 {
      var zeros := Repeat('0', zeroCount);
      assert StartsWith(bits, zeros) <==> forall i :: 0 <= i < zeroCount ==> bits[i] == '0' by {
        if forall i :: 0 <= i < zeroCount ==> bits[i] == '0' {
          assert bits[..zeroCount] == zeros;
        }
        if StartsWith(bits, zeros) {
          forall i | 0 <= i < zeroCount
            ensures bits[i] == '0'
          {
            assert bits[..zeroCount][i] == zeros[i];
          }
        }
      }
      LeadingZerosIffSmall(bits, zeroCount);
      BitsValue(digest);
    }
  }

  /** 2^53: beyond it a JavaScript number no longer holds every integer. */
  const MaxSafe: nat := 0x20_0000_0000_0000

  /** `counter++` on a JavaScript number starting at 0: at 2^53 adding one rounds back
      down, so the counter sticks there. The loop bound `Number.MAX_VALUE - 1` is therefore
      never reached. */
  function JsIncrement(counter: nat): (r: nat)
    ensures counter < MaxSafe ==> r == counter + 1
    ensures counter >= MaxSafe ==> r == counter
  {
    if counter < MaxSafe then counter + 1 else counter
  }

  /** The inner loop, cut off after `fuel` tries: the first counter `passes` accepts, if any. */
  function Search(passes: nat -> bool, counter: nat, fuel: nat): Option<nat>
    decreases fuel
  {
    if fuel == 0 then None
    else if passes(counter) then Some(counter)
    else Search(passes, JsIncrement(counter), fuel - 1)
  }

  /** The acceptance test of one stamp, as a function of the counter. */
  function Passes(sha1: Sha1, st: Stamp): nat -> bool
  {
    (counter: nat) => Accepts(sha1, st.zeroCount, Candidate(st, counter))
  }

  /** The search returns the least accepted counter of the window it can reach, and it
      finds nothing only when the whole window is rejected. */
  lemma {:induction false} SearchFindsLeast(passes: nat -> bool, counter: nat, fuel: nat)
    requires counter <= MaxSafe
    ensures match Search(passes, counter, fuel)
            case Some(c) =>
              && counter <= c <= MaxSafe && c < counter + fuel && passes(c)
              && forall d :: counter <= d < c ==> !passes(d)
            case None =>
              forall d :: counter <= d < counter + fuel && d <= MaxSafe ==> !passes(d)
    decreases fuel
  {
    if fuel > 0 && !passes(counter) {
      SearchFindsLeast(passes, JsIncrement(counter), fuel - 1);
    }
  }

  /** The inner loop of `generateHashCash`: the counter starts at 0 and goes up by one
      (sticking at 2^53) per rejected candidate, for at most `fuel` candidates. */
  method FirstAccepted(passes: nat -> bool, fuel: nat) returns (found: Option<nat>)
    ensures found == Search(passes, 0, fuel)
    ensures found.Some? ==> passes(found.value) && forall d: nat :: d < found.value ==> !passes(d)
    ensures found.None? ==> forall d: nat :: d < fuel && d <= MaxSafe ==> !passes(d)
  {
    var counter: nat := 0;
    var remaining := fuel;
    SearchFindsLeast(passes, 0, fuel);
    while remaining > 0
      invariant counter <= MaxSafe
      invariant Search(passes, counter, remaining) == Search(passes, 0, fuel)
      decreases remaining
    {
      if passes(counter) {
        return Some(counter);
      }
      counter := JsIncrement(counter);
      remaining := remaining - 1;
    }
    return None;
  }

  /** `generateHashCash` with the clock, IP and random draws already taken: the header of
      the least accepted counter, every smaller counter having been rejected. */
  method GenerateHashCash(sha1: Sha1, st: Stamp, fuel: nat) returns (header: Option<string>)
    ensures header == Solve(sha1, st, fuel)
    ensures header.Some? ==> exists c: nat :: header.value == Candidate(st, c) && Accepts(sha1, st.zeroCount, header.value)
                                             && forall d: nat :: d < c ==> !Passes(sha1, st)(d)
    ensures header.None? ==> forall d: nat :: d < fuel && d <= MaxSafe ==> !Passes(sha1, st)(d)
  {
    var found := FirstAccepted(Passes(sha1, st), fuel);
    if found.Some? {
      header := Some(Candidate(st, found.value));
    } else {
      header := None;
    }
  }

  /** The same search as a function, for use by the request builder. */
  function Solve(sha1: Sha1, st: Stamp, fuel: nat): Option<string>
  {
    match Search(Passes(sha1, st), 0, fuel)
    case Some(c) => Some(Candidate(st, c))
    case None => None
  }

  /** The header `Solve` returns is the candidate of the least accepted counter. */
  lemma SolveFindsLeast(sha1: Sha1, st: Stamp, fuel: nat)
    ensures var found := Search(Passes(sha1, st), 0, fuel);
            Solve(sha1, st, fuel).Some? <==> found.Some?
    ensures var found := Search(Passes(sha1, st), 0, fuel);
            found.Some? ==>
              && Solve(sha1, st, fuel).value == Candidate(st, found.value)
              && Accepts(sha1, st.zeroCount, Candidate(st, found.value))
              && forall d: nat :: d < found.value ==> !Passes(sha1, st)(d)
  {
    SearchFindsLeast(Passes(sha1, st), 0, fuel);
  }
}
