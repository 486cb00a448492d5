/**
 * The pieces of the C and C++ standard libraries that the store and the
 * command front end rely on: isspace and tolower in the C locale,
 * std::stoll, std::to_string and std::string::find("\r\n", pos).
 */
module StdLib {
  import opened Wrappers

  const MinInt64: int := -0x8000_0000_0000_0000
  const MaxInt64: int := 0x7FFF_FFFF_FFFF_FFFF

  predicate InInt64(n: int) { MinInt64 <= n <= MaxInt64 }

  /** isspace in the C locale: space, \t, \n, \v, \f and \r. */
  predicate IsSpace(c: char)
  {
    c == ' ' || c == '\t' || c == '\n' || c == '\U{000B}' || c == '\U{000C}' || c == '\r'
  }

  predicate IsDigit(c: char) { '0' <= c <= '9' }

  predicate AllDigits(s: string) { forall i :: 0 <= i < |s| ==> IsDigit(s[i]) }

  /** toupper in the C locale: only 'a'..'z' change. */
  function UpperChar(c: char): char {
    if 'a' <= c <= 'z' then (c as int - 32) as char else c
  }

  /**
   * tolower in the C locale: the result is never an upper-case letter,
   * anything but 'A'..'Z' is kept, and toupper maps a lowered letter back.
   */
  function LowerChar(c: char): (d: char)
    ensures !('A' <= d <= 'Z')
    ensures !('A' <= c <= 'Z') ==> d == c
    ensures 'A' <= c <= 'Z' ==> UpperChar(d) == c
  {
    if 'A' <= c <= 'Z' then (c as int + 32) as char else c
  }

  /** std::transform(..., tolower) over a whole string. */
  function Lowercase(s: string): (r: string)
    ensures |r| == |s|
    ensures forall i :: 0 <= i < |r| ==> !('A' <= r[i] <= 'Z')
    ensures forall i :: 0 <= i < |s| && !('A' <= s[i] <= 'Z') ==> r[i] == s[i]
    ensures forall i :: 0 <= i < |s| && 'A' <= s[i] <= 'Z' ==> UpperChar(r[i]) == s[i]
  {
    seq(|s|, i requires 0 <= i < |s| => LowerChar(s[i]))
  }

  /** Lowering twice is lowering once. */
  lemma LowercaseIdempotent(s: string)
    ensures Lowercase(Lowercase(s)) == Lowercase(s)
  {
    var r := Lowercase(s);
    assert forall i :: 0 <= i < |r| ==> Lowercase(r)[i] == r[i];
  }

  /** Strings put one after the other. */
  function Join(parts: seq<string>): string {
    if parts == [] then [] else parts[0] + Join(parts[1..])
  }

  function DigitValue(c: char): nat {
    if IsDigit(c) then c as int - '0' as int else 0
  }

  function DigitChar(d: nat): (c: char)
    requires d < 10
    ensures IsDigit(c) && DigitValue(c) == d
  {
    ('0' as int + d) as char
  }

  /** The number a string of decimal digits denotes, most significant first. */
  function DigitsValue(s: string): nat {
    if s == [] then 0 else DigitsValue(s[..|s| - 1]) * 10 + DigitValue(s[|s| - 1])
  }

  /** std::to_string of a non-negative value: the shortest decimal numeral. */
  function NatToString(n: nat): (s: string)
    ensures |s| > 0 && AllDigits(s) && DigitsValue(s) == n
    ensures s[0] == '0' ==> n == 0
  {
    if n < 10 then [DigitChar(n)]
    else
      var prefix := NatToString(n / 10);
      var s := prefix + [DigitChar(n % 10)];
      assert s[..|s| - 1] == prefix;
      s
  }

  /** std::to_string(long long): a '-' sign before negative values. */
  function IntToString(n: int): (s: string)
    ensures |s| > 0
    ensures n < 0 <==> s[0] == '-'
  {
    if n < 0 then "-" + NatToString(-n) else NatToString(n)
  }

  /** What std::stoll reports: the value and the index just past its last digit. */
  datatype Numeral = Numeral(value: int, end: nat)

  /**
   * std::stoll(s, &pos, 10): skips leading whitespace, takes an optional
   * '+' or '-', then every following digit. None stands for the exception
   * it throws: invalid_argument when no digit follows, out_of_range when
   * the value does not fit in 64 bits.
   */
  function StoLL(s: string): (r: Option<Numeral>)
  {
    SkipSpaces(s, 0)
  }

  /** The whitespace-and-sign phase of stoll, from index i on. */
  function SkipSpaces(s: string, i: nat): (r: Option<Numeral>)
    requires i <= |s|
    decreases |s| - i
  {
    if i < |s| && IsSpace(s[i]) then SkipSpaces(s, i + 1)
    else if i < |s| && (s[i] == '+' || s[i] == '-') then ScanDigits(s, i + 1, s[i] == '-', i + 1, 0)
    else ScanDigits(s, i, false, i, 0)
  }

  /**
   * The digit phase of stoll: the digits start at index start, those before
   * index i add up to magnitude. Without a digit the conversion fails; past
   * the last digit the signed value must fit in 64 bits.
   */
  function ScanDigits(s: string, start: nat, negative: bool, i: nat, magnitude: nat): (r: Option<Numeral>)
    requires start <= i <= |s|
    requires start < i ==> IsDigit(s[i - 1])
    decreases |s| - i
  {
    if i < |s| && IsDigit(s[i]) then ScanDigits(s, start, negative, i + 1, magnitude * 10 + DigitValue(s[i]))
    else if i == start then None
    else
      var value := Signed(negative, magnitude);
      if InInt64(value) then Some(Numeral(value, i)) else None
  }

  /**
   * s is read by std::stoll as v ending at e: C-locale blanks before b, an
   * optional sign from b to d, then every digit from d on, up to e; v is the
   * signed value of those digits and fits in 64 bits.
   */
  predicate Reads(s: string, b: nat, d: nat, e: nat, v: int) {
    b <= d <= b + 1 && d < e <= |s|
    && (forall k :: 0 <= k < b ==> IsSpace(s[k]))
    && (d == b + 1 ==> s[b] == '+' || s[b] == '-')
    && (forall k :: d <= k < e ==> IsDigit(s[k]))
    && (e == |s| || !IsDigit(s[e]))
    && v == Signed(d == b + 1 && s[b] == '-', DigitsValue(s[d..e]))
    && InInt64(v)
  }

  /**
   * std::stoll succeeds with value v and end e exactly when s is blanks, an
   * optional sign and a maximal run of digits that ends at e and denotes v
   * within the 64-bit range; otherwise it throws.
   */
  lemma StoLLResult(s: string)
    ensures StoLL(s).Some? ==> exists b, d :: Reads(s, b, d, StoLL(s).value.end, StoLL(s).value.value)
    ensures forall b, d, e, v :: Reads(s, b, d, e, v) ==> StoLL(s) == Some(Numeral(v, e))
    ensures StoLL(s).None? <==> forall b, d, e, v :: !Reads(s, b, d, e, v)
  {
    forall b, d, e, v | Reads(s, b, d, e, v)
      ensures StoLL(s) == Some(Numeral(v, e))
    {
      ReadsAccepted(s, b, d, e, v);
    }
    if StoLL(s).Some? {
      var b, d := SkipSpacesReads(s, 0);
    }
  }

  /** What the whitespace-and-sign phase accepts, after blanks before i, is a reading of s. */
  lemma {:induction false} SkipSpacesReads(s: string, i: nat) returns (b: nat, d: nat)
    requires i <= |s| && forall k :: 0 <= k < i ==> IsSpace(s[k])
    requires SkipSpaces(s, i).Some?
    ensures Reads(s, b, d, SkipSpaces(s, i).value.end, SkipSpaces(s, i).value.value)
    decreases |s| - i
  {
    if i < |s| && IsSpace(s[i]) {
      b, d := SkipSpacesReads(s, i + 1);
    } else if i < |s| && (s[i] == '+' || s[i] == '-') {
      ScanDigitsReads(s, i + 1, s[i] == '-', i + 1, 0);
      b, d := i, i + 1;
    } else {
      ScanDigitsReads(s, i, false, i, 0);
      b, d := i, i;
    }
  }

  /** What the digit phase accepts is a maximal run of digits from start, with its signed value. */
  lemma {:induction false} ScanDigitsReads(s: string, start: nat, negative: bool, i: nat, magnitude: nat)
    requires start <= i <= |s|
    requires start < i ==> IsDigit(s[i - 1])
    requires forall k :: start <= k < i ==> IsDigit(s[k])
    requires magnitude == DigitsValue(s[start..i])
    ensures var r := ScanDigits(s, start, negative, i, magnitude);
      r.Some? ==>
        start < r.value.end <= |s| && (forall k :: start <= k < r.value.end ==> IsDigit(s[k]))
        && (r.value.end == |s| || !IsDigit(s[r.value.end]))
        && r.value.value == Signed(negative, DigitsValue(s[start..r.value.end])) && InInt64(r.value.value)
    decreases |s| - i
  {
    if i < |s| && IsDigit(s[i]) {
      assert s[start..i + 1][..i - start] == s[start..i];
      ScanDigitsReads(s, start, negative, i + 1, magnitude * 10 + DigitValue(s[i]));
    }
  }

  /** Every reading of s is what std::stoll returns. */
  lemma ReadsAccepted(s: string, b: nat, d: nat, e: nat, v: int)
    requires Reads(s, b, d, e, v)
    ensures StoLL(s) == Some(Numeral(v, e))
  {
    SkipBlanks(s, 0, b);
    ScanNumeral(s, d, d == b + 1 && s[b] == '-', e);
  }

  /** The whitespace phase passes over blanks up to the first character that is not one. */
  lemma {:induction false} SkipBlanks(s: string, i: nat, b: nat)
    requires i <= b < |s| && !IsSpace(s[b])
    requires forall k :: i <= k < b ==> IsSpace(s[k])
    ensures SkipSpaces(s, i) == SkipSpaces(s, b)
    decreases b - i
  {
    if i < b {
      SkipBlanks(s, i + 1, b);
    }
  }

  function Signed(negative: bool, magnitude: nat): int {
    if negative then 0 - magnitude else magnitude
  }

  /** A field that std::stoll reads completely: what parse_resp_array accepts as a numeral. */
  function WholeNumeral(s: string): (r: Option<int>)
    ensures r.Some? ==> StoLL(s) == Some(Numeral(r.value, |s|))
    ensures r.None? ==> StoLL(s).None? || StoLL(s).value.end != |s|
    ensures r.Some? ==> 0 < |s| && IsDigit(s[|s| - 1]) && InInt64(r.value)
  {
    StoLLResult(s);
    match StoLL(s)
    case Some(Numeral(v, end)) => if end == |s| then Some(v) else None
    case None => None
  }

  /**
   * The fields that the header and element checks accept: exactly the
   * strings made of blanks, an optional sign and digits up to the end,
   * whose value fits in 64 bits; the value is the one the digits denote.
   */
  lemma WholeNumeralReads(s: string)
    ensures WholeNumeral(s).Some? ==> exists b, d :: Reads(s, b, d, |s|, WholeNumeral(s).value)
    ensures forall b, d, v :: Reads(s, b, d, |s|, v) ==> WholeNumeral(s) == Some(v)
  {
    StoLLResult(s);
  }

  /**
   * std::stoll reads back what std::to_string wrote, stopping at the first
   * character that is not a digit.
   */
  lemma {:induction false} StoLLOfIntToString(n: int, rest: string)
    requires InInt64(n)
    requires rest == [] || !IsDigit(rest[0])
    ensures StoLL(IntToString(n) + rest) == Some(Numeral(n, |IntToString(n)|))
  {
    var s := IntToString(n) + rest;
    if n < 0 {
      assert s == ['-'] + (NatToString(-n) + rest);
      StoLLOfSignedDigits(s, 1, NatToString(-n), rest);
    } else {
      StoLLOfSignedDigits(s, 0, NatToString(n), rest);
    }
  }

  /** stoll on an optional '-', a run of digits and a tail that does not start with a digit. */
  lemma StoLLOfSignedDigits(s: string, start: nat, digits: string, rest: string)
    requires start <= 1 && |s| == start + |digits| + |rest|
    requires start == 1 ==> s[0] == '-'
    requires s[start..] == digits + rest
    requires |digits| > 0 && AllDigits(digits)
    requires rest == [] || !IsDigit(rest[0])
    requires InInt64(Signed(start == 1, DigitsValue(digits)))
    ensures StoLL(s) == Some(Numeral(Signed(start == 1, DigitsValue(digits)), start + |digits|))
  {
    var end := start + |digits|;
    var tail := s[start..];
    assert (digits + rest)[..|digits|] == digits;
    assert s[start..end] == tail[..|digits|];
    forall k | start <= k < end
      ensures IsDigit(s[k])
    {
      assert s[k] == tail[k - start] == digits[k - start];
    }
    if end < |s| {
      assert s[end] == tail[|digits|] == rest[0];
    }
    ScanNumeral(s, start, start == 1, end);
    if start == 0 {
      assert s[0] == digits[0];
      assert !IsSpace(s[0]) && s[0] != '+' && s[0] != '-';
    }
  }

  /** The digit phase over a whole run of digits, from its first digit to the first non-digit. */
  lemma ScanNumeral(s: string, start: nat, negative: bool, end: nat)
    requires start < end <= |s|
    requires forall k :: start <= k < end ==> IsDigit(s[k])
    requires end == |s| || !IsDigit(s[end])
    requires InInt64(Signed(negative, DigitsValue(s[start..end])))
    ensures ScanDigits(s, start, negative, start, 0) == Some(Numeral(Signed(negative, DigitsValue(s[start..end])), end))
  {
    assert s[start..start] == [];
    ScanDigitsRun(s, start, negative, start, 0, end);
  }

  /** Scanning a run of digits accumulates the number they denote. */
  lemma {:induction false} ScanDigitsRun(s: string, start: nat, negative: bool, i: nat, magnitude: nat, end: nat)
    requires start <= i <= end <= |s|
    requires start < i ==> IsDigit(s[i - 1])
    requires forall k :: i <= k < end ==> IsDigit(s[k])
    requires end == |s| || !IsDigit(s[end])
    requires magnitude == DigitsValue(s[start..i])
    ensures ScanDigits(s, start, negative, i, magnitude) == ScanDigits(s, start, negative, end, DigitsValue(s[start..end]))
    decreases end - i
  {
    if i < end {
      assert s[start..i + 1][..i - start] == s[start..i];
      ScanDigitsRun(s, start, negative, i + 1, magnitude * 10 + DigitValue(s[i]), end);
    }
  }

  /** There is a "\r\n" starting at index i of s. */
  predicate CrlfAt(s: string, i: nat) {
    i + 1 < |s| && s[i] == '\r' && s[i + 1] == '\n'
  }

  /** std::string::find("\r\n", from): the first "\r\n" at or after from, or npos (None). */
  function FindCrlf(s: string, from: nat): (r: Option<nat>)
    ensures r.Some? ==> from <= r.value && CrlfAt(s, r.value)
    decreases |s| - from
  {
    if from + 1 >= |s| then None
    else if CrlfAt(s, from) then Some(from)
    else FindCrlf(s, from + 1)
  }

  /** find returns the first occurrence: there is none before it, and npos means none at all. */
  lemma {:induction false} FindCrlfFirst(s: string, from: nat)
    ensures FindCrlf(s, from).Some? ==> forall i :: from <= i < FindCrlf(s, from).value ==> !CrlfAt(s, i)
    ensures FindCrlf(s, from).None? ==> forall i :: from <= i ==> !CrlfAt(s, i)
    decreases |s| - from
  {
    if from + 1 < |s| && !CrlfAt(s, from) {
      FindCrlfFirst(s, from + 1);
    }
  }
}
