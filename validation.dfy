/**
 * The two middlewares of src/middleware/validation.ts: `validateUserInput`,
 * which collects every rule a body breaks and fails once with all of them,
 * and `validateIdParam`, which parses the path id the way JavaScript's
 * `parseInt` does and writes the parsed number back.
 */
module Validation {
  import opened Wrappers
  import opened Errors
  import opened Http

  // ---------------------------------------------------------------------
  // Whitespace and `trim()`

  /**
   * JavaScript's WhiteSpace and LineTerminator code points: what `trim()`
   * strips and what `\s` matches. All of them lie in the Basic Multilingual
   * Plane, so each is a single UTF-16 code unit and `trim()` never cuts a
   * surrogate pair.
   */
  predicate IsSpace(c: char)
    ensures IsSpace(c) ==> c < '\U{10000}'
  {
    || c == '\t' || c == '\n' || c == '\U{000B}' || c == '\U{000C}' || c == '\r'
    || c == ' ' || c == '\U{00A0}' || c == '\U{1680}' || ('\U{2000}' <= c <= '\U{200A}')
    || c == '\U{2028}' || c == '\U{2029}' || c == '\U{202F}' || c == '\U{205F}'
    || c == '\U{3000}' || c == '\U{FEFF}'
  }

  /** `s` without its leading whitespace: a suffix of `s` that does not start with whitespace. */
  function TrimStart(s: string): (r: string)
    ensures |r| <= |s| && r == s[|s| - |r|..]
    ensures forall i :: 0 <= i < |s| - |r| ==> IsSpace(s[i])
    ensures r != [] ==> !IsSpace(r[0])
  {
    if s != [] && IsSpace(s[0]) then TrimStart(s[1..]) else s
  }

  /** `s` without its trailing whitespace: a prefix of `s` that does not end with whitespace. */
  function TrimEnd(s: string): (r: string)
    ensures |r| <= |s| && r == s[..|r|]
    ensures forall i :: |r| <= i < |s| ==> IsSpace(s[i])
    ensures r != [] ==> !IsSpace(r[|r| - 1])
  {
    if s != [] && IsSpace(s[|s| - 1]) then TrimEnd(s[..|s| - 1]) else s
  }

  /**
   * `s.trim()`: no longer than `s`, empty exactly when `s` is all
   * whitespace, and otherwise starting and ending with a character that is
   * not whitespace.
   */
  function Trim(s: string): (r: string)
    ensures |r| <= |s|
    ensures |r| == 0 <==> forall i :: 0 <= i < |s| ==> IsSpace(s[i])
    ensures |r| > 0 ==> !IsSpace(r[0]) && !IsSpace(r[|r| - 1])
  {
    TrimEnd(TrimStart(s))
  }

  /** How many UTF-16 code units `c` takes: two above the Basic Multilingual Plane. */
  function CodeUnits(c: char): nat {
    if c < '\U{10000}' then 1 else 2
  }

  /** JavaScript's `s.length`: the number of UTF-16 code units, between one and two per character. */
  function Utf16Length(s: string): (n: nat)
    ensures |s| <= n <= 2 * |s|
    ensures n == 0 <==> s == []
  {
    if s == [] then 0 else CodeUnits(s[0]) + Utf16Length(s[1..])
  }

  /** At least two characters of `s` are not whitespace. */
  predicate HasTwoNonSpace(s: string) {
    exists i, j :: 0 <= i < j < |s| && !IsSpace(s[i]) && !IsSpace(s[j])
  }

  /**
   * What `s.trim().length >= 2` accepts: two characters that are not
   * whitespace, or one that is not whitespace and takes two code units.
   */
  predicate NameLongEnough(s: string) {
    || HasTwoNonSpace(s)
    || exists i :: 0 <= i < |s| && !IsSpace(s[i]) && CodeUnits(s[i]) == 2
  }

  /** The code-unit length of a concatenation is the sum of the lengths. */
  lemma {:induction false} Utf16LengthAppend(a: string, b: string)
    ensures Utf16Length(a + b) == Utf16Length(a) + Utf16Length(b)
  {
    if |a| > 0 {
      assert (a + b)[1..] == a[1..] + b;
      Utf16LengthAppend(a[1..], b);
    } else {
      assert a + b == b;
    }
  }

  /** One character is one code unit in the Basic Multilingual Plane and two outside it. */
  lemma Utf16LengthOfChar(c: char)
    ensures Utf16Length([c]) == CodeUnits(c)
    ensures Utf16Length([c]) == 2 <==> c >= '\U{10000}'
  {
    assert [c][1..] == [];
  }

  /** A string is at least two code units long exactly when it has two characters or one that takes two units. */
  lemma Utf16LengthAtLeastTwo(t: string)
    ensures Utf16Length(t) >= 2 <==> |t| >= 2 || (|t| == 1 && CodeUnits(t[0]) == 2)
  {
    if |t| == 1 {
      assert t[1..] == [];
    }
  }

  /**
   * `name.trim().length >= 2` counts UTF-16 code units of the trimmed name:
   * it holds exactly when the name has two characters that are not
   * whitespace, or one that takes two code units.
   */
  lemma TrimmedLengthAtLeastTwo(s: string)
    ensures |Trim(s)| >= 2 <==> HasTwoNonSpace(s)
    ensures Utf16Length(Trim(s)) >= 2 <==> NameLongEnough(s)
  {
    var t := TrimStart(s);
    var r := TrimEnd(t);
    var a := |s| - |t|;
    assert t == s[a..];
    assert r == t[..|r|];
    if |r| >= 1 {
      assert s[a] == r[0];
      assert s[a + |r| - 1] == r[|r| - 1];
    }
    if HasTwoNonSpace(s) {
      var i, j :| 0 <= i < j < |s| && !IsSpace(s[i]) && !IsSpace(s[j]);
      assert a <= i;
      assert t[j - a] == s[j];
    }
    Utf16LengthAtLeastTwo(r);
    if !HasTwoNonSpace(s) && NameLongEnough(s) {
      var i :| 0 <= i < |s| && !IsSpace(s[i]) && CodeUnits(s[i]) == 2;
      assert a <= i;
      assert t[i - a] == s[i];
      assert i - a < |r|;
    }
  }

  // ---------------------------------------------------------------------
  // The email pattern /^[^\s@]+@[^\s@]+\.[^\s@]+$/

  /** No character of `s` is whitespace. */
  predicate NoSpace(s: string) {
    forall j :: 0 <= j < |s| ==> !IsSpace(s[j])
  }

  /** No two characters of `s` are both '@'. */
  predicate AtMostOneAt(s: string) {
    forall i, j :: 0 <= i < j < |s| && s[i] == '@' ==> s[j] != '@'
  }

  /**
   * What `/^[^\s@]+@[^\s@]+\.[^\s@]+$/.test(s)` accepts: no whitespace,
   * exactly one '@', which is not the first character, and after it, past at
   * least one character, a '.' that is followed by at least one character.
   * The class `[^\s@]` covers every character but that '@' (the dot included),
   * which is why the pattern is stated as two conditions on all characters
   * and one on the positions of '@' and '.'.
   */
  predicate MatchesEmailPattern(s: string)
    ensures MatchesEmailPattern(s) ==> |s| >= 5
  {
    && NoSpace(s)
    && AtMostOneAt(s)
    && exists at, dot :: 0 < at && at + 1 < dot && dot + 1 < |s| && s[at] == '@' && s[dot] == '.'
  }

  /** A character the class `[^\s@]` matches. */
  predicate EmailChar(c: char) {
    !IsSpace(c) && c != '@'
  }

  /**
   * The pattern read character by character, as the regular expression is
   * written: an '@' at `at` and a '.' at `dot` splitting `s` into three
   * non-empty runs, with every character other than that '@' in `[^\s@]`.
   */
  lemma EmailPatternByCharacters(s: string)
    ensures MatchesEmailPattern(s) <==>
      exists at, dot :: 0 < at && at + 1 < dot && dot + 1 < |s| && s[at] == '@' && s[dot] == '.'
        && forall j :: 0 <= j < |s| && j != at ==> EmailChar(s[j])
  {
    if MatchesEmailPattern(s) {
      var at, dot :| 0 < at && at + 1 < dot && dot + 1 < |s| && s[at] == '@' && s[dot] == '.';
      forall j | 0 <= j < |s| && j != at ensures EmailChar(s[j]) {
        assert !IsSpace(s[j]);
      }
    }
    if exists at, dot :: 0 < at && at + 1 < dot && dot + 1 < |s| && s[at] == '@' && s[dot] == '.'
        && forall j :: 0 <= j < |s| && j != at ==> EmailChar(s[j]) {
      var at, dot :| 0 < at && at + 1 < dot && dot + 1 < |s| && s[at] == '@' && s[dot] == '.'
        && forall j :: 0 <= j < |s| && j != at ==> EmailChar(s[j]);
      assert forall j :: 0 <= j < |s| ==> !IsSpace(s[j]) by {
        forall j | 0 <= j < |s| ensures !IsSpace(s[j]) {
          if j != at { assert EmailChar(s[j]); }
        }
      }
      assert forall i :: 0 <= i < |s| && s[i] == '@' ==> i == at;
    }
  }

  lemma EmailExamples()
    ensures MatchesEmailPattern("test@example.com")
    ensures !MatchesEmailPattern("invalid-email")
    ensures !MatchesEmailPattern("x")
  {
    var s := "test@example.com";
    assert s[4] == '@' && s[12] == '.';
    assert forall j :: 0 <= j < |s| && j != 4 ==> s[j] != '@';
    assert NoSpace(s);
    var b := "invalid-email";
    assert forall j :: 0 <= j < |b| ==> b[j] != '@';
  }

  // ---------------------------------------------------------------------
  // `parseInt` and `Number.prototype.toString` on integers

  /**
   * The value of `c` as a digit: '0'-'9', then 'a'-'z' or 'A'-'Z' for 10-35;
   * any other character is given 36, a digit in no base `parseInt` reads.
   */
  function DigitValue(c: char): nat {
    if '0' <= c <= '9' then c as int - '0' as int
    else if 'a' <= c <= 'z' then c as int - 'a' as int + 10
    else if 'A' <= c <= 'Z' then c as int - 'A' as int + 10
    else 36
  }

  predicate IsDigit(c: char, radix: nat) {
    DigitValue(c) < radix
  }

  /** The longest prefix of `s` made of digits of `radix`. */
  function LeadingDigits(s: string, radix: nat): (ds: string)
    ensures |ds| <= |s| && ds == s[..|ds|]
    ensures forall i :: 0 <= i < |ds| ==> IsDigit(ds[i], radix)
    ensures |ds| < |s| ==> !IsDigit(s[|ds|], radix)
  {
    if s != [] && IsDigit(s[0], radix) then [s[0]] + LeadingDigits(s[1..], radix) else []
  }

  /** The number a string of digits denotes in `radix`, most significant digit first. */
  function DigitsValue(ds: string, radix: nat): nat {
    if ds == [] then 0
    else DigitsValue(ds[..|ds| - 1], radix) * radix + DigitValue(ds[|ds| - 1])
  }

  /** Text after the leading whitespace, without its one '+' or '-'. */
  function StripSign(t: string): string {
    if t != [] && (t[0] == '-' || t[0] == '+') then t[1..] else t
  }

  /** The unsigned part starts with "0x" or "0X", which switches `parseInt` to base 16. */
  predicate HexPrefixed(u: string) {
    |u| >= 2 && u[0] == '0' && (u[1] == 'x' || u[1] == 'X')
  }

  /** The digits after the sign: in base 16 after a "0x"/"0X" prefix, else in base 10; `None` when there are none. */
  function ParseUnsigned(u: string): Option<nat> {
    var radix := if HexPrefixed(u) then 16 else 10;
    var ds := LeadingDigits(if HexPrefixed(u) then u[2..] else u, radix);
    if ds == [] then None else Some(DigitsValue(ds, radix))
  }

  /**
   * `parseInt(s)` with no radix; `None` is NaN. Leading whitespace is
   * skipped, one '+' or '-' is read, a "0x"/"0X" prefix selects base 16,
   * and then as many digits as there are are read: whatever follows them
   * ("1.5", "12abc") is ignored. NaN only when no digit follows.
   */
  function ParseInt(s: string): (r: Option<int>)
    ensures r.Some? && r.value < 0 ==> |TrimStart(s)| > 0 && TrimStart(s)[0] == '-'
  {
    ParseTrimmed(TrimStart(s))
  }

  /** `parseInt` once the leading whitespace is gone: the sign, then the unsigned digits. */
  function ParseTrimmed(t: string): (r: Option<int>)
    ensures r.Some? && r.value < 0 ==> |t| > 0 && t[0] == '-'
  {
    match ParseUnsigned(StripSign(t))
    case None => None
    case Some(n) =>
      var v: int := n;
      Some(if |t| > 0 && t[0] == '-' then -v else v)
  }

  /** `parseInt` gives NaN exactly when no digit follows the whitespace, the sign and any hex prefix. */
  lemma ParseIntNaN(s: string)
    ensures ParseInt(s).None? <==>
      var u := StripSign(TrimStart(s));
      if HexPrefixed(u) then |u| == 2 || !IsDigit(u[2], 16) else u == [] || !IsDigit(u[0], 10)
  {
  }

  /** A digit in any base up to 36 is neither whitespace nor a sign. */
  lemma DigitIsPlain(c: char, radix: nat)
    requires radix <= 36 && IsDigit(c, radix)
    ensures !IsSpace(c) && c != '-' && c != '+'
  {
  }

  function DigitChar(d: nat): (c: char)
    requires d < 10
    ensures IsDigit(c, 10) && DigitValue(c) == d
  {
    ('0' as int + d) as char
  }

  /** The decimal numeral of `n`, without leading zeros. */
  function NatToString(n: nat): (s: string)
    ensures s != [] && forall i :: 0 <= i < |s| ==> IsDigit(s[i], 10)
    ensures s[0] == '0' ==> n == 0
  {
    if n < 10 then [DigitChar(n)] else NatToString(n / 10) + [DigitChar(n % 10)]
  }

  /** `n.toString()` for an integer `n`: non-empty, with a leading '-' exactly when `n` is negative. */
  function IntToString(n: int): (r: string)
    ensures |r| > 0 && (r[0] == '-' <==> n < 0)
  {
    if n < 0 then "-" + NatToString(-n) else NatToString(n)
  }

  lemma {:induction false} NatToStringValue(n: nat)
    ensures DigitsValue(NatToString(n), 10) == n
  {
    if n >= 10 {
      var s := NatToString(n);
      assert s[..|s| - 1] == NatToString(n / 10);
      NatToStringValue(n / 10);
    }
  }

  lemma {:induction false} LeadingDigitsStopAtTail(ds: string, tail: string, radix: nat)
    requires forall i :: 0 <= i < |ds| ==> IsDigit(ds[i], radix)
    requires tail == [] || !IsDigit(tail[0], radix)
    ensures LeadingDigits(ds + tail, radix) == ds
  {
    if ds != [] {
      assert (ds + tail)[1..] == ds[1..] + tail;
      LeadingDigitsStopAtTail(ds[1..], tail, radix);
    }
  }

  /** A string that does not start with whitespace is its own `TrimStart`. */
  lemma TrimStartNoSpace(s: string)
    requires s != [] && !IsSpace(s[0])
    ensures TrimStart(s) == s
  {
  }

  /** Decimal digits that do not open a hex prefix, then a non-digit: exactly the digits are read. */
  lemma ParseUnsignedDecimal(ds: string, tail: string)
    requires ds != [] && forall i :: 0 <= i < |ds| ==> IsDigit(ds[i], 10)
    requires tail == [] || !IsDigit(tail[0], 10)
    requires !HexPrefixed(ds + tail)
    ensures ParseUnsigned(ds + tail) == Some(DigitsValue(ds, 10))
  {
    LeadingDigitsStopAtTail(ds, tail, 10);
  }

  /** `parseInt` on the numeral of `m` followed by `tail`, once the sign is gone. */
  lemma ParseUnsignedNumeral(m: nat, tail: string)
    requires tail == [] || !IsDigit(tail[0], 10)
    requires m == 0 ==> tail == [] || (tail[0] != 'x' && tail[0] != 'X')
    ensures ParseUnsigned(NatToString(m) + tail) == Some(m)
  {
    var digits := NatToString(m);
    var u := digits + tail;
    assert u[0] == digits[0];
    if m == 0 {
      assert digits == [DigitChar(0)];
      assert tail != [] ==> u[1] == tail[0];
    }
    assert !HexPrefixed(u);
    ParseUnsignedDecimal(digits, tail);
    NatToStringValue(m);
  }

  /** A numeral of a natural number, then a tail. */
  lemma ParseNaturalNumeral(m: nat, tail: string)
    requires tail == [] || !IsDigit(tail[0], 10)
    requires m == 0 ==> tail == [] || (tail[0] != 'x' && tail[0] != 'X')
    ensures ParseInt(NatToString(m) + tail) == Some(m)
  {
    var u := NatToString(m) + tail;
    ParseUnsignedNumeral(m, tail);
    assert u[0] == NatToString(m)[0];
    DigitIsPlain(u[0], 10);
    TrimStartNoSpace(u);
    assert StripSign(u) == u;
  }

  /** Past a leading '-', `parseInt` reads the rest as unsigned digits and negates them. */
  lemma ParseIntNegated(u: string, n: nat)
    requires ParseUnsigned(u) == Some(n)
    ensures ParseInt(['-'] + u) == Some(-(n as int))
  {
    var s := ['-'] + u;
    assert s[1..] == u;
    TrimStartNoSpace(s);
  }

  /** Past a leading '+', `parseInt` reads the rest as unsigned digits, unchanged. */
  lemma ParseIntPlus(u: string, n: nat)
    requires ParseUnsigned(u) == Some(n)
    ensures ParseInt(['+'] + u) == Some(n as int)
  {
    var s := ['+'] + u;
    assert s[1..] == u;
    TrimStartNoSpace(s);
  }

  /** Dropping leading whitespace first changes nothing: `TrimStart` drops it anyway. */
  lemma {:induction false} TrimStartSkipsSpace(ws: string, t: string)
    requires forall i :: 0 <= i < |ws| ==> IsSpace(ws[i])
    ensures TrimStart(ws + t) == TrimStart(t)
  {
    if |ws| > 0 {
      assert (ws + t)[1..] == ws[1..] + t;
      TrimStartSkipsSpace(ws[1..], t);
    } else {
      assert ws + t == t;
    }
  }

  /** `parseInt` skips any run of leading whitespace. */
  lemma ParseIntSkipsSpace(ws: string, t: string)
    requires forall i :: 0 <= i < |ws| ==> IsSpace(ws[i])
    ensures ParseInt(ws + t) == ParseInt(t)
  {
    TrimStartSkipsSpace(ws, t);
  }

  /**
   * Decimal digits, leading zeros allowed, then a tail that is not a digit:
   * `parseInt` gives the value of the digits ("007abc" is 7).
   */
  lemma ParseIntDecimal(ds: string, tail: string)
    requires |ds| > 0 && forall i :: 0 <= i < |ds| ==> IsDigit(ds[i], 10)
    requires |tail| == 0 || !IsDigit(tail[0], 10)
    requires !HexPrefixed(ds + tail)
    ensures ParseInt(ds + tail) == Some(DigitsValue(ds, 10))
  {
    var s := ds + tail;
    assert s[0] == ds[0];
    DigitIsPlain(ds[0], 10);
    TrimStartNoSpace(s);
    assert StripSign(s) == s;
    ParseUnsignedDecimal(ds, tail);
  }

  /** A minus sign, a numeral of a positive number, then a tail. */
  lemma ParseNegativeNumeral(m: nat, tail: string)
    requires m > 0
    requires tail == [] || !IsDigit(tail[0], 10)
    ensures ParseInt(['-'] + (NatToString(m) + tail)) == Some(-(m as int))
  {
    ParseUnsignedNumeral(m, tail);
    ParseIntNegated(NatToString(m) + tail, m);
  }

  /**
   * Reading back the numeral of `n`, followed by anything that is not a
   * decimal digit, gives `n` (except that "0" followed by 'x' or 'X' is a
   * hex prefix). With an empty tail: `parseInt(n.toString()) == n`.
   */
  lemma ParseIntReadsNumeral(n: int, tail: string)
    requires tail == [] || !IsDigit(tail[0], 10)
    requires n == 0 ==> tail == [] || (tail[0] != 'x' && tail[0] != 'X')
    ensures ParseInt(IntToString(n) + tail) == Some(n)
  {
    var s := IntToString(n) + tail;
    if n < 0 {
      var m: nat := -n;
      assert s == ['-'] + (NatToString(m) + tail);
      ParseNegativeNumeral(m, tail);
      assert -(m as int) == n;
    } else {
      assert s == NatToString(n) + tail;
      ParseNaturalNumeral(n, tail);
      assert ParseInt(s) == Some(n);
    }
  }

  /** The id validator's write-back is stable: the handler's second `parseInt` recovers the same number. */
  lemma ParseIntRoundTrip(n: int)
    ensures ParseInt(IntToString(n)) == Some(n)
  {
    ParseIntReadsNumeral(n, []);
    assert IntToString(n) + [] == IntToString(n);
  }

  /** Whatever follows the digits is ignored: "12abc" reads as 12. */
  lemma ParseIntStopsAtLetter()
    ensures ParseInt("12abc") == Some(12)
  {
    TrimStartNoSpace("12abc");
    assert "12abc" == "12" + "abc";
    LeadingDigitsStopAtTail("12", "abc", 10);
    assert DigitsValue("12", 10) == DigitsValue("1", 10) * 10 + 2;
    assert !HexPrefixed("12abc");
    assert StripSign("12abc") == "12abc";
  }

  /** A fraction is not rejected: "1.5" reads as 1. */
  lemma ParseIntStopsAtPoint()
    ensures ParseInt("1.5") == Some(1)
  {
    assert "1.5" == "1" + ".5";
    ParseUnsignedDecimal("1", ".5");
    TrimStartNoSpace("1.5");
    assert StripSign("1.5") == "1.5";
  }

  /** No digit at all is NaN. */
  lemma ParseIntNoDigits()
    ensures ParseInt("abc").None?
    ensures ParseInt("").None?
  {
    TrimStartNoSpace("abc");
    assert StripSign("abc") == "abc";
  }

  /** A "0x" prefix reads the rest in base 16. */
  lemma ParseIntHex()
    ensures ParseInt("0x1A") == Some(26)
  {
    TrimStartNoSpace("0x1A");
    assert StripSign("0x1A") == "0x1A";
    assert "0x1A"[2..] == "1A";
    assert LeadingDigits("1A", 16) == "1A";
    assert DigitsValue("1A", 16) == DigitsValue("1", 16) * 16 + 10;
  }

  // ---------------------------------------------------------------------
  // `validateIdParam`

  const InvalidIdFormat := "Invalid ID format"

  /**
   * Fails with `ApiError(400, 'Invalid ID format')` exactly when `parseInt`
   * gives NaN and then leaves the request alone; otherwise replaces
   * `params.id` with the parsed number's decimal numeral and calls `next()`.
   */
  method ValidateIdParam(req: Request) returns (o: Outcome)
    modifies req
    ensures o == Next || o == NextError(ApiError(400, InvalidIdFormat))
    ensures o.NextError? <==> ParseInt(old(req.idParam)).None?
    ensures o.NextError? ==> req.idParam == old(req.idParam)
    ensures o.Next? ==> req.idParam == IntToString(ParseInt(old(req.idParam)).value)
    ensures o.Next? ==> ParseInt(req.idParam) == ParseInt(old(req.idParam))
  {
    var id := ParseInt(req.idParam);
    if id.None? {
      return NextError(NewApiError(400, InvalidIdFormat));
    }
    req.idParam := IntToString(id.value);
    ParseIntRoundTrip(id.value);
    return Next;
  }

  // ---------------------------------------------------------------------
  // `validateUserInput`

  const NameRequired := "Name is required"
  const EmailRequired := "Email is required"
  // The single message 'At least one field (name or email) is required for update', written in three pieces to keep proofs about it cheap.
  const FieldRequiredForUpdate := "At least one field " + "(name or email) is " + "required for update"
  const NameNotString := "Name must be a string"
  const NameTooShort := "Name must have at least 2 characters"
  const EmailNotString := "Email must be a string"
  const InvalidEmailFormat := "Invalid email format"

  /** A name is acceptable when left out, or a string whose trimmed form is at least two code units long. */
  predicate NameAcceptable(v: BodyValue) {
    v.Absent? || (v.Text? && NameLongEnough(v.s))
  }

  /** An email is acceptable when left out, or a string of the form local@domain.tld. */
  predicate EmailAcceptable(v: BodyValue) {
    v.Absent? || (v.Text? && MatchesEmailPattern(v.s))
  }

  /** The presence rules: both fields on POST, at least one on PUT; no other method is checked. */
  function RequiredViolations(httpMethod: string, body: RequestBody): (r: seq<string>)
    ensures |r| <= 2
    ensures |r| == 0 <==>
      && (httpMethod == "POST" ==> !body.name.IsFalsy() && !body.email.IsFalsy())
      && (httpMethod == "PUT" ==> !body.name.IsFalsy() || !body.email.IsFalsy())
    ensures NameRequired in r <==> httpMethod == "POST" && body.name.IsFalsy()
    ensures EmailRequired in r <==> httpMethod == "POST" && body.email.IsFalsy()
    ensures FieldRequiredForUpdate in r <==> httpMethod == "PUT" && body.name.IsFalsy() && body.email.IsFalsy()
    ensures httpMethod == "POST" && body.name.IsFalsy() ==> r[0] == NameRequired
    ensures httpMethod == "POST" && body.email.IsFalsy() ==> r[|r| - 1] == EmailRequired
  {
    (if httpMethod == "POST" then
       (if body.name.IsFalsy() then [NameRequired] else [])
       + (if body.email.IsFalsy() then [EmailRequired] else [])
     else [])
    + (if httpMethod == "PUT" && body.name.IsFalsy() && body.email.IsFalsy() then [FieldRequiredForUpdate] else [])
  }

  /**
   * The name rule: a type message or a length message, never both. The
   * length test `name.trim().length < 2` is stated through
   * `NameLongEnough`, which `TrimmedLengthAtLeastTwo` shows to be the same
   * test.
   */
  function NameViolations(name: BodyValue): (r: seq<string>)
    ensures |r| <= 1
    ensures |r| == 0 <==> NameAcceptable(name)
    ensures |r| == 1 && r[0] == NameNotString <==> name.OtherType?
    ensures |r| == 1 && r[0] == NameTooShort <==> name.Text? && !NameLongEnough(name.s)
  {
    match name
    case Absent => []
    case OtherType(_) => [NameNotString]
    case Text(s) => if !NameLongEnough(s) then [NameTooShort] else []
  }

  /** The email rule: a type message or a format message, never both. */
  function EmailViolations(email: BodyValue): (r: seq<string>)
    ensures |r| <= 1
    ensures |r| == 0 <==> EmailAcceptable(email)
    ensures |r| == 1 && r[0] == EmailNotString <==> email.OtherType?
    ensures |r| == 1 && r[0] == InvalidEmailFormat <==> email.Text? && !MatchesEmailPattern(email.s)
  {
    match email
    case Absent => []
    case OtherType(_) => [EmailNotString]
    case Text(s) => if !MatchesEmailPattern(s) then [InvalidEmailFormat] else []
  }

  /**
   * Every message a body earns, in the order the checks run: presence, then
   * name, then email. At most four, and none exactly when the presence rules
   * and both field rules pass.
   */
  function Violations(httpMethod: string, body: RequestBody): (r: seq<string>)
    ensures |r| <= 4
    ensures |r| == 0 <==>
      |RequiredViolations(httpMethod, body)| == 0 && NameAcceptable(body.name) && EmailAcceptable(body.email)
  {
    RequiredViolations(httpMethod, body) + NameViolations(body.name) + EmailViolations(body.email)
  }

  /** A POST body passes exactly when both fields are strings that satisfy their rules. */
  lemma PostAcceptance(body: RequestBody)
    ensures Violations("POST", body) == [] <==>
      && body.name.Text? && NameLongEnough(body.name.s)
      && body.email.Text? && MatchesEmailPattern(body.email.s)
  {
    var v := Violations("POST", body);
    if v == [] {
      assert NameViolations(body.name) == [] && EmailViolations(body.email) == [];
      assert RequiredViolations("POST", body) == [];
    }
  }

  /** A PUT body passes exactly when some field is present and every present field is a string that satisfies its rule. */
  lemma PutAcceptance(body: RequestBody)
    ensures Violations("PUT", body) == [] <==>
      && (body.name.Text? || body.email.Text?)
      && NameAcceptable(body.name) && EmailAcceptable(body.email)
  {
    var v := Violations("PUT", body);
    if v == [] {
      assert NameViolations(body.name) == [] && EmailViolations(body.email) == [];
      assert RequiredViolations("PUT", body) == [];
    }
  }

  /** What an accepted POST body is known to be: two strings, each satisfying its rule. */
  lemma PostAccepted(body: RequestBody)
    requires |Violations("POST", body)| == 0
    ensures body.name.Text? && NameLongEnough(body.name.s)
    ensures body.email.Text? && MatchesEmailPattern(body.email.s)
  {
    PostAcceptance(body);
  }

  /** What an accepted PUT body is known to be: every field present is a string satisfying its rule. */
  lemma PutAccepted(body: RequestBody)
    requires |Violations("PUT", body)| == 0
    ensures NameAcceptable(body.name) && EmailAcceptable(body.email)
    ensures !body.name.OtherType? && !body.email.OtherType?
  {
    PutAcceptance(body);
  }

  lemma EmptyBodyMessages()
    ensures Violations("POST", RequestBody(Absent, Absent)) == [NameRequired, EmailRequired]
    ensures Violations("PUT", RequestBody(Absent, Absent)) == [FieldRequiredForUpdate]
  {
  }

  // ---------------------------------------------------------------------
  // `errors.join('; ')`

  /** `parts.join(sep)`: empty for no parts, otherwise starting with the first part and ending with the last. */
  function Join(parts: seq<string>, sep: string): (r: string)
    ensures |parts| == 0 ==> |r| == 0
    ensures |parts| > 0 ==> parts[0] <= r
  {
    if |parts| == 0 then ""
    else if |parts| == 1 then parts[0]
    else parts[0] + sep + Join(parts[1..], sep)
  }

  /** The joined message ends with the last part collected. */
  lemma {:induction false} JoinEndsWithLast(parts: seq<string>, sep: string)
    requires |parts| > 0
    ensures |parts[|parts| - 1]| <= |Join(parts, sep)|
    ensures Join(parts, sep)[|Join(parts, sep)| - |parts[|parts| - 1]|..] == parts[|parts| - 1]
  {
    if |parts| > 1 {
      JoinEndsWithLast(parts[1..], sep);
      var j, rest, last := Join(parts, sep), Join(parts[1..], sep), parts[|parts| - 1];
      assert j == parts[0] + sep + rest;
      assert parts[1..][|parts| - 2] == last;
      assert j[|j| - |last|..] == rest[|rest| - |last|..];
    }
  }

  /** `a` occurs in `b` at position `k`. */
  predicate OccursAt(a: string, b: string, k: int) {
    0 <= k <= |b| - |a| && b[k..k + |a|] == a
  }

  /** `b` contains `a` as a contiguous piece. */
  ghost predicate IsInfix(a: string, b: string) {
    exists k :: OccursAt(a, b, k)
  }

  /** Every collected message can be found in the joined message. */
  lemma {:induction false} JoinContainsEach(parts: seq<string>, sep: string, i: int)
    requires 0 <= i < |parts|
    ensures IsInfix(parts[i], Join(parts, sep))
  {
    var j := Join(parts, sep);
    if i == 0 {
      assert OccursAt(parts[0], j, 0);
    } else {
      JoinContainsEach(parts[1..], sep, i - 1);
      var rest := Join(parts[1..], sep);
      var k :| OccursAt(parts[i], rest, k);
      var off := |parts[0]| + |sep|;
      assert j == parts[0] + sep + rest;
      assert j[off + k..off + k + |parts[i]|] == rest[k..k + |parts[i]|];
      assert OccursAt(parts[i], j, off + k);
    }
  }

  /** The inverse of joining with "; ": cut at every "; ". */
  function SplitMessages(s: string): (parts: seq<string>)
    ensures |parts| >= 1
    decreases |s|
  {
    if |s| >= 2 && s[0] == ';' && s[1] == ' ' then [""] + SplitMessages(s[2..])
    else if |s| == 0 then [""]
    else
      var rest := SplitMessages(s[1..]);
      [[s[0]] + rest[0]] + rest[1..]
  }

  /** A message that the joined text can be cut back into: it holds no ';'. */
  predicate Unsplittable(m: string) {
    forall k :: 0 <= k < |m| ==> m[k] != ';'
  }

  lemma {:induction false} SplitFirst(m: string, rest: string)
    requires Unsplittable(m)
    ensures SplitMessages(m + "; " + rest) == [m] + SplitMessages(rest)
      && SplitMessages(m) == [m]
  {
    if |m| > 0 {
      assert (m + "; " + rest)[1..] == m[1..] + "; " + rest;
      SplitFirst(m[1..], rest);
      assert [m[0]] + m[1..] == m;
    } else {
      assert ([] + "; " + rest)[2..] == rest;
    }
  }

  /** No message the validator produces contains ';', so the joined message splits back into the list. */
  lemma {:induction false} JoinSplitRoundTrip(parts: seq<string>)
    requires |parts| > 0
    requires forall i :: 0 <= i < |parts| ==> Unsplittable(parts[i])
    ensures SplitMessages(Join(parts, "; ")) == parts
  {
    if |parts| == 1 {
      assert Join(parts, "; ") == parts[0];
      SplitFirst(parts[0], []);
    } else {
      var rest := Join(parts[1..], "; ");
      assert Join(parts, "; ") == parts[0] + "; " + rest;
      JoinSplitRoundTrip(parts[1..]);
      SplitFirst(parts[0], rest);
      assert [parts[0]] + parts[1..] == parts;
    }
  }

  /** A short name and a malformed email on POST give both messages, joined. */
  lemma ShortNameAndBadEmail()
    ensures Join(Violations("POST", RequestBody(Text("A"), Text("x"))), "; ")
         == NameTooShort + "; " + InvalidEmailFormat
  {
    var v := Violations("POST", RequestBody(Text("A"), Text("x")));
    assert v == [NameTooShort, InvalidEmailFormat] by {
      assert !NameLongEnough("A");
      assert !MatchesEmailPattern("x");
    }
    assert v[1..] == [InvalidEmailFormat];
  }

  lemma WithoutSemicolon(m: string)
    requires ';' !in m
    ensures Unsplittable(m)
  {
    forall k | 0 <= k < |m| ensures m[k] != ';' {
      assert m[k] in m;
    }
  }

  /** The presence message for PUT holds no ';'. */
  lemma UpdateMessageUnsplittable()
    ensures Unsplittable(FieldRequiredForUpdate)
  {
    var a, b, c := "At least one field ", "(name or email) is ", "required for update";
    WithoutSemicolon(a);
    WithoutSemicolon(b);
    WithoutSemicolon(c);
    UnsplittableConcat(a, b);
    UnsplittableConcat(a + b, c);
  }

  /** Joining two pieces without ';' gives a string without ';'. */
  lemma UnsplittableConcat(x: string, y: string)
    requires Unsplittable(x) && Unsplittable(y)
    ensures Unsplittable(x + y)
  {
    forall k | 0 <= k < |x + y| ensures (x + y)[k] != ';' {
      if k >= |x| { assert (x + y)[k] == y[k - |x|]; }
    }
  }

  /** Each of the seven messages the validator can push holds no ';'. */
  lemma MessagesUnsplittable()
    ensures Unsplittable(NameRequired) && Unsplittable(EmailRequired) && Unsplittable(FieldRequiredForUpdate)
    ensures Unsplittable(NameNotString) && Unsplittable(NameTooShort)
    ensures Unsplittable(EmailNotString) && Unsplittable(InvalidEmailFormat)
  {
    RequiredMessagesUnsplittable();
    NameMessagesUnsplittable();
    EmailMessagesUnsplittable();
  }

  lemma RequiredMessagesUnsplittable()
    ensures Unsplittable(NameRequired) && Unsplittable(EmailRequired) && Unsplittable(FieldRequiredForUpdate)
  {
    WithoutSemicolon(NameRequired);
    WithoutSemicolon(EmailRequired);
    UpdateMessageUnsplittable();
  }

  lemma NameMessagesUnsplittable()
    ensures Unsplittable(NameNotString) && Unsplittable(NameTooShort)
  {
    WithoutSemicolon(NameNotString);
    WithoutSemicolon(NameTooShort);
  }

  lemma EmailMessagesUnsplittable()
    ensures Unsplittable(EmailNotString) && Unsplittable(InvalidEmailFormat)
  {
    WithoutSemicolon(EmailNotString);
    WithoutSemicolon(InvalidEmailFormat);
  }

  /** No message in the list of violations holds a ';'. */
  lemma ViolationsUnsplittable(httpMethod: string, body: RequestBody)
    ensures forall i :: 0 <= i < |Violations(httpMethod, body)| ==> Unsplittable(Violations(httpMethod, body)[i])
  {
    MessagesUnsplittable();
    var r, n, e := RequiredViolations(httpMethod, body), NameViolations(body.name), EmailViolations(body.email);
    assert forall i :: 0 <= i < |r| ==> Unsplittable(r[i]);
    assert forall i :: 0 <= i < |n| ==> Unsplittable(n[i]);
    assert forall i :: 0 <= i < |e| ==> Unsplittable(e[i]);
  }

  /** The message of a rejected body, cut at every "; ", gives back the list of violations. */
  lemma ViolationsSplitBack(httpMethod: string, body: RequestBody)
    requires |Violations(httpMethod, body)| > 0
    ensures SplitMessages(Join(Violations(httpMethod, body), "; ")) == Violations(httpMethod, body)
  {
    ViolationsUnsplittable(httpMethod, body);
    JoinSplitRoundTrip(Violations(httpMethod, body));
  }

  /**
   * A name of one character outside the Basic Multilingual Plane is two
   * UTF-16 code units long, so `name.trim().length < 2` is false and a POST
   * with it and a good email passes.
   */
  lemma AstralNameAccepted()
    ensures Utf16Length(Trim("\U{1F600}")) == 2
    ensures |Violations("POST", RequestBody(Text("\U{1F600}"), Text("a@b.co")))| == 0
  {
    AstralNameLongEnough();
    ShortEmailMatches();
    PostPasses("\U{1F600}", "a@b.co");
  }

  /** A POST whose name is long enough and whose email matches has no violation. */
  lemma PostPasses(name: string, email: string)
    requires NameLongEnough(name) && MatchesEmailPattern(email)
    ensures |Violations("POST", RequestBody(Text(name), Text(email)))| == 0
  {
    var body := RequestBody(Text(name), Text(email));
    assert !body.name.IsFalsy() && !body.email.IsFalsy();
    assert |RequiredViolations("POST", body)| == 0;
  }

  lemma AstralNameLongEnough()
    ensures Utf16Length(Trim("\U{1F600}")) == 2
    ensures NameLongEnough("\U{1F600}")
  {
    var name := "\U{1F600}";
    assert !IsSpace(name[0]) && CodeUnits(name[0]) == 2;
    TrimmedLengthAtLeastTwo(name);
    assert Trim(name) == name;
  }

  lemma ShortEmailMatches()
    ensures MatchesEmailPattern("a@b.co")
  {
    var email := "a@b.co";
    assert email[1] == '@' && email[3] == '.';
    assert forall j :: 0 <= j < |email| && j != 1 ==> email[j] != '@';
    assert NoSpace(email);
  }

  /**
   * The name block of `validateUserInput`: pushes 'Name must be a string'
   * for a value that is not a string, and the length message when
   * `name.trim().length < 2`, counted in UTF-16 code units.
   */
  method PushNameErrors(errors: seq<string>, name: BodyValue) returns (pushed: seq<string>)
    ensures pushed == errors + NameViolations(name)
  {
    pushed := errors;
    if !name.Absent? {
      if !name.Text? {
        pushed := pushed + [NameNotString];
      } else {
        TrimmedLengthAtLeastTwo(name.s);
        if Utf16Length(Trim(name.s)) < 2 {
          pushed := pushed + [NameTooShort];
        }
      }
    }
  }

  /**
   * Runs the rules of `validateUserInput` in the source's order, pushing
   * each message, then calls `next()` when none was pushed and otherwise
   * `next(new ApiError(400, messages.join('; ')))`.
   */
  method ValidateUserInput(req: Request) returns (o: Outcome)
    ensures o == Next <==> |Violations(req.httpMethod, req.body)| == 0
    ensures o != Next ==> o == NextError(ApiError(400, Join(Violations(req.httpMethod, req.body), "; ")))
  {
    var name, email := req.body.name, req.body.email;
    var errors: seq<string> := [];

    if req.httpMethod == "POST" {
      if name.IsFalsy() { errors := errors + [NameRequired]; }
      if email.IsFalsy() { errors := errors + [EmailRequired]; }
    }

    if req.httpMethod == "PUT" {
      if name.IsFalsy() && email.IsFalsy() {
        errors := errors + [FieldRequiredForUpdate];
      }
    }
    assert errors == RequiredViolations(req.httpMethod, req.body);
    ghost var required := errors;

    errors := PushNameErrors(errors, name);
    ghost var upToName := errors;

    if !email.Absent? {
      if !email.Text? {
        errors := errors + [EmailNotString];
      } else if !MatchesEmailPattern(email.s) {
        errors := errors + [InvalidEmailFormat];
      }
    }
    assert errors == upToName + EmailViolations(email);
    assert errors == Violations(req.httpMethod, req.body);

    if |errors| > 0 {
      return NextError(NewApiError(400, Join(errors, "; ")));
    }
    return Next;
  }
}
