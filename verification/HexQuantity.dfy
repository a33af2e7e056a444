/** The hexadecimal quantities of the JSON-RPC API and the lenient parser for them. */
module HexQuantity {
  import opened Arithmetic
  import opened Wrappers

  datatype Result = Ok(value: nat) | SyntaxError | RangeError

  function DigitValue(c: char): Option<nat> {
    if '0' <= c <= '9' then Some((c - '0') as nat)
    else if 'a' <= c <= 'f' then Some((c - 'a') as nat + 10)
    else if 'A' <= c <= 'F' then Some((c - 'A') as nat + 10)
    else None
  }

  const LOWER_DIGITS := "0123456789abcdef"
  const UPPER_DIGITS := "0123456789ABCDEF"

  /** The digits are exactly the sixteen of either case, with their positions as values. */
  lemma DigitValueExact(c: char, d: nat)
    ensures DigitValue(c) == Some(d) <==> d < 16 && (LOWER_DIGITS[d] == c || UPPER_DIGITS[d] == c)
  {}

  predicate IsHex(s: string) {
    forall i :: 0 <= i < |s| ==> DigitValue(s[i]).Some?
  }

  /** The number a string of hexadecimal digits stands for. */
  function Value(s: string): nat
    requires IsHex(s)
  {
    if s == "" then 0 else 16 * Value(s[..|s| - 1]) + DigitValue(s[|s| - 1]).value
  }

  /** strconv.ParseUint(s, 16, 64), by its documented contract. */
  function ParseUint16(s: string): Result {
    if s == "" || !IsHex(s) then SyntaxError
    else if Value(s) < TWO_64 then Ok(Value(s))
    else RangeError
  }

  function CutPrefix(s: string, prefix: string): Option<string> {
    if prefix <= s then Some(s[|prefix|..]) else None
  }

  function ParseHex(s: string): Result {
    if |s| == 0 then Ok(0)
    else
      var digits := match CutPrefix(s, "0x")
        case Some(after) => after
        case None =>
          match CutPrefix(s, "0X")
          case Some(after) => after
          case None => s;
      if |digits| == 0 then Ok(0) else ParseUint16(digits)
  }

  predicate WrittenAs(s: string, digits: string) {
    s == digits || s == "0x" + digits || s == "0X" + digits
  }

  /** What is left of a string without its prefix is the only string of digits it can be written as. */
  lemma DigitsOf(s: string) returns (digits: string)
    ensures WrittenAs(s, digits) && (digits == "" <==> s == "" || s == "0x" || s == "0X")
    ensures forall other :: WrittenAs(s, other) && IsHex(other) ==> other == digits
    ensures ParseHex(s) == if digits == "" then Ok(0) else ParseUint16(digits)
  {
    digits := s;
    if "0x" <= s || "0X" <= s {
      digits := s[2..];
      assert s == s[..2] + digits;
      assert DigitValue(s[1]).None?;
    }
    forall other | WrittenAs(s, other) && IsHex(other) ensures other == digits {
      assert ("0x" + other)[2..] == other && ("0X" + other)[2..] == other;
    }
  }

  /** The accepted inputs and their values: "", "0x" and "0X" as 0, and a non-empty string of digits below
      2^64 with or without a prefix. */
  lemma AcceptedLanguage(s: string, n: nat)
    ensures ParseHex(s) == Ok(n) <==>
      || (n == 0 && (s == "" || s == "0x" || s == "0X"))
      || exists digits :: digits != "" && WrittenAs(s, digits) && IsHex(digits) && Value(digits) == n < TWO_64
  {
    var digits := DigitsOf(s);
  }

  /** A string of digits of 2^64 or more, with or without a prefix, is out of range; whatever else is not
      accepted is not a quantity at all. */
  lemma RangeErrorIff(s: string)
    ensures ParseHex(s) == RangeError <==>
      exists digits :: digits != "" && WrittenAs(s, digits) && IsHex(digits) && Value(digits) >= TWO_64
  {
    var digits := DigitsOf(s);
  }

  function Upper(c: char): char {
    if 'a' <= c <= 'z' then 'A' + (c - 'a') else c
  }

  function UpperCase(s: string): (r: string)
    ensures |r| == |s|
  {
    seq(|s|, i requires 0 <= i < |s| => Upper(s[i]))
  }

  lemma UpperDigit(c: char)
    ensures DigitValue(Upper(c)) == DigitValue(c)
  {}

  lemma {:induction false} UpperValue(s: string)
    ensures IsHex(UpperCase(s)) <==> IsHex(s)
    ensures IsHex(s) ==> Value(UpperCase(s)) == Value(s)
  {
    forall i | 0 <= i < |s| ensures DigitValue(UpperCase(s)[i]) == DigitValue(s[i]) {
      UpperDigit(s[i]);
    }
    if s != "" && IsHex(s) {
      assert UpperCase(s)[..|s| - 1] == UpperCase(s[..|s| - 1]);
      UpperValue(s[..|s| - 1]);
    }
  }

  /** The letter case of a string, its prefix included, never changes how it is read. */
  lemma CaseDoesNotMatter(s: string)
    ensures ParseHex(UpperCase(s)) == ParseHex(s)
  {
    var u := UpperCase(s);
    UpperValue(s);
    if |s| >= 2 {
      UpperValue(s[2..]);
      assert u[2..] == UpperCase(s[2..]);
      assert u[0] == Upper(s[0]) && u[1] == Upper(s[1]) && u[1] != 'x';
      if "0x" <= s || "0X" <= s {
        assert u[..2] == "0X";
      } else {
        assert u[..2] != "0X";
      }
    }
  }

  // ----- canonical printing ---------------------------------------------------------------------

  function Digit(d: nat): char
    requires d < 16
  {
    if d < 10 then '0' + d as char else 'a' + (d - 10) as char
  }

  lemma DigitRoundTrip(d: nat)
    requires d < 16
    ensures DigitValue(Digit(d)) == Some(d)
  {}

  /** The digits of n > 0, without leading zeros. */
  function Digits(n: nat): string {
    if n == 0 then "" else Digits(n / 16) + [Digit(n % 16)]
  }

  /** The canonical quantity: "0x0", or "0x" and lower-case digits without leading zeros. */
  function Print(n: nat): string {
    if n == 0 then "0x0" else "0x" + Digits(n)
  }

  lemma ValueAppend(s: string, c: char)
    requires IsHex(s) && DigitValue(c).Some?
    ensures IsHex(s + [c]) && Value(s + [c]) == 16 * Value(s) + DigitValue(c).value
  {
    assert (s + [c])[..|s|] == s;
  }

  lemma DigitsGrow(front: string, q: nat, r: nat)
    requires IsHex(front) && Value(front) == q && r < 16 && q + r > 0
    requires if q == 0 then front == "" else front != "" && front[0] != '0'
    ensures var s := front + [Digit(r)]; IsHex(s) && Value(s) == 16 * q + r && s[0] != '0'
  {
    DigitRoundTrip(r);
    ValueAppend(front, Digit(r));
  }

  lemma {:induction false} DigitsRoundTrip(n: nat)
    ensures IsHex(Digits(n)) && Value(Digits(n)) == n
    ensures n > 0 ==> Digits(n) != "" && Digits(n)[0] != '0'
  {
    if n > 0 {
      DigitsRoundTrip(n / 16);
      DigitsGrow(Digits(n / 16), n / 16, n % 16);
    }
  }

  /** Parsing undoes canonical printing for every 64-bit value. */
  lemma ParsePrint(n: nat)
    requires n < TWO_64
    ensures ParseHex(Print(n)) == Ok(n)
  {
    DigitsRoundTrip(n);
    if n == 0 {
      assert "0x0"[2..] == "0" && "0"[..0] == "";
      assert IsHex("0") && Value("0") == 0;
      assert ParseUint16("0") == Ok(0);
    } else {
      assert ("0x" + Digits(n))[2..] == Digits(n);
    }
  }

  predicate IsLowerHex(s: string) {
    forall i :: 0 <= i < |s| ==> '0' <= s[i] <= '9' || 'a' <= s[i] <= 'f'
  }

  /** The strict form of a quantity. */
  predicate Canonical(s: string) {
    s == "0x0" || (|s| > 2 && s[..2] == "0x" && IsLowerHex(s[2..]) && s[2] != '0')
  }

  lemma {:induction false} DigitsUnique(s: string)
    requires IsLowerHex(s) && IsHex(s) && (s != "" ==> s[0] != '0')
    ensures Digits(Value(s)) == s && (s != "" ==> Value(s) > 0)
  {
    if s != "" {
      var front, last := s[..|s| - 1], s[|s| - 1];
      DigitsUnique(front);
      var d := DigitValue(last).value;
      assert Digit(d) == last;
      assert Value(s) == 16 * Value(front) + d;
      assert Value(s) / 16 == Value(front) && Value(s) % 16 == d;
      if front == "" {
        assert d > 0;
      }
    }
  }

  lemma CanonicalIsPrinted(s: string)
    requires Canonical(s) && ParseHex(s).Ok?
    ensures Print(ParseHex(s).value) == s
  {
    if s == "0x0" {
      ParsePrint(0);
    } else {
      assert CutPrefix(s, "0x") == Some(s[2..]);
      DigitsUnique(s[2..]);
      assert s == "0x" + s[2..];
    }
  }

  lemma PrintedIsCanonical(n: nat)
    ensures Canonical(Print(n))
  {
    if n > 0 {
      DigitsRoundTrip(n);
      DigitsAreLower(n);
      assert Print(n)[2..] == Digits(n);
    }
  }

  /** Among the accepted strings exactly the canonical ones are printed back unchanged. */
  lemma PrintParse(s: string)
    requires ParseHex(s).Ok?
    ensures Print(ParseHex(s).value) == s <==> Canonical(s)
  {
    PrintedIsCanonical(ParseHex(s).value);
    if Canonical(s) {
      CanonicalIsPrinted(s);
    }
  }

  lemma {:induction false} DigitsAreLower(n: nat)
    ensures IsLowerHex(Digits(n))
  {
    if n > 0 {
      DigitsAreLower(n / 16);
    }
  }
}
