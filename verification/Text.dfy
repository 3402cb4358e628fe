/**
 The text primitives the source takes from Go's `strings`, `strconv` and `fmt`:
 splitting on a delimiter, and decimal integers. A Go string is a sequence of
 bytes; here it is a `string` whose characters stand for those bytes.
 */
module Text {
  import opened Wrappers

  // Every character is a byte.
  predicate IsBytes(s: string) {
    forall i :: 0 <= i < |s| ==> s[i] as int < 256
  }

  // `unicode.IsSpace`
  predicate IsSpace(c: char) {
    var n := c as int;
    9 <= n <= 13 || n == 32 || n == 0x85 || n == 0xA0 || n == 0x1680 || 0x2000 <= n <= 0x200a
    || n == 0x2028 || n == 0x2029 || n == 0x202f || n == 0x205f || n == 0x3000
  }

  predicate HasPrefix(s: string, prefix: string) {
    |prefix| <= |s| && s[..|prefix|] == prefix
  }

  // ---------------------------------------------------------------------------
  // Delimiters.

  function Split(s: string, sep: char): (parts: seq<string>)
    ensures parts != []
  {
    if s == [] then [[]]
    else
      var rest := Split(s[1..], sep);
      if s[0] == sep then [[]] + rest else [[s[0]] + rest[0]] + rest[1..]
  }

  function Join(parts: seq<string>, sep: char): string {
    if parts == [] then []
    else if |parts| == 1 then parts[0]
    else parts[0] + [sep] + Join(parts[1..], sep)
  }

  lemma JoinCons(first: string, rest: seq<string>, sep: char)
    requires rest != []
    ensures Join([first] + rest, sep) == first + [sep] + Join(rest, sep)
  {
    assert ([first] + rest)[1..] == rest;
  }

  // The text before and after the first separator.
  function Cut(s: string, sep: char): Option<(string, string)> {
    if s == [] then None
    else if s[0] == sep then Some(([], s[1..]))
    else
      match Cut(s[1..], sep)
      case None => None
      case Some((before, after)) => Some(([s[0]] + before, after))
  }

  lemma {:induction false} SplitWhole(s: string, sep: char)
    requires sep !in s
    ensures Split(s, sep) == [s]
  {
    if s != [] {
      SplitWhole(s[1..], sep);
      assert [s[0]] + s[1..] == s;
    }
  }

  lemma {:induction false} SplitFirst(first: string, rest: string, sep: char)
    requires sep !in first
    ensures Split(first + [sep] + rest, sep) == [first] + Split(rest, sep)
  {
    var s := first + [sep] + rest;
    if first == [] {
      assert s[1..] == rest;
    } else {
      assert s[1..] == first[1..] + [sep] + rest;
      SplitFirst(first[1..], rest, sep);
      assert [s[0]] + first[1..] == first;
    }
  }

  lemma {:induction false} SplitJoin(parts: seq<string>, sep: char)
    requires parts != []
    requires forall i :: 0 <= i < |parts| ==> sep !in parts[i]
    ensures Split(Join(parts, sep), sep) == parts
  {
    if |parts| == 1 {
      SplitWhole(parts[0], sep);
    } else {
      SplitFirst(parts[0], Join(parts[1..], sep), sep);
      SplitJoin(parts[1..], sep);
    }
  }

  lemma {:induction false} JoinSplit(s: string, sep: char)
    ensures Join(Split(s, sep), sep) == s
    ensures forall i :: 0 <= i < |Split(s, sep)| ==> sep !in Split(s, sep)[i]
  {
    if s != [] {
      JoinSplit(s[1..], sep);
      var parts, rest := Split(s, sep), Split(s[1..], sep);
      if s[0] == sep {
        assert parts[1..] == rest;
        assert [] + [sep] + Join(rest, sep) == s;
      } else if |rest| > 1 {
        assert parts[1..] == rest[1..];
        assert [s[0]] + rest[0] + [sep] + Join(rest[1..], sep)
            == [s[0]] + (rest[0] + [sep] + Join(rest[1..], sep));
      }
      forall i | 0 <= i < |parts| ensures sep !in parts[i] {
        if i > 0 { assert parts[i] == if s[0] == sep then rest[i - 1] else rest[i]; }
      }
    }
  }

  lemma {:induction false} CutFirst(first: string, rest: string, sep: char)
    requires sep !in first
    ensures Cut(first + [sep] + rest, sep) == Some((first, rest))
  {
    var s := first + [sep] + rest;
    if first == [] {
      assert s[1..] == rest;
    } else {
      assert s[1..] == first[1..] + [sep] + rest;
      CutFirst(first[1..], rest, sep);
      assert [s[0]] + first[1..] == first;
    }
  }

  lemma {:induction false} CutNone(s: string, sep: char)
    requires sep !in s
    ensures Cut(s, sep) == None
  {
    if s != [] {
      CutNone(s[1..], sep);
    }
  }

  // A cut is at the first separator, and fails only if there is none.
  lemma {:induction false} CutIsFirst(s: string, sep: char)
    ensures match Cut(s, sep)
            case None => sep !in s
            case Some((before, after)) => sep !in before && s == before + [sep] + after
  {
    if s != [] && s[0] != sep {
      CutIsFirst(s[1..], sep);
      assert s == [s[0]] + s[1..];
    }
  }

  // ---------------------------------------------------------------------------
  // Decimal integers.

  const INT64_MIN := -0x8000_0000_0000_0000
  const INT64_MAX := 0x7fff_ffff_ffff_ffff

  predicate IsDigit(c: char) {
    '0' <= c <= '9'
  }

  predicate AllDigits(s: string) {
    forall i :: 0 <= i < |s| ==> IsDigit(s[i])
  }

  function Digit(n: nat): char
    requires n < 10
  {
    n as char + '0'
  }

  function DigitValue(c: char): nat
    requires IsDigit(c)
  {
    c as int - '0' as int
  }

  function Decimal(n: nat): (s: string)
    ensures s != [] && AllDigits(s)
  {
    if n < 10 then [Digit(n)] else Decimal(n / 10) + [Digit(n % 10)]
  }

  function Value(s: string): nat
    requires AllDigits(s)
  {
    if s == [] then 0 else 10 * Value(s[..|s| - 1]) + DigitValue(s[|s| - 1])
  }

  lemma {:induction false} ValueOfDecimal(n: nat)
    ensures Value(Decimal(n)) == n
  {
    var s := Decimal(n);
    if n < 10 {
      assert s[..0] == [];
    } else {
      assert s[..|s| - 1] == Decimal(n / 10);
      ValueOfDecimal(n / 10);
    }
  }

  // `%d` of a signed integer.
  function PrintInt(n: int): string {
    if n < 0 then "-" + Decimal(-n) else Decimal(n)
  }

  // `strconv.ParseInt(s, 10, 64)`, and `Atoi` on a 64-bit platform: an optional
  // sign, then digits and nothing else, in range.
  function ParseInt(s: string): Option<int> {
    var signed := s != [] && (s[0] == '+' || s[0] == '-');
    var digits := if signed then s[1..] else s;
    if digits == [] || !AllDigits(digits) then None else
      var n := (if signed && s[0] == '-' then -1 else 1) * Value(digits);
      if INT64_MIN <= n <= INT64_MAX then Some(n) else None
  }

  lemma ParseOfPrint(n: int)
    requires INT64_MIN <= n <= INT64_MAX
    ensures ParseInt(PrintInt(n)) == Some(n)
  {
    if n < 0 {
      ValueOfDecimal(-n);
      assert PrintInt(n)[1..] == Decimal(-n);
    } else {
      ValueOfDecimal(n);
      assert IsDigit(Decimal(n)[0]);
    }
  }

  // A printed integer holds digits and perhaps a sign, so no delimiter.
  lemma PrintIntCharacters(n: int)
    ensures forall i :: 0 <= i < |PrintInt(n)| ==> IsDigit(PrintInt(n)[i]) || PrintInt(n)[i] == '-'
  {
    if n < 0 {
      var digits := Decimal(-n);
      assert AllDigits(digits);
    }
  }

  // ---------------------------------------------------------------------------
  // Which texts are integers.

  function Zeros(z: nat): (s: string)
    ensures |s| == z && AllDigits(s)
  {
    seq(z, _ => '0')
  }

  // An optional sign, any number of zeros, and the printed magnitude.
  predicate NumeralWith(s: string, n: int, sign: string, z: nat) {
    && sign in ["", "+", "-"] && (n < 0 ==> sign == "-") && (n > 0 ==> sign != "-")
    && s == sign + (Zeros(z) + Decimal(if n < 0 then -n else n))
  }

  ghost predicate Numeral(s: string, n: int) {
    exists sign: string, z: nat :: NumeralWith(s, n, sign, z)
  }

  lemma {:induction false} LeadingZeros(z: nat, s: string)
    requires AllDigits(s)
    ensures Value(Zeros(z) + s) == Value(s)
    decreases z + |s|
  {
    var t := Zeros(z) + s;
    if s != [] {
      assert t[..|t| - 1] == Zeros(z) + s[..|s| - 1];
      LeadingZeros(z, s[..|s| - 1]);
    } else if z > 0 {
      assert t[..z - 1] == Zeros(z - 1) + [];
      LeadingZeros(z - 1, []);
    }
  }

  lemma DecimalSnoc(v: nat, c: char)
    requires v > 0 && IsDigit(c)
    ensures Decimal(10 * v + DigitValue(c)) == Decimal(v) + [c]
  {
    assert (10 * v + DigitValue(c)) / 10 == v && Digit(DigitValue(c)) == c;
  }

  lemma PrintedSnoc(init: string, c: char, v: nat, z: nat) returns (y: nat)
    requires IsDigit(c) && init == Zeros(z) + Decimal(v)
    ensures init + [c] == Zeros(y) + Decimal(10 * v + DigitValue(c))
  {
    if v > 0 {
      y := z;
      DecimalSnoc(v, c);
      assert init + [c] == Zeros(z) + (Decimal(v) + [c]);
    } else {
      y := z + 1;
      assert Digit(DigitValue(c)) == c && Decimal(DigitValue(c)) == [c];
      assert init + [c] == Zeros(z + 1) + [c];
    }
  }

  // Digits are the printed form of their value, after some zeros.
  lemma {:induction false} DigitsArePrinted(s: string) returns (z: nat)
    requires s != [] && AllDigits(s)
    ensures s == Zeros(z) + Decimal(Value(s))
    decreases |s|
  {
    var init, last := s[..|s| - 1], s[|s| - 1];
    assert s == init + [last];
    if init == [] {
      assert Digit(DigitValue(last)) == last;
      z := 0;
    } else {
      z := DigitsArePrinted(init);
      z := PrintedSnoc(init, last, Value(init), z);
    }
  }

  lemma ParseSigned(sign: string, digits: string, n: int)
    requires sign in ["", "+", "-"] && digits != [] && AllDigits(digits)
    requires n == (if sign == "-" then -1 else 1) * Value(digits) && INT64_MIN <= n <= INT64_MAX
    ensures ParseInt(sign + digits) == Some(n)
  {
    var s := sign + digits;
    assert IsDigit(digits[0]);
    if sign == "" {
      assert s == digits;
    } else {
      assert s[0] == sign[0] && s[1..] == digits;
    }
  }

  lemma NumeralParses(s: string, n: int, sign: string, z: nat)
    requires NumeralWith(s, n, sign, z) && INT64_MIN <= n <= INT64_MAX
    ensures ParseInt(s) == Some(n)
  {
    var m := if n < 0 then -n else n;
    LeadingZeros(z, Decimal(m));
    ValueOfDecimal(m);
    ParseSigned(sign, Zeros(z) + Decimal(m), n);
  }

  lemma DigitsAreNumeral(digits: string, sign: string, n: int)
    requires digits != [] && AllDigits(digits) && sign in ["", "+", "-"]
    requires n == (if sign == "-" then -1 else 1) * Value(digits)
    ensures Numeral(sign + digits, n)
  {
    var z := DigitsArePrinted(digits);
    var m := if n < 0 then -n else n;
    assert m == Value(digits);
    assert NumeralWith(sign + digits, n, sign, z);
  }

  lemma ParsedIsNumeral(s: string)
    requires ParseInt(s).Some?
    ensures Numeral(s, ParseInt(s).value)
  {
    var n := ParseInt(s).value;
    if s[0] == '+' || s[0] == '-' {
      var sign, digits := s[..1], s[1..];
      assert sign == [s[0]] && s == sign + digits;
      DigitsAreNumeral(digits, sign, n);
    } else {
      DigitsAreNumeral(s, "", n);
      assert "" + s == s;
    }
  }

  // An integer is read from exactly its numerals, as long as it fits in 64 bits.
  lemma ParseIntIff(s: string, n: int)
    ensures ParseInt(s) == Some(n) <==> INT64_MIN <= n <= INT64_MAX && Numeral(s, n)
  {
    if ParseInt(s) == Some(n) {
      ParsedIsNumeral(s);
    }
    if INT64_MIN <= n <= INT64_MAX && Numeral(s, n) {
      var sign: string, z: nat :| NumeralWith(s, n, sign, z);
      NumeralParses(s, n, sign, z);
    }
  }

  // ---------------------------------------------------------------------------
  // The size of a number, digit by digit from the left.

  function Power(n: nat): nat {
    if n == 0 then 1 else 10 * Power(n - 1)
  }

  lemma TenTimes(d: nat, p: nat)
    ensures 10 * (d * p) == d * (10 * p)
  {
  }

  lemma {:induction false} ValueFromLeft(s: string)
    requires s != [] && AllDigits(s)
    ensures Value(s) == DigitValue(s[0]) * Power(|s| - 1) + Value(s[1..])
    decreases |s|
  {
    var init := s[..|s| - 1];
    if |s| == 1 {
      assert s[1..] == [] && init == [];
    } else {
      ValueFromLeft(init);
      var tail := s[1..];
      assert tail[..|s| - 2] == init[1..] && tail[|s| - 2] == s[|s| - 1];
      TenTimes(DigitValue(s[0]), Power(|s| - 2));
    }
  }

  lemma {:induction false} ValueBound(s: string)
    requires AllDigits(s)
    ensures Value(s) < Power(|s|)
  {
    if s != [] {
      ValueBound(s[..|s| - 1]);
    }
  }

  lemma DecimalVectors()
    ensures Decimal(0) == "0" && Decimal(19) == "19" && Decimal(65536) == "65536" && Value("0120") == 120
  {
    assert Decimal(65) == "65" && Decimal(655) == "655" && Decimal(6553) == "6553";
    assert "0120"[..3] == "012" && "012"[..2] == "01" && "01"[..1] == "0" && "0"[..0] == "";
  }
}
