/** Decimal output and number input: the text side of the shell. */
module Klib {
  import opened Options

  const LIMIT := 0x1_0000_0000

  // ----- Numerals -----

  /** What a digit character is worth, in either case, up to base sixteen. */
  function DigitOf(c: char): Option<nat> {
    if '0' <= c <= '9' then Some(c as int - '0' as int)
    else if 'a' <= c <= 'f' then Some(c as int - 'a' as int + 10)
    else if 'A' <= c <= 'F' then Some(c as int - 'A' as int + 10)
    else None
  }

  predicate IsDigit(c: char, radix: nat) {
    DigitOf(c).Some? && DigitOf(c).value < radix
  }

  predicate AllDigits(s: string, radix: nat) {
    forall i :: 0 <= i < |s| ==> IsDigit(s[i], radix)
  }

  /** The positional value of a row of digits, of any length and any size. */
  function Value(s: string, radix: nat): nat
    requires AllDigits(s, radix)
  {
    if s == [] then 0 else Value(s[..|s| - 1], radix) * radix + DigitOf(s[|s| - 1]).value
  }

  lemma Grows(value: nat, radix: nat)
    requires radix >= 1
    ensures value * radix >= value
  {
  }

  /** More digits never make a smaller number, which is why the first overflow is final. */
  lemma {:induction false} PrefixIsSmaller(s: string, radix: nat, i: nat)
    requires radix >= 1 && AllDigits(s, radix) && i <= |s|
    ensures Value(s[..i], radix) <= Value(s, radix)
  {
    if i < |s| {
      PrefixIsSmaller(s[..|s| - 1], radix, i);
      assert s[..|s| - 1][..i] == s[..i];
      Grows(Value(s[..|s| - 1], radix), radix);
    } else {
      assert s[..i] == s;
    }
  }

  // ----- Reading a number -----

  /** Unicode White_Space, the characters that trimming removes. */
  predicate IsSpace(c: char): (r: bool)
    ensures r <==> c as int in {0x9, 0xA, 0xB, 0xC, 0xD, 0x20, 0x85, 0xA0, 0x1680, 0x2000, 0x2001, 0x2002, 0x2003, 0x2004,
                                0x2005, 0x2006, 0x2007, 0x2008, 0x2009, 0x200A, 0x2028, 0x2029, 0x202F, 0x205F, 0x3000}
  {
    || '\t' <= c <= '\r' || c == ' '
    || c as int in {0x85, 0xA0, 0x1680, 0x2028, 0x2029, 0x202F, 0x205F, 0x3000}
    || 0x2000 <= c as int <= 0x200A
  }

  function TrimStart(s: string): string {
    if s != [] && IsSpace(s[0]) then TrimStart(s[1..]) else s
  }

  function TrimEnd(s: string): string {
    if s != [] && IsSpace(s[|s| - 1]) then TrimEnd(s[..|s| - 1]) else s
  }

  function Trim(s: string): string { TrimEnd(TrimStart(s)) }

  /** The digits and their base: sixteen after a prefix of 0x or 0X. */
  function Radix(s: string): (r: (string, nat))
    ensures r.1 == 10 || r.1 == 16
  {
    if "0x" <= s || "0X" <= s then (s[2..], 16) else (s, 10)
  }

  /** The meaning of a number as typed: the value of its digits, when they are digits and the value fits 32 bits. */
  function Number(text: string): Option<nat> {
    var (digits, radix) := Radix(Trim(text));
    if digits != [] && AllDigits(digits, radix) && Value(digits, radix) < LIMIT
    then Some(Value(digits, radix)) else None
  }

  /** Digit by digit, giving up at the first bad digit or the first product or sum past 32 bits. */
  method ParseU32(text: string) returns (r: Option<nat>)
    ensures r == Number(text)
  {
    var (digits, radix) := Radix(Trim(text));
    if digits == [] {
      return None;
    }
    var value := 0;
    for i := 0 to |digits|
      invariant AllDigits(digits[..i], radix)
      invariant value == Value(digits[..i], radix) < LIMIT
    {
      var digit := DigitOf(digits[i]);
      if digit == None || digit.value >= radix {
        assert !IsDigit(digits[i], radix);
        return None;
      }
      assert digits[..i + 1][..i] == digits[..i];
      Grows(value, radix);
      if value * radix >= LIMIT || value * radix + digit.value >= LIMIT {
        if AllDigits(digits, radix) {
          PrefixIsSmaller(digits, radix, i + 1);
        }
        return None;
      }
      value := value * radix + digit.value;
    }
    assert digits[..|digits|] == digits;
    return Some(value);
  }

  // ----- Writing a number -----

  function Digit(d: nat): (c: char)
    requires d < 10
    ensures DigitOf(c) == Some(d) && '0' <= c <= '9'
  {
    '0' + d as char
  }

  /** The decimal numeral. */
  function Numeral(n: nat): (s: string)
    ensures s != []
  {
    (if n < 10 then [] else Numeral(n / 10)) + [Digit(n % 10)]
  }

  function Pow10(k: nat): nat {
    if k == 0 then 1 else 10 * Pow10(k - 1)
  }

  lemma {:induction false} TenDigits()
    ensures Pow10(10) > LIMIT && Pow10(1) == 10
  {
    assert Pow10(3) == 1000;
    assert Pow10(6) == 1000 * Pow10(3);
    assert Pow10(9) == 1000 * Pow10(6);
  }

  lemma DropDigit(m: nat, k: nat)
    requires k > 0 && m < Pow10(k)
    ensures m / 10 < Pow10(k - 1)
    ensures k == 1 ==> m / 10 == 0
  {
  }

  /** Fill the buffer from its end; ten characters are always enough. */
  method Utoa(n: nat, buf: array<char>) returns (start: nat)
    requires n < 0x1_0000_0000 && buf.Length == 10
    modifies buf
    ensures start < 10 && buf[start..] == Numeral(n)
    ensures buf[..start] == old(buf[..start])
  {
    hide Pow10, DigitOf;
    TenDigits();
    start := 10;
    var m: nat := n;
    while true
      invariant 0 < start <= 10 && m < Pow10(start)
      invariant Numeral(n) == Numeral(m) + buf[start..]
      invariant buf[..start] == old(buf[..start])
      decreases m
    {
      DropDigit(m, start);
      ghost var tail := buf[start..];
      start := start - 1;
      buf[start] := Digit(m % 10);
      assert buf[start..] == [Digit(m % 10)] + tail;
      assert buf[..start] == old(buf[..start]);
      m := m / 10;
      if m == 0 {
        break;
      }
    }
  }

  // ----- The round trip -----

  /** A numeral is digits, worth its number, with no zero in front. */
  lemma {:induction false} NumeralMeans(n: nat)
    ensures forall i :: 0 <= i < |Numeral(n)| ==> '0' <= Numeral(n)[i] <= '9'
    ensures AllDigits(Numeral(n), 10) && Value(Numeral(n), 10) == n
    ensures Numeral(n)[0] == '0' ==> n == 0
  {
    if n >= 10 {
      NumeralMeans(n / 10);
    }
    var s, front := Numeral(n), if n < 10 then [] else Numeral(n / 10);
    assert s[..|s| - 1] == front;
  }

  lemma DigitsRead(s: string)
    requires s != [] && forall i :: 0 <= i < |s| ==> '0' <= s[i] <= '9'
    ensures Trim(s) == s && Radix(s) == (s, 10)
  {
    assert '0' <= s[0] <= '9' && '0' <= s[|s| - 1] <= '9';
    assert |s| > 1 ==> '0' <= s[1] <= '9';
  }

  /** Reading back what was written gives the number, for all of the 32-bit range. */
  lemma RoundTrip(n: nat)
    requires n < 0x1_0000_0000
    ensures Number(Numeral(n)) == Some(n)
  {
    hide Numeral, Trim, Radix, Value, IsDigit;
    NumeralMeans(n);
    DigitsRead(Numeral(n));
  }

  lemma {:induction false} TrimStartSkips(space: string, s: string)
    requires forall i :: 0 <= i < |space| ==> IsSpace(space[i])
    ensures TrimStart(space + s) == TrimStart(s)
  {
    if space == [] {
      assert space + s == s;
    } else {
      assert (space + s)[1..] == space[1..] + s;
      TrimStartSkips(space[1..], s);
    }
  }

  lemma {:induction false} TrimEndSkips(s: string, space: string)
    requires forall i :: 0 <= i < |space| ==> IsSpace(space[i])
    ensures TrimEnd(s + space) == TrimEnd(s)
  {
    if space == [] {
      assert s + space == s;
    } else {
      assert (s + space)[..|s + space| - 1] == s + space[..|space| - 1];
      TrimEndSkips(s, space[..|space| - 1]);
    }
  }

  /** Space around the number does not matter. */
  lemma SpaceAround(before: string, s: string, after: string)
    requires forall i :: 0 <= i < |before| ==> IsSpace(before[i])
    requires forall i :: 0 <= i < |after| ==> IsSpace(after[i])
    requires s != [] && !IsSpace(s[0])
    ensures Number(before + s + after) == Number(s)
  {
    assert before + s + after == before + (s + after);
    TrimStartSkips(before, s + after);
    TrimEndSkips(s, after);
  }

  // ----- Base sixteen -----

  const LOWER := "0123456789abcdef"
  const UPPER := "0123456789ABCDEF"

  /** The digit characters are those of these two rows, each worth its place. */
  lemma DigitMeans(c: char, d: nat)
    ensures DigitOf(c) == Some(d) <==> d < 16 && (LOWER[d] == c || UPPER[d] == c)
  {
  }

  /** The numeral in base sixteen, written with the digits of `row`. */
  function HexNumeral(n: nat, row: string): (s: string)
    requires |row| == 16
    ensures s != []
  {
    (if n < 16 then [] else HexNumeral(n / 16, row)) + [row[n % 16]]
  }

  lemma {:induction false} HexMeans(n: nat, row: string)
    requires row == LOWER || row == UPPER
    ensures AllDigits(HexNumeral(n, row), 16) && Value(HexNumeral(n, row), 16) == n
    ensures forall i :: 0 <= i < |HexNumeral(n, row)| ==> !IsSpace(HexNumeral(n, row)[i])
  {
    hide DigitOf, IsSpace;
    if n >= 16 {
      HexMeans(n / 16, row);
    }
    var s, front, c := HexNumeral(n, row), if n < 16 then [] else HexNumeral(n / 16, row), row[n % 16];
    assert s[..|s| - 1] == front;
    DigitMeans(c, n % 16);
    NoSpace(c, n % 16);
  }

  lemma NoSpace(c: char, d: nat)
    requires d < 16 && (LOWER[d] == c || UPPER[d] == c)
    ensures !IsSpace(c)
  {
  }

  /** Reading a number in base sixteen gives it back, with either prefix and in either case, for all 32-bit numbers. */
  lemma HexRoundTrip(n: nat, prefix: string, row: string)
    requires n < 0x1_0000_0000 && (prefix == "0x" || prefix == "0X") && (row == LOWER || row == UPPER)
    ensures Number(prefix + HexNumeral(n, row)) == Some(n)
  {
    hide HexNumeral, Value, IsDigit, DigitOf;
    HexMeans(n, row);
    var digits := HexNumeral(n, row);
    var s := prefix + digits;
    assert s[0] == '0' && s[|s| - 1] == digits[|digits| - 1];
    assert Trim(s) == s;
    assert s[2..] == digits && prefix <= s;
  }

  /** Trimming takes all the white space from the front and nothing else. */
  lemma {:induction false} TrimStartMeans(s: string)
    ensures |TrimStart(s)| <= |s| && TrimStart(s) == s[|s| - |TrimStart(s)|..]
    ensures forall i :: 0 <= i < |s| - |TrimStart(s)| ==> IsSpace(s[i])
    ensures TrimStart(s) != [] ==> !IsSpace(TrimStart(s)[0])
  {
    hide IsSpace;
    if s != [] && IsSpace(s[0]) {
      TrimStartMeans(s[1..]);
    }
  }

  /** And all of it from the end and nothing else. */
  lemma {:induction false} TrimEndMeans(s: string)
    ensures |TrimEnd(s)| <= |s| && TrimEnd(s) == s[..|TrimEnd(s)|]
    ensures forall i :: |TrimEnd(s)| <= i < |s| ==> IsSpace(s[i])
    ensures TrimEnd(s) != [] ==> !IsSpace(TrimEnd(s)[|TrimEnd(s)| - 1])
  {
    hide IsSpace;
    if s != [] && IsSpace(s[|s| - 1]) {
      TrimEndMeans(s[..|s| - 1]);
    }
  }
}
