/** Printing and reading numbers (src/common/string.c:187-250). */
module Numerals {
  import opened Arithmetic
  import opened Bytes

  /** The digit of a value below 36. */
  function Digit(d: nat): (c: char)
    requires d < 36
    ensures '0' <= c <= '9' || 'a' <= c <= 'z'
    ensures d < 10 <==> '0' <= c <= '9'
  {
    if d < 10 then '0' + d as char else 'a' + (d - 10) as char
  }

  function Value(c: char): int { if '0' <= c <= '9' then (c - '0') as int else if 'a' <= c <= 'z' then (c - 'a') as int + 10 else -1 }

  lemma ValueOfDigit(d: nat)
    requires d < 36
    ensures Value(Digit(d)) == d
  {
  }

  /** Ten decimal digits, and then the lower-case letters, in the order of their values. */
  lemma DigitsAre(d: nat)
    requires d < 36
    ensures Digit(d) == "0123456789abcdefghijklmnopqrstuvwxyz"[d] && Value("0123456789abcdefghijklmnopqrstuvwxyz"[d]) == d
  {
  }

  /** The number a string of digits stands for, by position. */
  function Number(s: string, base: nat): int { if s == [] then 0 else Number(s[..|s| - 1], base) * base + Value(s[|s| - 1]) }

  /** The least significant digit first, as the first loop of itoa leaves them. */
  function Digits(n: nat, base: nat): (s: string)
    requires 2 <= base <= 36
    ensures |s| > 0
  {
    Shrinks(n, base);
    if n / base == 0 then [Digit(n % base)] else [Digit(n % base)] + Digits(n / base, base)
  }

  function Reversed(s: string): (r: string)
    ensures |r| == |s| && forall i :: 0 <= i < |s| ==> r[i] == s[|s| - 1 - i]
  {
    if s == [] then [] else Reversed(s[1..]) + [s[0]]
  }

  function Numeral(n: nat, base: nat): string
    requires 2 <= base <= 36
  {
    Reversed(Digits(n, base))
  }

  lemma AppendDigit(t: string, d: nat, base: nat)
    requires d < 36
    ensures Number(t + [Digit(d)], base) == Number(t, base) * base + d
  {
    ValueOfDigit(d);
    assert (t + [Digit(d)])[..|t|] == t;
  }

  lemma ReversedCons(c: char, s: string)
    ensures Reversed([c] + s) == Reversed(s) + [c]
  {
  }

  lemma NumeralStep(n: nat, base: nat)
    requires 2 <= base <= 36
    ensures 0 <= n % base < base && 0 <= n / base
    ensures Numeral(n, base) == (if n / base == 0 then "" else Numeral(n / base, base)) + [Digit(n % base)]
  {
    hide Digit;
    DivMod(n, base);
    Shrinks(n, base);
    var rest := if n / base == 0 then "" else Digits(n / base, base);
    assert Digits(n, base) == [Digit(n % base)] + rest;
    ReversedCons(Digit(n % base), rest);
  }

  /** itoa's result stands for the number and has no leading zero, in every base. */
  lemma {:induction false} NumeralIs(n: nat, base: nat)
    requires 2 <= base <= 36
    ensures Number(Numeral(n, base), base) == n && |Numeral(n, base)| > 0
    ensures n > 0 ==> Numeral(n, base)[0] != '0'
    ensures n == 0 ==> Numeral(n, base) == "0"
    ensures forall i :: 0 <= i < |Numeral(n, base)| ==> 0 <= Value(Numeral(n, base)[i]) < base
    decreases n
  {
    hide Numeral, Digit, Number, Value;
    Shrinks(n, base);
    DivMod(n, base);
    NumeralStep(n, base);
    var q, d := n / base, n % base;
    ValueOfDigit(d);
    FirstDigit(d);
    if q == 0 {
      AppendDigit("", d, base);
      NoDigits(base);
      assert "" + [Digit(d)] == [Digit(d)];
    } else {
      NumeralIs(q, base);
      AppendDigit(Numeral(q, base), d, base);
    }
  }

  lemma FirstDigit(d: nat)
    requires d < 36
    ensures Digit(d) == '0' <==> d == 0
  {
  }

  lemma NoDigits(base: nat)
    ensures Number("", base) == 0
  {
  }

  lemma DigitsStep(n: nat, base: nat)
    requires 2 <= base <= 36
    ensures 0 <= n % base < base && 0 <= n / base
    ensures Digits(n, base) == [Digit(n % base)] + if n / base == 0 then [] else Digits(n / base, base)
  {
    hide Digit;
    DivMod(n, base);
  }

  /** The first loop of itoa. */
  method PutDigits(buf: array<char>, number: nat, base: nat) returns (i: nat)
    requires 2 <= base <= 36 && |Digits(number, base)| < buf.Length
    modifies buf
    ensures i == |Digits(number, base)| && buf[..i] == Digits(number, base) && buf[i..] == old(buf[i..])
  {
    hide Digits, Digit;
    ghost var all := Digits(number, base);
    var n, tmp := number, 0;
    i := 0;
    var more := true;
    while more
      invariant 0 <= n && 0 <= i <= |all| && all[i..] == if more then Digits(n, base) else []
      invariant forall k :: 0 <= k < i ==> buf[k] == all[k]
      invariant forall k :: i <= k < buf.Length ==> buf[k] == old(buf[k])
      decreases more, n
    {
      Shrinks(n, base);
      DigitsStep(n, base);
      tmp := n % base;
      FirstOf(all, i, Digit(tmp), if n / base == 0 then [] else Digits(n / base, base));
      buf[i] := Digit(tmp);
      i := i + 1;
      n := n / base;
      more := n != 0;
    }
  }

  lemma FirstOf(s: string, i: nat, c: char, rest: string)
    requires i <= |s| && s[i..] == [c] + rest
    ensures i < |s| && s[i] == c && s[i + 1..] == rest && s[..i + 1] == s[..i] + [c]
  {
    assert s[i..][1..] == rest;
  }

  /** itoa: the digits into the buffer, a zero behind them, then reversed in place. */
  method Itoa(buf: array<char>, number: nat, base: nat)
    requires 2 <= base <= 36 && |Numeral(number, base)| < buf.Length
    modifies buf
    ensures var s := Numeral(number, base);
      buf[..|s|] == s && buf[|s|] == '\0' && buf[|s| + 1..] == old(buf[|s| + 1..])
  {
    hide Digits, Reversed;
    var i := PutDigits(buf, number, base);
    ghost var tail := buf[i..];
    buf[i] := '\0';
    assert buf[i..] == ['\0'] + tail[1..];
    ReverseFront(buf, i);
    assert buf[i..] == ['\0'] + tail[1..];
  }

  /** The loop that swaps from both ends. */
  method ReverseFront(buf: array<char>, n: nat)
    requires 0 < n <= buf.Length
    modifies buf
    ensures buf[..n] == Reversed(old(buf[..n])) && buf[n..] == old(buf[n..])
  {
    ghost var was := buf[..];
    var i, j := n - 1, 0;
    while j < i
      invariant i == n - 1 - j && 0 <= j <= n && -1 <= i
      invariant forall k :: 0 <= k < j ==> buf[k] == was[n - 1 - k] && buf[n - 1 - k] == was[k]
      invariant forall k :: j <= k <= i ==> buf[k] == was[k]
      invariant buf[n..] == was[n..]
    {
      var tmp := buf[j];
      buf[j] := buf[i];
      buf[i] := tmp;
      j := j + 1;
      i := i - 1;
    }
    forall k | 0 <= k < n
      ensures buf[k] == was[..n][n - 1 - k]
    {
      if k > i && k >= j {
        assert buf[n - 1 - (n - 1 - k)] == was[n - 1 - k];
      }
    }
  }

  predicate IsSpace(c: char) { c == ' ' || c == '\t' || c == '\n' || c == 11 as char || c == 12 as char || c == '\r' }

  predicate IsDecimal(c: char) { '0' <= c <= '9' }

  /** Where the first character without a property is. */
  function Spaces(s: string): (k: nat)
    ensures k <= |s| && (forall i :: 0 <= i < k ==> IsSpace(s[i])) && (k < |s| ==> !IsSpace(s[k]))
  {
    if s != [] && IsSpace(s[0]) then 1 + Spaces(s[1..]) else 0
  }

  function Decimals(s: string): (k: nat)
    ensures k <= |s| && (forall i :: 0 <= i < k ==> IsDecimal(s[i])) && (k < |s| ==> !IsDecimal(s[k]))
  {
    if s != [] && IsDecimal(s[0]) then 1 + Decimals(s[1..]) else 0
  }

  lemma SpacesIs(s: string, k: nat)
    requires k <= |s| && (forall i :: 0 <= i < k ==> IsSpace(s[i])) && (k < |s| ==> !IsSpace(s[k]))
    ensures Spaces(s) == k
  {
  }

  lemma DecimalsIs(s: string, k: nat)
    requires k <= |s| && (forall i :: 0 <= i < k ==> IsDecimal(s[i])) && (k < |s| ==> !IsDecimal(s[k]))
    ensures Decimals(s) == k
  {
  }

  predicate Signed(s: string) { s != [] && (s[0] == '-' || s[0] == '+') }

  function Unsigned(s: string): string { if Signed(s) then s[1..] else s }

  /** The decimal digits that atoi reads. */
  function Read(s: string): string {
    var t := Unsigned(s[Spaces(s)..]);
    t[..Decimals(t)]
  }

  function Parsed(s: string): int {
    var t := s[Spaces(s)..];
    if t != [] && t[0] == '-' then -Number(Read(s), 10) else Number(Read(s), 10)
  }

  /** The first digit counts most. */
  lemma {:induction false} FirstCounts(c: char, s: string, base: nat)
    ensures Number([c] + s, base) == Value(c) * Power(base, |s|) + Number(s, base)
  {
    if s == [] {
      assert [c][..0] == [];
    } else {
      var n := |s| - 1;
      assert ([c] + s)[..n + 1] == [c] + s[..n];
      FirstCounts(c, s[..n], base);
      Distribute(Value(c), Power(base, n), Number(s[..n], base), base);
    }
  }

  function Power(base: nat, n: nat): int { if n == 0 then 1 else base * Power(base, n - 1) }

  lemma Distribute(v: int, p: int, m: int, base: int)
    ensures (v * p + m) * base == v * (base * p) + m * base
  {
  }

  predicate White(s: string) { forall i :: 0 <= i < |s| ==> s[i] in " \t\n\r" || s[i] as int == 11 || s[i] as int == 12 }

  predicate AllDecimal(s: string) { forall i :: 0 <= i < |s| ==> '0' <= s[i] <= '9' }

  /** White space, a sign or none, and the digits as far as they go; what follows them is not looked at. */
  lemma ParsedIs(white: string, sign: string, digits: string, rest: string)
    requires White(white) && sign in ["", "+", "-"] && AllDecimal(digits) && (rest != "" ==> !('0' <= rest[0] <= '9'))
    requires sign == "" && digits == "" ==> rest != "" && !White(rest[..1]) && rest[0] != '+' && rest[0] != '-'
    ensures Parsed(white + sign + digits + rest) == if sign == "-" then -Number(digits, 10) else Number(digits, 10)
    ensures Read(white + sign + digits + rest) == digits
  {
    hide Number, Spaces, Decimals;
    var body := digits + rest;
    var tail := sign + body;
    var s := white + sign + digits + rest;
    assert s == white + tail && s[|white|..] == tail;
    SpacesIs(s, |white|) by { NotWhite(sign, digits, rest); }
    assert Unsigned(tail) == body by { NotWhite(sign, digits, rest); }
    DecimalsIs(body, |digits|);
    assert body[..|digits|] == digits;
  }

  /** What follows the white space is none, and shows its sign. */
  lemma NotWhite(sign: string, digits: string, rest: string)
    requires sign in ["", "+", "-"] && AllDecimal(digits)
    requires sign == "" && digits == "" ==> rest != "" && !White(rest[..1]) && rest[0] != '+' && rest[0] != '-'
    ensures var tail := sign + (digits + rest);
      && tail != "" && !IsSpace(tail[0]) && Unsigned(tail) == digits + rest && (tail[0] == '-' <==> sign == "-")
  {
    var tail := sign + (digits + rest);
    if sign != "" {
      assert tail[0] == sign[0] && tail[1..] == digits + rest;
    } else if digits != "" {
      assert tail[0] == digits[0];
    } else {
      assert tail[0] == rest[0] && rest[..1][0] == rest[0];
    }
  }

  /** The last loop of atoi, from position k on. */
  method ReadDigits(s: string, k: nat) returns (result: int)
    requires k <= |s|
    ensures var t := s[k..]; result == Number(t[..Decimals(t)], 10)
  {
    ghost var t := s[k..];
    var i := k;
    result := 0;
    while i < |s| && IsDecimal(s[i])
      invariant k <= i <= |s| && forall j :: 0 <= j < i - k ==> IsDecimal(t[j])
      invariant result == Number(t[..i - k], 10)
    {
      assert t[i - k] == s[i] && t[..i - k + 1][..i - k] == t[..i - k];
      result := 10 * result + Value(s[i]);
      i := i + 1;
    }
    DecimalsIs(t, i - k);
  }

  /** atoi of a string (without its terminating zero) whose number an int can hold. */
  method Atoi(s: string) returns (result: int)
    requires Number(Read(s), 10) < INT_LIMIT
    ensures result == Parsed(s)
  {
    hide Number, Decimals;
    var k := 0;
    while k < |s| && IsSpace(s[k])
      invariant 0 <= k <= |s| && forall i :: 0 <= i < k ==> IsSpace(s[i])
    {
      k := k + 1;
    }
    SpacesIs(s, k);
    ghost var rest := s[k..];
    var sign := false;
    if k < |s| && s[k] == '-' {
      sign := true;
      k := k + 1;
    } else if k < |s| && s[k] == '+' {
      k := k + 1;
    }
    assert s[k..] == Unsigned(rest);
    result := ReadDigits(s, k);
    if sign {
      result := -result;
    }
  }

  lemma WholeNumber(s: string)
    requires s != "" && forall i :: 0 <= i < |s| ==> IsDecimal(s[i])
    ensures Parsed(s) == Number(s, 10) && Parsed("-" + s) == -Number(s, 10)
  {
    hide Number, Spaces, Decimals;
    SpacesIs(s, 0);
    DecimalsIs(s, |s|);
    assert s[0..] == s && s[..|s|] == s;
    var m := "-" + s;
    SpacesIs(m, 0);
    assert m[0..] == m && m[1..] == s;
    assert Read(s) == s && Read(m) == s;
  }

  /** Printing a number in base 10 and reading it again gives the number back, with or without a minus sign. */
  lemma ReadBack(n: int)
    requires n >= 0
    ensures Parsed(Numeral(n, 10)) == n && Parsed("-" + Numeral(n, 10)) == -n
  {
    hide Numeral, Parsed, Number;
    NumeralIs(n, 10);
    var s := Numeral(n, 10);
    forall i | 0 <= i < |s|
      ensures IsDecimal(s[i])
    {
      assert 0 <= Value(s[i]) < 10;
    }
    WholeNumber(s);
  }
}
