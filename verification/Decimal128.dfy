/** Printing and reading 128-bit integers in decimal, with digits grouped by threes. */
module Decimal128 {
  import opened Arithmetic
  import opened Fibonacci
  import opened FibTable
  import opened Words

  type UInt128 = x: int | 0 <= x < 0x1_0000_0000_0000_0000_0000_0000_0000_0000

  type Int128 = x: int |
    -0x8000_0000_0000_0000_0000_0000_0000_0000 <= x < 0x8000_0000_0000_0000_0000_0000_0000_0000

  // ---- What a text means ----

  predicate IsDigit(c: char) { '0' <= c <= '9' }

  predicate IsSeparator(c: char) { c == ',' || c == ' ' || c == '.' }

  predicate Separators(s: string) {
    forall i :: 0 <= i < |s| ==> IsSeparator(s[i])
  }

  predicate Readable(s: string) {
    forall i :: 0 <= i < |s| ==> IsDigit(s[i]) || IsSeparator(s[i])
  }

  function DigitValue(c: char): (d: nat)
    requires IsDigit(c)
    ensures d < 10
  {
    c as int - '0' as int
  }

  function Digit(d: nat): (c: char)
    requires d < 10
    ensures IsDigit(c) && DigitValue(c) == d
  {
    '0' + d as char
  }

  /** The digit characters, in the order of their values, and the separators; and no other character is one. */
  lemma CharacterTable(d: nat, c: char)
    requires d < 10
    ensures Digit(d) == "0123456789"[d] && DigitValue("0123456789"[d]) == d
    ensures IsDigit(c) <==> c in "0123456789"
    ensures IsSeparator(c) <==> c in ", ."
  {
    assert "0123456789"[0] == '0' && "0123456789"[9] == '9';
    if IsDigit(c) { assert c == "0123456789"[c as int - '0' as int]; }
    if c in "0123456789" { var i :| 0 <= i < 10 && "0123456789"[i] == c; }
    assert ", ."[0] == ',' && ", ."[1] == ' ' && ", ."[2] == '.';
  }

  /** The decimal value of the digits of a text, whatever stands between them. */
  function Value(s: string): nat {
    if s == "" then 0
    else if IsDigit(s[|s| - 1]) then Value(s[..|s| - 1]) * 10 + DigitValue(s[|s| - 1])
    else Value(s[..|s| - 1])
  }

  lemma ValueAppend(s: string, c: char)
    ensures Value(s + [c]) == if IsDigit(c) then Value(s) * 10 + DigitValue(c) else Value(s)
  {
    assert (s + [c])[..|s|] == s;
  }

  // ---- Reading ----

  predicate Negative(str: string) { str != "" && str[0] == '-' }

  function Unsigned(str: string): string {
    if Negative(str) then str[1..] else str
  }

  function Sign(str: string): int {
    if Negative(str) then -1 else 1
  }

  lemma WrapLinear(value: int, factor: int, offset: int)
    ensures Wrap(Wrap(value) * factor + offset) == Wrap(value * factor + offset)
  {
    var q, r := value / 0x1_0000_0000_0000_0000_0000_0000_0000_0000, Wrap(value);
    Distribute(q, r, factor, offset);
    ModMultiple(r * factor + offset, q * factor, 0x1_0000_0000_0000_0000_0000_0000_0000_0000);
  }

  lemma Distribute(q: int, r: int, factor: int, offset: int)
    ensures (q * 0x1_0000_0000_0000_0000_0000_0000_0000_0000 + r) * factor + offset
         == r * factor + offset + q * factor * 0x1_0000_0000_0000_0000_0000_0000_0000_0000
  {
  }

  /** What one more character does to the text read so far and to its value. */
  lemma ReadOne(text: string, k: nat)
    requires k < |text| && Readable(text[..k])
    ensures Readable(text[..k + 1]) <==> IsDigit(text[k]) || IsSeparator(text[k])
    ensures var before, after := Value(text[..k]), Value(text[..k + 1]);
            if IsDigit(text[k]) then Wrap(after) == Wrap(Wrap(before) * 10 + text[k] as int - '0' as int)
            else after == before
  {
    var read, c := text[..k], text[k];
    assert text[..k + 1] == read + [c];
    ValueAppend(read, c);
    if IsDigit(c) { WrapLinear(Value(read), 10, DigitValue(c)); }
  }

  predicate Legible(str: string) { Readable(Unsigned(str)) }

  /** The signed value of the digits, modulo 2^128. */
  function Meaning(str: string): UInt128 {
    Wrap(Value(Unsigned(str)) * Sign(str))
  }

  /** What is left in *p128 when the text is refused: the value of the digits before the first bad character. */
  ghost predicate StoppedAt(text: string, p128: UInt128) {
    exists k :: 0 <= k < |text| && Readable(text[..k]) && !Readable(text[..k + 1]) && p128 == Wrap(Value(text[..k]))
  }

  /** The loop over the characters behind the sign. */
  method Collect(text: string) returns (ok: bool, p128: UInt128)
    ensures ok <==> Readable(text)
    ensures if ok then p128 == Wrap(Value(text)) else StoppedAt(text, p128)
  {
    p128 := 0;
    var i := 0;
    while i < |text|
      invariant i <= |text| && Readable(text[..i]) && p128 == Wrap(Value(text[..i]))
    {
      ReadOne(text, i);
      if '0' <= text[i] <= '9' {
        p128 := Wrap(p128 * 10 + text[i] as int - '0' as int);
      } else if text[i] != ',' && text[i] != ' ' && text[i] != '.' {
        return false, p128;
      }
      i := i + 1;
    }
    assert text[..i] == text;
    ok := true;
  }

  lemma LegibleCharacters(text: string)
    ensures Readable(text) <==> forall c :: c in text ==> c in "0123456789, ."
  {
    forall c: char ensures c in "0123456789, ." <==> IsDigit(c) || IsSeparator(c) {
      CharacterTable(0, c);
      assert "0123456789, ." == "0123456789" + ", .";
    }
    if Readable(text) {
      forall c | c in text ensures c in "0123456789, ." {
        var i :| 0 <= i < |text| && text[i] == c;
      }
    }
  }

  /** For every text: accepted when everything after an optional leading minus sign is a digit or a separator, and
      then the signed value of the digits modulo 2^128. */
  method Mk128(str: string) returns (ok: bool, p128: UInt128)
    ensures ok <==> forall c :: c in (if str != "" && str[0] == '-' then str[1..] else str) ==> c in "0123456789, ."
    ensures ok <==> Legible(str)
    ensures if ok then p128 == Meaning(str) else StoppedAt(Unsigned(str), p128)
  {
    var mult, rest := 1, str;
    if str != "" && str[0] == '-' {
      mult := -1;
      rest := str[1..];
    }
    ok, p128 := Collect(rest);
    LegibleCharacters(rest);
    if ok {
      WrapLinear(Value(rest), mult, 0);
      p128 := Wrap(p128 * mult);
    }
  }

  // ---- Printing ----

  /** What printf's %d shows for a number that is not negative. */
  function Numeral(x: nat): (s: string)
    ensures s != "" && (x > 0 ==> s[0] != '0') && forall i :: 0 <= i < |s| ==> IsDigit(s[i])
  {
    if x < 10 then [Digit(x)] else Numeral(x / 10) + [Digit(x % 10)]
  }

  /** And %03d for one below a thousand. */
  function Padded(x: nat): string
    requires x < 1000
  {
    [Digit(x / 100), Digit(x / 10 % 10), Digit(x % 10)]
  }

  /** What the program prints for a number that is not negative, and for any other one. */
  function Grouped(x: nat, sep: string): string {
    if x < 1000 then Numeral(x) else Grouped(x / 1000, sep) + sep + Padded(x % 1000)
  }

  function Signed(x: int, sep: string): string {
    if x < 0 then "-" + Grouped(-x, sep) else Grouped(x, sep)
  }

  class Stdout {
    var text: string

    constructor ()
      ensures text == ""
    {
      text := "";
    }

    method Put(s: string)
      modifies this
      ensures text == old(text) + s
    {
      text := text + s;
    }
  }

  /** print128 of the unsigned program. */
  method Print128(x: UInt128, sep: string, out: Stdout)
    modifies out
    ensures out.text == old(out.text) + Grouped(x, sep)
    decreases x
  {
    if x < 1000 {
      out.Put(Numeral(x));
      return;
    }
    ghost var before := out.text;
    Print128(x / 1000, sep, out);
    out.Put(sep + Padded(x % 1000));
    assert out.text == before + (Grouped(x / 1000, sep) + (sep + Padded(x % 1000)));
    SignedParts(x, sep);
  }

  lemma SignedParts(x: int, sep: string)
    ensures x < 0 ==> Signed(x, sep) == "-" + Signed(-x, sep)
    ensures 0 <= x < 1000 ==> Signed(x, sep) == Numeral(x)
    ensures x >= 1000 ==> 0 <= x / 1000 < x && Signed(x, sep) == Signed(x / 1000, sep) + (sep + Padded(x % 1000))
  {
    if x >= 1000 {
      assert Grouped(x / 1000, sep) + sep + Padded(x % 1000) == Grouped(x / 1000, sep) + (sep + Padded(x % 1000));
    }
  }

  /** print128 of the signed program. Negating the least value overflows, which C leaves undefined: printing is
      defined for every other value. */
  method PrintSigned128(x: Int128, sep: string, out: Stdout) returns (defined: bool)
    modifies out
    ensures defined <==> x != -0x8000_0000_0000_0000_0000_0000_0000_0000
    ensures defined ==> out.text == old(out.text) + Signed(x, sep)
    decreases if x < 0 then 1 - x else x
  {
    SignedParts(x, sep);
    ghost var before := out.text;
    defined := true;
    if x < 0 {
      out.Put("-");
      if x == -0x8000_0000_0000_0000_0000_0000_0000_0000 { return false; }
      defined := PrintSigned128(-x, sep, out);
      assert out.text == before + ("-" + Signed(-x, sep));
      return;
    }
    if x < 1000 {
      out.Put(Numeral(x));
      return;
    }
    defined := PrintSigned128(x / 1000, sep, out);
    out.Put(sep + Padded(x % 1000));
    assert out.text == before + (Signed(x / 1000, sep) + (sep + Padded(x % 1000)));
  }

  // ---- What is printed is the decimal numeral, and reads back ----

  /** A text without its separators. */
  function Kept(s: string): string {
    if s == "" then ""
    else if IsSeparator(s[|s| - 1]) then Kept(s[..|s| - 1])
    else Kept(s[..|s| - 1]) + [s[|s| - 1]]
  }

  lemma {:induction false} KeptAppend(s: string, t: string)
    ensures Kept(s + t) == Kept(s) + Kept(t)
  {
    if t == "" {
      assert s + t == s;
    } else {
      var front := t[..|t| - 1];
      assert (s + t)[..|s + t| - 1] == s + front;
      KeptAppend(s, front);
    }
  }

  lemma {:induction false} KeptNothing(s: string)
    requires Separators(s)
    ensures Kept(s) == ""
  {
    if s != "" { KeptNothing(s[..|s| - 1]); }
  }

  lemma {:induction false} KeptAll(s: string)
    requires forall i :: 0 <= i < |s| ==> IsDigit(s[i])
    ensures Kept(s) == s
  {
    if s != "" { KeptAll(s[..|s| - 1]); }
  }

  lemma {:induction false} KeptValue(s: string)
    ensures Value(Kept(s)) == Value(s)
  {
    if s != "" {
      var front, last := s[..|s| - 1], s[|s| - 1];
      KeptValue(front);
      if !IsSeparator(last) { ValueAppend(Kept(front), last); }
    }
  }

  lemma {:induction false} NumeralValue(x: nat)
    ensures Value(Numeral(x)) == x
  {
    if x < 10 {
      ValueAppend("", Digit(x));
      assert "" + [Digit(x)] == [Digit(x)];
    } else {
      NumeralValue(x / 10);
      ValueAppend(Numeral(x / 10), Digit(x % 10));
    }
  }

  lemma LastDigits(x: nat)
    ensures x / 10 / 10 / 10 == x / 1000
    ensures x % 1000 / 100 == x / 10 / 10 % 10 && x % 1000 / 10 % 10 == x / 10 % 10 && x % 1000 % 10 == x % 10
  {
    DivModSplit(x, 10);
    DivModSplit(x / 10, 10);
    DivModSplit(x / 10 / 10, 10);
    FourParts(x, x / 10 / 10 / 10, x / 10 / 10 % 10, x / 10 % 10, x % 10);
  }

  lemma FourParts(x: nat, q: nat, h: nat, t: nat, u: nat)
    requires h < 10 && t < 10 && u < 10 && x == ((q * 10 + h) * 10 + t) * 10 + u
    ensures x / 1000 == q && x % 1000 / 100 == h && x % 1000 / 10 % 10 == t && x % 1000 % 10 == u
  {
    var last := (h * 10 + t) * 10 + u;
    DivModUnique(x, 1000, q, last);
    DivModUnique(last, 100, h, t * 10 + u);
    DivModUnique(last, 10, h * 10 + t, u);
    DivModUnique(h * 10 + t, 10, h, t);
  }

  /** Three padded digits after the numeral of the quotient make the numeral. */
  lemma NumeralSplit(x: nat)
    requires x >= 1000
    ensures Numeral(x) == Numeral(x / 1000) + Padded(x % 1000)
  {
    LastDigits(x);
    ThreeMore(x / 10 / 10 / 10, x / 10 / 10, x / 10, x);
  }

  lemma ThreeMore(q: nat, b: nat, a: nat, x: nat)
    requires x >= 1000 && a == x / 10 && b == a / 10 && q == b / 10
    ensures Numeral(x) == Numeral(q) + [Digit(b % 10), Digit(a % 10), Digit(x % 10)]
  {
    assert Numeral(a) == Numeral(b) + [Digit(a % 10)];
    assert Numeral(b) == Numeral(q) + [Digit(b % 10)];
  }

  /** Where the separators stand: counted from the end, three digits and the separator alternate, and the text begins
      with a digit. */
  lemma {:induction false} SeparatorPlaces(x: nat, sep: string)
    ensures var text, m := Grouped(x, sep), |sep|;
            && text != "" && IsDigit(text[0])
            && forall i :: 0 <= i < |text| ==> AtPlace(text, i, sep)
  {
    if x >= 1000 {
      SeparatorPlaces(x / 1000, sep);
      GroupAdded(Grouped(x / 1000, sep), sep, Padded(x % 1000));
    } else {
      ShortNumeral(x);
      forall i | 0 <= i < |Numeral(x)| ensures AtPlace(Numeral(x), i, sep) {
        SmallMod(|Numeral(x)| - 1 - i, 3 + |sep|);
      }
    }
  }

  lemma ShortNumeral(x: nat)
    requires x < 1000
    ensures |Numeral(x)| <= 3
  {
    if x >= 100 {
      assert x / 10 / 10 < 10 && |Numeral(x / 10 / 10)| == 1;
      assert |Numeral(x / 10)| == 2;
    } else if x >= 10 {
      assert |Numeral(x / 10)| == 1;
    }
  }

  /** The character of a text at its place in the pattern: the last three of each period are digits. */
  ghost predicate AtPlace(text: string, i: nat, sep: string)
    requires i < |text|
  {
    var j := (|text| - 1 - i) % (3 + |sep|);
    if j < 3 then IsDigit(text[i]) else text[i] == sep[|sep| - 1 - (j - 3)]
  }

  lemma SmallMod(x: int, d: int)
    requires 0 <= x < d
    ensures x % d == x
  {
  }

  /** One more group at the end moves everything else by a whole period. */
  lemma GroupAdded(top: string, sep: string, group: string)
    requires |group| == 3 && forall i :: 0 <= i < 3 ==> IsDigit(group[i])
    requires forall i :: 0 <= i < |top| ==> AtPlace(top, i, sep)
    ensures forall i :: 0 <= i < |top + sep + group| ==> AtPlace(top + sep + group, i, sep)
  {
    var text, period := top + sep + group, 3 + |sep|;
    forall i | 0 <= i < |text| ensures AtPlace(text, i, sep) {
      if i < |top| {
        assert AtPlace(top, i, sep) && text[i] == top[i];
        ModMultiple(|top| - 1 - i, 1, period);
      } else {
        SmallMod(|text| - 1 - i, period);
      }
    }
  }

  lemma {:induction false} GroupedReadable(x: nat, sep: string)
    requires Separators(sep)
    ensures Grouped(x, sep) != "" && Readable(Grouped(x, sep)) && IsDigit(Grouped(x, sep)[0])
  {
    if x >= 1000 { GroupedReadable(x / 1000, sep); }
  }

  lemma KeptSeparators(top: string, sep: string)
    requires Separators(sep)
    ensures Kept(top + sep) == Kept(top)
  {
    KeptAppend(top, sep);
    KeptNothing(sep);
    assert Kept(top) + "" == Kept(top);
  }

  lemma KeptParts(top: string, sep: string, group: string)
    requires Separators(sep) && forall i :: 0 <= i < |group| ==> IsDigit(group[i])
    ensures Kept(top + sep + group) == Kept(top) + group
  {
    var front := top + sep;
    KeptSeparators(top, sep);
    KeptAppend(front, group);
    KeptAll(group);
  }

  /** Without its separators the printed text is the decimal numeral. */
  lemma {:induction false} GroupedDigits(x: nat, sep: string)
    requires Separators(sep)
    ensures Kept(Grouped(x, sep)) == Numeral(x)
  {
    if x < 1000 {
      KeptAll(Numeral(x));
    } else {
      GroupedDigits(x / 1000, sep);
      KeptParts(Grouped(x / 1000, sep), sep, Padded(x % 1000));
      NumeralSplit(x);
    }
  }

  lemma GroupedValue(x: nat, sep: string)
    requires Separators(sep)
    ensures Value(Grouped(x, sep)) == x
  {
    GroupedDigits(x, sep);
    KeptValue(Grouped(x, sep));
    NumeralValue(x);
  }

  /** A minus sign in front is what a negative number has, and only that. */
  lemma MinusSign(x: int, sep: string)
    ensures Signed(x, sep) != "" && (Signed(x, sep)[0] == '-' <==> x < 0)
    ensures x < 0 ==> Signed(x, sep)[1..] == Grouped(-x, sep)
  {
    if x >= 0 { SeparatorPlaces(x, sep); }
  }

  lemma SignedText(x: int, sep: string)
    requires Separators(sep)
    ensures Sign(Signed(x, sep)) == if x < 0 then -1 else 1
    ensures Unsigned(Signed(x, sep)) == Grouped(if x < 0 then -x else x, sep)
    ensures Legible(Signed(x, sep))
  {
    GroupedReadable(if x < 0 then -x else x, sep);
  }

  /** Reading gives back every number printed, two's complement if it is negative. */
  lemma RoundTrip(x: int, sep: string)
    requires Separators(sep)
    ensures Legible(Signed(x, sep)) && Meaning(Signed(x, sep)) == Wrap(x)
  {
    SignedText(x, sep);
    GroupedValue(if x < 0 then -x else x, sep);
  }

  lemma WrapFits(x: int)
    requires 0 <= x < 0x1_0000_0000_0000_0000_0000_0000_0000_0000
    ensures Wrap(x) == x && Wrap(x - 0x1_0000_0000_0000_0000_0000_0000_0000_0000) == x
  {
  }

  /** Printing an unsigned value and reading it restores it. */
  method RereadUnsigned(x: UInt128, sep: string) returns (ok: bool, p128: UInt128)
    requires Separators(sep)
    ensures ok && p128 == x
  {
    var out := new Stdout();
    Print128(x, sep, out);
    assert out.text == Signed(x, sep);
    RoundTrip(x, sep);
    WrapFits(x);
    ok, p128 := Mk128(out.text);
  }

  /** Printing a signed value, where that is defined, and reading it restores its two's complement. */
  method RereadSigned(x: Int128, sep: string) returns (defined: bool, ok: bool, p128: UInt128)
    requires Separators(sep)
    ensures defined <==> x != -0x8000_0000_0000_0000_0000_0000_0000_0000
    ensures defined ==> ok && p128 == if x < 0 then x + 0x1_0000_0000_0000_0000_0000_0000_0000_0000 else x
  {
    var out := new Stdout();
    defined := PrintSigned128(x, sep, out);
    if !defined { return false, false, 0; }
    assert out.text == Signed(x, sep);
    RoundTrip(x, sep);
    WrapFits(if x < 0 then x + 0x1_0000_0000_0000_0000_0000_0000_0000_0000 else x);
    ok, p128 := Mk128(out.text);
  }

  /** The value a signed register holds. */
  function SignedWrap(x: int): Int128 {
    var low: int := Wrap(x);
    if low < 0x8000_0000_0000_0000_0000_0000_0000_0000 then low
    else low - 0x1_0000_0000_0000_0000_0000_0000_0000_0000
  }

  /** The least value is the only negative one that negation leaves negative: with registers that wrap around,
      printing it would never end. */
  lemma NegationOverflows(x: int)
    requires -0x8000_0000_0000_0000_0000_0000_0000_0000 <= x < 0
    ensures SignedWrap(-x) < 0 <==> x == -0x8000_0000_0000_0000_0000_0000_0000_0000
  {
    WrapFits(-x);
  }

  // ---- The Fibonacci program ----

  ghost predicate Consecutive(num2: int, next: int, m: nat) {
    num2 == Wrap(Fib(m)) && next == Wrap(Fib(m + 1))
  }

  lemma ConsecutiveNext(num2: int, next: int, m: nat)
    requires Consecutive(num2, next, m)
    ensures Consecutive(next, Wrap(num2 + next), m + 1)
  {
    ModSum(Fib(m), Fib(m + 1), 0x1_0000_0000_0000_0000_0000_0000_0000_0000);
    FibNext(m + 1);
    FibNext(m);
  }

  method Print128Line(next: UInt128, n: nat) returns (line: string)
    requires n <= 184 && next == Wrap(Fib(n + 2))
    ensures line == Numeral(Fib(n + 2))
  {
    var out := new Stdout();
    Print128(next, "", out);
    line := out.text;
    Below128Bits(n + 2);
    WrapFits(Fib(n + 2));
    PlainDigits(next);
  }

  method FirstPair(n: nat) returns (num1: UInt128, num2: UInt128, next: UInt128)
    requires n == 0
    ensures Consecutive(num2, next, n + 1)
  {
    num1, num2 := 0, 1;
    next := num1 + num2;
    WrapFits(1);
  }

  /** The numbers of the 185 lines: each one is a whole Fibonacci number, nothing is lost. The n-th is Fib(n + 2). */
  method PrintFibonacci() returns (lines: seq<string>)
    ensures |lines| == 185
    ensures forall n :: 0 <= n < |lines| ==> lines[n] == Numeral(Fib(n + 2))
  {
    var n := 0;
    var num1, num2, next := FirstPair(n);
    lines := [];
    while n <= 184
      invariant n <= 185 && |lines| == n
      invariant Consecutive(num2, next, n + 1)
      invariant forall k :: 0 <= k < n ==> lines[k] == Numeral(Fib(k + 2))
    {
      var line := Print128Line(next, n);
      lines := lines + [line];
      ConsecutiveNext(num2, next, n + 1);
      num1 := num2;
      num2 := next;
      next := Wrap(num1 + num2);
      n := n + 1;
    }
  }

  lemma {:induction false} PlainDigits(x: nat)
    ensures Grouped(x, "") == Numeral(x)
  {
    if x >= 1000 {
      PlainDigits(x / 1000);
      NumeralSplit(x);
      assert Numeral(x / 1000) + "" + Padded(x % 1000) == Numeral(x / 1000) + Padded(x % 1000);
    }
  }
}
