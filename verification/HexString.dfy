/** The hexadecimal subroutines of the two-word Fibonacci program: printing a register through overlapping
    eight-byte stores, and reading a string of digits of either case. */
module HexString {
  import opened Arithmetic
  import opened Words

  type Byte = x: int | 0 <= x < 0x100

  type Nibble = x: int | 0 <= x < 0x10

  // ---- Digits ----

  function Pow16(k: nat): (p: nat)
    ensures p >= 1
  {
    if k == 0 then 1 else 16 * Pow16(k - 1)
  }

  /** The number nibbles make, most significant first. */
  function Value(s: seq<Nibble>): nat {
    if s == [] then 0 else Value(s[..|s| - 1]) * 16 + s[|s| - 1]
  }

  /** The last k nibbles of a number. */
  function Nibbles(x: nat, k: nat): (s: seq<Nibble>)
    ensures |s| == k
  {
    if k == 0 then [] else Nibbles(x / 16, k - 1) + [x % 16]
  }

  lemma {:induction false} NibblesValue(x: nat, k: nat)
    requires x < Pow16(k)
    ensures Value(Nibbles(x, k)) == x
  {
    if k > 0 {
      NibblesValue(x / 16, k - 1);
      assert Nibbles(x, k)[..k - 1] == Nibbles(x / 16, k - 1);
    }
  }

  lemma ValueAppend(s: seq<Nibble>, d: Nibble)
    ensures Value(s + [d]) == Value(s) * 16 + d
  {
    assert (s + [d])[..|s|] == s;
  }

  lemma {:induction false} ValueBelow(s: seq<Nibble>)
    ensures Value(s) < Pow16(|s|)
  {
    if s != [] { ValueBelow(s[..|s| - 1]); }
  }

  /** A nibble k places up. */
  function Place(d: nat, k: nat): nat {
    if k == 0 then d else 16 * Place(d, k - 1)
  }

  lemma {:induction false} PlacePower(d: nat, k: nat)
    ensures Place(d, k) == d * Pow16(k)
  {
    if k > 0 { PlacePower(d, k - 1); }
  }

  lemma {:induction false} ValueFront(d: Nibble, s: seq<Nibble>)
    ensures Value([d] + s) == Place(d, |s|) + Value(s)
  {
    if s == [] {
      ValueAppend([], d);
      assert [] + [d] == [d] + s;
    } else {
      var front := s[..|s| - 1];
      assert ([d] + s)[..|s|] == [d] + front;
      ValueFront(d, front);
    }
  }

  lemma Pow16Word()
    ensures Pow16(15) == 0x1000_0000_0000_0000 && Pow16(16) == 0x1_0000_0000_0000_0000
  {
    assert Pow16(5) == 0x10_0000;
    assert Pow16(10) == 0x100_0000_0000;
    assert Pow16(15) == 0x1000_0000_0000_0000;
  }

  // ---- Printing ----

  /** rol by one nibble. */
  function RotateLeft(rax: Word): Word {
    Low(rax * 16) + rax / 0x1000_0000_0000_0000
  }

  /** Rotating a register moves its first nibble to the end. */
  lemma RotateNibbles(rax: Word, s: seq<Nibble>)
    requires |s| == 16 && Value(s) == rax
    ensures Value(s[1..] + [s[0]]) == RotateLeft(rax)
    ensures RotateLeft(rax) % 16 == s[0]
  {
    var d, rest := s[0], s[1..];
    assert s == [d] + rest;
    ValueFront(d, rest);
    ValueBelow(rest);
    PlacePower(d, 15);
    Pow16Word();
    ValueAppend(rest, d);
    RotateFields(rax, d, Value(rest));
  }

  lemma RotateFields(rax: Word, d: Nibble, rest: nat)
    requires rest < 0x1000_0000_0000_0000 && rax == d * 0x1000_0000_0000_0000 + rest
    ensures RotateLeft(rax) == rest * 16 + d && RotateLeft(rax) % 16 == d
  {
    DivModUnique(rax, 0x1000_0000_0000_0000, d, rest);
    DivModUnique(rax * 16, 0x1_0000_0000_0000_0000, d, rest * 16);
    DivModUnique(rest * 16 + d, 16, rest, d);
  }

  /** The character of a nibble, in upper case. */
  function HexChar(d: Nibble): Byte {
    if d < 10 then 0x30 + d else 0x37 + d
  }

  function HexChars(s: seq<Nibble>): seq<Byte> {
    seq(|s|, i requires 0 <= i < |s| => HexChar(s[i]))
  }

  /** A store of eight bytes, least significant first. */
  method Store(memory: array<Byte>, at: nat, rax: Word)
    requires at + 8 <= memory.Length && rax < 0x100
    modifies memory
    ensures memory[..at] == old(memory[..at])
    ensures memory[at] == rax
    ensures forall j :: at < j < at + 8 ==> memory[j] == 0
    ensures memory[at + 8..] == old(memory[at + 8..])
  {
    var rest: int := rax;
    for j := 0 to 8
      invariant rest == if j == 0 then rax else 0
      invariant memory[..at] == old(memory[..at])
      invariant j > 0 ==> memory[at] == rax
      invariant forall i :: at < i < at + j ==> memory[i] == 0
      invariant memory[at + 8..] == old(memory[at + 8..])
    {
      memory[at + j] := rest % 0x100;
      rest := rest / 0x100;
    }
  }

  /** The first k digits are in place, and seven NULs behind them. */
  ghost predicate Printed(memory: seq<Byte>, digits: seq<Nibble>, k: nat)
    requires k + 7 <= |memory| && k <= |digits|
  {
    && (forall i :: 0 <= i < k ==> memory[i] == HexChar(digits[i]))
    && (k > 0 ==> forall j :: k <= j < k + 7 ==> memory[j] == 0)
  }

  /** One store puts its digit in place and moves the NULs on. */
  method StoreDigit(memory: array<Byte>, rcx: nat, rax: Byte, ghost digits: seq<Nibble>)
    requires rcx < 16 == |digits| && memory.Length >= 23
    requires Printed(memory[..], digits, rcx) && rax == HexChar(digits[rcx])
    modifies memory
    ensures Printed(memory[..], digits, rcx + 1)
    ensures memory[23..] == old(memory[23..])
  {
    ghost var before := memory[..];
    Store(memory, rcx, rax);
    assert forall i :: 0 <= i < rcx ==> memory[i] == memory[..rcx][i] == before[i];
    assert memory[23..] == memory[rcx + 8..][15 - rcx..];
  }

  /** The register after k rotations: the first k digits have come round to the end. */
  ghost predicate Rotated(saved: Word, digits: seq<Nibble>, k: nat)
    requires k <= |digits|
  {
    saved == Value(digits[k..] + digits[..k])
  }

  lemma RotateOnce(saved: Word, digits: seq<Nibble>, k: nat)
    requires k < |digits| == 16 && Rotated(saved, digits, k)
    ensures RotateLeft(saved) % 16 == digits[k] && Rotated(RotateLeft(saved), digits, k + 1)
  {
    var s := digits[k..] + digits[..k];
    RotateNibbles(saved, s);
    assert s[0] == digits[k] && s[1..] + [s[0]] == digits[k + 1..] + digits[..k + 1];
  }

  lemma NotRotated(value: Word)
    ensures Rotated(value, Nibbles(value, 16), 0)
  {
    Pow16Word();
    NibblesValue(value, 16);
    var digits := Nibbles(value, 16);
    assert digits[0..] + digits[..0] == digits;
  }

  lemma PrintedAll(memory: seq<Byte>, digits: seq<Nibble>)
    requires |digits| == 16 && |memory| == 24 && Printed(memory, digits, 16)
    ensures memory[..16] == HexChars(digits)
    ensures forall j :: 16 <= j < 23 ==> memory[j] == 0
  {
  }

  /** The saved register turned by one nibble, and the character of its last one. */
  method NextDigit(saved: Word, ghost d: Nibble) returns (turned: Word, rax: Byte)
    requires RotateLeft(saved) % 16 == d
    ensures turned == RotateLeft(saved) && rax == HexChar(d)
  {
    turned := RotateLeft(saved);
    rax := turned % 16;
    if rax >= 10 { rax := rax + 7; }
    rax := rax + 0x30;
  }

  // ---- Reading ----

  predicate IsHex(c: Byte) {
    0x30 <= c <= 0x39 || 0x41 <= c <= 0x46 || 0x61 <= c <= 0x66
  }

  function Digit(c: Byte): Nibble
    requires IsHex(c)
  {
    if c <= 0x39 then c - 0x30 else if c <= 0x46 then c - 0x41 + 10 else c - 0x61 + 10
  }

  predicate AllHex(text: seq<Byte>) {
    forall i :: 0 <= i < |text| ==> IsHex(text[i])
  }

  function Digits(text: seq<Byte>): (s: seq<Nibble>)
    requires AllHex(text)
    ensures |s| == |text|
  {
    seq(|text|, i requires 0 <= i < |text| => Digit(text[i]))
  }

  /** The value of one character, or nothing: the comparisons and subtractions of the loop. */
  method Convert(c: Byte) returns (valid: bool, rsi: Nibble)
    ensures valid <==> IsHex(c)
    ensures valid ==> rsi == Digit(c)
  {
    var x: int := c;
    valid, rsi := false, 0;
    if x < 0x30 { return; }
    if x > 0x39 {
      if x < 0x41 { return; }
      if x > 0x46 {
        if x < 0x61 || x > 0x66 { return; }
        x := x - 0x20;
      }
      x := x - 0x7;
    }
    x := x - 0x30;
    valid, rsi := true, x;
  }

  /** The digit characters, in order of their values, in either case; and no other byte is one. */
  lemma DigitTable(d: Nibble)
    ensures HexChar(d) == "0123456789ABCDEF"[d] as int
    ensures IsHex("0123456789ABCDEF"[d] as int) && Digit("0123456789ABCDEF"[d] as int) == d
    ensures IsHex("0123456789abcdef"[d] as int) && Digit("0123456789abcdef"[d] as int) == d
  {
  }

  lemma OnlyDigits(c: Byte)
    ensures IsHex(c) ==> "0123456789ABCDEF"[Digit(c)] as int == c || "0123456789abcdef"[Digit(c)] as int == c
  {
  }

  /** A letter in lower case made upper case, any other byte as it is. */
  function Raised(c: Byte): Byte {
    if 0x61 <= c <= 0x66 then c - 0x20 else c
  }

  function RaisedAll(s: seq<Byte>): (r: seq<Byte>)
    ensures |r| == |s|
  {
    seq(|s|, i requires 0 <= i < |s| => Raised(s[i]))
  }

  /** What reading a text gives. */
  function Reading(text: seq<Byte>): Word {
    if AllHex(text) then Low(Value(Digits(text))) else 0xFFFF_FFFF_FFFF_FFFF
  }

  lemma {:induction false} RaisedText(memory: seq<Byte>)
    ensures Text(RaisedAll(memory)) == RaisedAll(Text(memory))
  {
    if memory != [] && memory[0] != 0 {
      assert RaisedAll(memory)[1..] == RaisedAll(memory[1..]);
      RaisedText(memory[1..]);
      assert RaisedAll([memory[0]] + Text(memory[1..])) == [Raised(memory[0])] + RaisedAll(Text(memory[1..]));
    }
  }

  /** Reading does not depend on case. */
  lemma CaseDoesNotMatter(memory: seq<Byte>)
    ensures Reading(Text(RaisedAll(memory))) == Reading(Text(memory))
  {
    var text := Text(memory);
    RaisedText(memory);
    if AllHex(text) {
      assert Digits(RaisedAll(text)) == Digits(text);
    } else {
      var i :| 0 <= i < |text| && !IsHex(text[i]);
      assert !IsHex(RaisedAll(text)[i]);
    }
  }

  lemma LowStep(value: nat, d: Nibble)
    ensures Low(Low(Low(value) * 16) + d) == Low(value * 16 + d)
  {
    var q, r := value / 0x1_0000_0000_0000_0000, Low(value);
    DivModSplit(value, 0x1_0000_0000_0000_0000);
    ModMultiple(r * 16 + d, q * 16, 0x1_0000_0000_0000_0000);
    var q', r' := r * 16 / 0x1_0000_0000_0000_0000, Low(r * 16);
    DivModSplit(r * 16, 0x1_0000_0000_0000_0000);
    ModMultiple(r' + d, q', 0x1_0000_0000_0000_0000);
  }

  /** The characters before the first NUL. */
  function Text(memory: seq<Byte>): seq<Byte> {
    if memory == [] || memory[0] == 0 then [] else [memory[0]] + Text(memory[1..])
  }

  lemma {:induction false} TextIs(memory: seq<Byte>, k: nat)
    requires k < |memory| && memory[k] == 0
    requires forall i :: 0 <= i < k ==> memory[i] != 0
    ensures Text(memory) == memory[..k]
  {
    if k > 0 {
      TextIs(memory[1..], k - 1);
      assert memory[..k] == [memory[0]] + memory[1..][..k - 1];
    }
  }

  lemma {:induction false} TextPrefix(memory: seq<Byte>, k: nat)
    requires k <= |memory| && forall i :: 0 <= i < k ==> memory[i] != 0
    ensures |Text(memory)| >= k && Text(memory)[..k] == memory[..k]
  {
    if k > 0 {
      TextPrefix(memory[1..], k - 1);
      assert Text(memory)[..k] == [memory[0]] + Text(memory[1..])[..k - 1];
      assert memory[..k] == [memory[0]] + memory[1..][..k - 1];
    }
  }

  lemma DigitsAppend(text: seq<Byte>, k: nat)
    requires k < |text| && AllHex(text[..k]) && IsHex(text[k])
    ensures AllHex(text[..k + 1]) && Digits(text[..k + 1]) == Digits(text[..k]) + [Digit(text[k])]
  {
  }

  lemma BadText(text: seq<Byte>, k: nat)
    requires k < |text| && (forall i :: 0 <= i <= k ==> text[i] != 0) && !IsHex(text[k])
    ensures !AllHex(Text(text))
  {
    TextPrefix(text, k + 1);
    assert Text(text)[k] == Text(text)[..k + 1][k];
  }

  /** stringtohex: for every terminated string of digits of either case its value modulo 2^64, for any other one -1,
      all ones. */
  method StringToHex(memory: array<Byte>) returns (rax: Word)
    requires exists k :: 0 <= k < memory.Length && memory[k] == 0
    ensures rax == Reading(Text(memory[..]))
    ensures !AllHex(Text(memory[..])) ==> rax == 0xFFFF_FFFF_FFFF_FFFF
  {
    rax := 0;
    var rdi := 0;
    ghost var text := memory[..];
    ghost var nul :| 0 <= nul < memory.Length && memory[nul] == 0;
    while memory[rdi] != 0
      invariant 0 <= rdi <= nul && forall i :: 0 <= i < rdi ==> text[i] != 0
      invariant AllHex(text[..rdi]) && rax == Low(Value(Digits(text[..rdi])))
      decreases nul - rdi
    {
      var valid, rsi := Convert(memory[rdi]);
      if !valid {
        BadText(text, rdi);
        return 0xFFFF_FFFF_FFFF_FFFF;
      }
      ghost var read := Digits(text[..rdi]);
      LowStep(Value(read), rsi);
      ValueAppend(read, rsi);
      DigitsAppend(text, rdi);
      rax := Low(Low(rax * 16) + rsi);
      rdi := rdi + 1;
    }
    TextIs(text, rdi);
  }

  // ---- Reading what was printed ----

  lemma CharsDigits(s: seq<Nibble>)
    ensures AllHex(HexChars(s)) && Digits(HexChars(s)) == s
  {
  }

  lemma TextOfDigits(memory: seq<Byte>, digits: seq<Nibble>)
    requires |digits| < |memory| && memory[..|digits|] == HexChars(digits) && memory[|digits|] == 0
    ensures Text(memory) == HexChars(digits) && AllHex(Text(memory)) && Digits(Text(memory)) == digits
  {
    assert forall i :: 0 <= i < |digits| ==> memory[i] == memory[..|digits|][i];
    TextIs(memory, |digits|);
    CharsDigits(digits);
  }

  /** The program's uninitialized data: the buffer of sixteen bytes and, behind it, the eight of saverax. */
  class Bss {
    const memory: array<Byte>

    ghost predicate Valid() {
      memory.Length == 24
    }

    constructor ()
      ensures Valid() && fresh(memory)
    {
      memory := new Byte[24](_ => 0);
    }

    /** hextostring into the buffer: sixteen digits, and a NUL behind them although every store also wrote ahead. The
        last store spills over the first seven bytes of saverax, which nothing else uses, and no further. */
    method HexToString(value: Word)
      requires Valid()
      modifies memory
      ensures memory[..16] == HexChars(Nibbles(value, 16))
      ensures forall i :: 0 <= i < 16 ==> memory[i] == "0123456789ABCDEF"[Nibbles(value, 16)[i]] as int
      ensures forall j :: 16 <= j < 23 ==> memory[j] == 0
      ensures memory[23] == old(memory[23])
    {
      ghost var digits := Nibbles(value, 16);
      var saved, rcx := value, 0;
      NotRotated(value);
      while rcx != 16
        invariant rcx <= 16 && Rotated(saved, digits, rcx) && Printed(memory[..], digits, rcx)
        invariant memory[23..] == old(memory[23..])
      {
        RotateOnce(saved, digits, rcx);
        var rax;
        saved, rax := NextDigit(saved, digits[rcx]);
        StoreDigit(memory, rcx, rax, digits);
        rcx := rcx + 1;
      }
      PrintedAll(memory[..], digits);
      forall i | 0 <= i < 16 ensures memory[i] == "0123456789ABCDEF"[digits[i]] as int {
        DigitTable(digits[i]);
        assert memory[i] == memory[..16][i];
      }
      assert memory[23] == memory[23..][0];
    }

    /** The buffer reads back as the value it was given. */
    method Reread(value: Word) returns (rax: Word)
      requires Valid()
      modifies memory
      ensures rax == value
    {
      HexToString(value);
      TextOfDigits(memory[..], Nibbles(value, 16));
      Pow16Word();
      NibblesValue(value, 16);
      rax := StringToHex(memory);
    }
  }
}
