/** The program that appends a sixteen bit checksum to a file and takes it off again, with the system calls it
    makes on the open file and the stack bytes it never initializes. */
module Checksum {
  import opened Arithmetic

  type Byte = x: int | 0 <= x < 0x100

  /** An open regular file. Failing calls return a negative result and change nothing. */
  class File {
    var contents: seq<Byte>
    var offset: nat

    /** lseek from the end. */
    method SeekEnd(delta: int) returns (rax: int)
      modifies this`offset
      ensures if |contents| + delta < 0 then rax < 0 && offset == old(offset)
              else rax == offset == |contents| + delta
    {
      if |contents| + delta < 0 {
        rax := -22;
      } else {
        offset := |contents| + delta;
        rax := offset;
      }
    }

    /** lseek from the beginning. */
    method SeekSet(position: nat)
      modifies this`offset
      ensures offset == position
    {
      offset := position;
    }

    /** ftruncate. */
    method Truncate(length: int)
      modifies this`contents
      ensures length < 0 ==> contents == old(contents)
      ensures length >= 0 ==> |contents| == length
      ensures forall i :: 0 <= i < length && i < |old(contents)| ==> contents[i] == old(contents[i])
      ensures forall i :: |old(contents)| <= i < length ==> contents[i] == 0
    {
      if length >= 0 {
        contents := seq(length, i requires 0 <= i reads this => if i < |contents| then contents[i] else 0);
      }
    }

    /** read of two bytes. */
    method Read() returns (bytes: seq<Byte>)
      modifies this`offset
      ensures |bytes| <= 2 && offset == old(offset) + |bytes|
      ensures old(offset) <= |contents| ==> offset <= |contents| && bytes == contents[old(offset)..offset]
      ensures |bytes| < 2 ==> offset >= |contents|
      ensures old(offset) >= |contents| ==> bytes == []
    {
      if offset >= |contents| { return []; }
      var end := if offset + 2 <= |contents| then offset + 2 else |contents|;
      bytes := contents[offset..end];
      offset := end;
    }

    /** write of two bytes at an offset inside the file or at its end. */
    method Write(bytes: seq<Byte>)
      requires |bytes| == 2 && offset <= |contents|
      modifies this
      ensures offset == old(offset) + 2
      ensures contents == old(contents[..offset]) + bytes +
                          if old(offset) + 2 < |old(contents)| then old(contents)[old(offset) + 2..] else []
    {
      contents := contents[..offset] + bytes + if offset + 2 < |contents| then contents[offset + 2..] else [];
      offset := offset + 2;
    }
  }

  /** The bytes the program finds where its variables live. */
  datatype Stack = Stack(checksum: seq<Byte>, buffer: seq<Byte>)

  ghost predicate Framed(stack: Stack) {
    |stack.checksum| == 2 && |stack.buffer| == 2
  }

  /** A little-endian word. */
  function Word16(bytes: seq<Byte>): nat
    requires |bytes| == 2
  {
    var high: nat := bytes[1];
    bytes[0] + high * 0x100
  }

  function Bytes16(x: nat): (bytes: seq<Byte>)
    requires x < 0x1_0000
    ensures |bytes| == 2 && Word16(bytes) == x
  {
    [x % 0x100, x / 0x100]
  }

  /** Reading into a buffer overwrites as many bytes as were read. */
  function Overwritten(buffer: seq<Byte>, bytes: seq<Byte>): (r: seq<Byte>)
    requires |bytes| <= |buffer|
    ensures |r| == |buffer|
  {
    bytes + buffer[|bytes|..]
  }

  // ---- What is summed ----

  /** The words of a payload. An odd last byte is completed by the byte the word before it left behind. */
  function Total(payload: seq<Byte>, stale: Byte): nat {
    if |payload| == 0 then 0
    else if |payload| == 1 then payload[0] + stale * 0x100
    else Word16(payload[..2]) + Total(payload[2..], payload[1])
  }

  function Sum(payload: seq<Byte>, stale: Byte): (r: nat)
    ensures r < 0x1_0000
  {
    Total(payload, stale) % 0x1_0000
  }

  lemma AddWrapped(acc: int, x: int, rest: int)
    ensures ((acc + x) % 0x1_0000 + rest) % 0x1_0000 == (acc + (x + rest)) % 0x1_0000
  {
  }

  /** DOCHECKSUM: from the beginning of the file to its end. */
  method DoChecksum(file: File, stack: Stack) returns (r12w: nat)
    requires Framed(stack) && file.offset == 0
    modifies file`offset
    ensures file.offset == |file.contents|
    ensures r12w == Sum(file.contents, stack.buffer[1])
  {
    r12w := 0;
    var buffer := stack.buffer;
    while true
      invariant |buffer| == 2 && file.offset <= |file.contents|
      invariant (r12w + Total(file.contents[file.offset..], buffer[1])) % 0x1_0000 == Sum(file.contents, stack.buffer[1])
      invariant r12w < 0x1_0000
      decreases |file.contents| - file.offset
    {
      ghost var rest := file.contents[file.offset..];
      ghost var stale := buffer[1];
      var bytes := file.Read();
      if |bytes| == 0 { break; }
      ghost var before := r12w;
      buffer := Overwritten(buffer, bytes);
      r12w := (r12w + Word16(buffer)) % 0x1_0000;
      AddWrapped(before, Word16(buffer), Total(file.contents[file.offset..], buffer[1]));
      assert file.contents[file.offset..] == rest[|bytes|..];
      if |bytes| == 2 {
        assert rest[..2] == buffer;
      }
    }
  }

  // ---- Encoding and decoding ----

  function Encoded(payload: seq<Byte>, stale: Byte): seq<Byte> {
    payload + Bytes16(Sum(payload, stale))
  }

  /** Whether decoding accepts, and the file it leaves. A file shorter than a checksum is not truncated, and its
      bytes end up both in the sum and in the checksum it is compared with. */
  function Decoded(contents: seq<Byte>, stack: Stack): (bool, seq<Byte>)
    requires Framed(stack)
  {
    if |contents| >= 2 then
      var payload := contents[..|contents| - 2];
      if Sum(payload, stack.buffer[1]) == Word16(contents[|contents| - 2..]) then (true, payload) else (false, contents)
    else if |contents| == 1 then
      if stack.buffer[1] == stack.checksum[1] then (true, contents)
      else (false, contents + [contents[0], stack.checksum[1]])
    else
      (Word16(stack.checksum) == 0, if Word16(stack.checksum) == 0 then [] else stack.checksum)
  }

  /** The -e option on a file just opened. */
  method Encode(file: File, stack: Stack)
    requires Framed(stack) && file.offset == 0
    modifies file
    ensures file.contents == Encoded(old(file.contents), stack.buffer[1])
    ensures var w := PlainSum(old(file.contents), stack.buffer[1]) % 0x1_0000;
            file.contents == old(file.contents) + [w % 0x100, w / 0x100]
  {
    AppendedWord(file.contents, stack.buffer[1]);
    var r12w := DoChecksum(file, stack);
    file.Write(Bytes16(r12w));
  }

  /** The -d option on a file just opened. */
  method Decode(file: File, stack: Stack) returns (good: bool)
    requires Framed(stack) && file.offset == 0
    modifies file
    ensures (good, file.contents) == Decoded(old(file.contents), stack)
  {
    ghost var before := file.contents;
    ghost var size := |before|;
    var filesize := file.SeekEnd(-2);
    var bytes := file.Read();
    var checksum := Overwritten(stack.checksum, bytes);
    file.SeekSet(0);
    file.Truncate(filesize);
    if size >= 2 {
      assert file.contents == before[..size - 2];
      assert checksum == before[size - 2..];
    } else {
      assert file.contents == before == bytes;
      assert size == 1 ==> checksum == [before[0], stack.checksum[1]];
      assert size == 0 ==> checksum == stack.checksum;
    }
    var r12w := DoChecksum(file, stack);
    good := r12w == Word16(checksum);
    if !good {
      file.Write(checksum);
      assert size >= 2 ==> file.contents == before;
      assert size < 2 ==> file.contents == before + checksum;
    }
  }

  /** The program reports a rejected file as unchanged. It is, exactly when it has two bytes or more; a
      shorter one gains itself once more and the rest of what was taken for its checksum. */
  lemma RejectedUnchanged(contents: seq<Byte>, stack: Stack)
    requires Framed(stack) && !Decoded(contents, stack).0
    ensures Decoded(contents, stack).1 == contents <==> |contents| >= 2
    ensures |contents| < 2 ==> Decoded(contents, stack).1 == contents + contents + stack.checksum[|contents|..]
  {
  }

  // ---- What a file sums to ----

  /** The sum of the bytes at the even places, or at the odd ones. */
  function Places(bytes: seq<Byte>, odd: bool): nat {
    if bytes == [] then 0 else (if odd then 0 else bytes[0]) + Places(bytes[1..], !odd)
  }

  lemma PlacesOfTwo(bytes: seq<Byte>)
    requires |bytes| >= 2
    ensures Places(bytes, false) == bytes[0] + Places(bytes[2..], false)
    ensures Places(bytes, true) == bytes[1] + Places(bytes[2..], true)
  {
    assert bytes[1..][1..] == bytes[2..];
  }

  /** The byte that completes an odd last one. */
  function Completing(payload: seq<Byte>, stale: Byte): Byte {
    if |payload| >= 2 then payload[|payload| - 2] else stale
  }

  /** The bytes at the even places, plus 256 times those at the odd places, plus, for an odd length, 256 times the byte
      before the last. */
  function PlainSum(payload: seq<Byte>, stale: Byte): nat {
    Places(payload, false) + Places(payload, true) * 0x100
    + if |payload| % 2 == 1 then Completing(payload, stale) as int * 0x100 else 0
  }

  lemma {:induction false} TotalOfPlaces(payload: seq<Byte>, stale: Byte)
    ensures Total(payload, stale) == PlainSum(payload, stale)
  {
    if |payload| == 1 {
      var nothing := payload[1..];
      assert nothing == [] && Places(nothing, true) == 0 && Places(nothing, false) == 0;
      assert Places(payload, false) == payload[0] && Places(payload, true) == 0;
    } else if |payload| >= 2 {
      var rest := payload[2..];
      PlacesOfTwo(payload);
      TotalOfPlaces(rest, payload[1]);
      assert |payload| % 2 == |rest| % 2;
      assert |rest| % 2 == 1 ==> Completing(payload, stale) == Completing(rest, payload[1]);
      assert Total(payload, stale) == payload[0] + payload[1] as int * 0x100 + Total(rest, payload[1]);
    }
  }

  /** What encoding appends: sixteen bits of that sum, the low byte first. */
  lemma AppendedWord(payload: seq<Byte>, stale: Byte)
    ensures var w := PlainSum(payload, stale) % 0x1_0000;
            Encoded(payload, stale) == payload + [w % 0x100, w / 0x100]
  {
    TotalOfPlaces(payload, stale);
  }

  /** A file is accepted exactly when it is what encoding made of it without its last two bytes, with the byte this run
      finds on its stack; one of a single byte, when its two runs of stack bytes agree; an empty one, when the stack
      bytes read as its checksum are zero. */
  lemma AcceptedExactly(contents: seq<Byte>, stack: Stack)
    requires Framed(stack)
    ensures Decoded(contents, stack).0 <==>
            if |contents| >= 2 then contents == Encoded(contents[..|contents| - 2], stack.buffer[1])
            else if |contents| == 1 then stack.checksum[1] == stack.buffer[1]
            else stack.checksum == [0, 0]
    ensures Decoded(contents, stack).0 ==>
              Decoded(contents, stack).1 == if |contents| >= 2 then contents[..|contents| - 2] else contents
  {
    if |contents| >= 2 {
      var payload, last := contents[..|contents| - 2], contents[|contents| - 2..];
      assert contents == payload + last;
      SameWord(last, Bytes16(Sum(payload, stack.buffer[1])));
    } else if |contents| == 0 {
      SameWord(stack.checksum, [0, 0]);
    }
  }

  lemma SameWord(a: seq<Byte>, b: seq<Byte>)
    requires |a| == |b| == 2
    ensures Word16(a) == Word16(b) <==> a == b
  {
  }

  // ---- The stale byte ----

  /** Only a payload of one byte takes its other half from the stack. */
  lemma StaleUnused(payload: seq<Byte>, s: Byte, t: Byte)
    ensures Total(payload, s) - Total(payload, t) == if |payload| == 1 then (s - t) * 0x100 else 0
  {
  }

  /** Decoding what was encoded, in another run on another stack: accepted and restored for every payload, except
      that for a single byte it takes equal stale bytes in the two runs. */
  lemma RoundTrip(payload: seq<Byte>, stale: Byte, stack: Stack)
    requires Framed(stack)
    ensures Decoded(Encoded(payload, stale), stack)
         == if |payload| == 1 && stale != stack.buffer[1] then (false, Encoded(payload, stale)) else (true, payload)
  {
    StaleUnused(payload, stale, stack.buffer[1]);
    var contents := Encoded(payload, stale);
    assert contents[..|contents| - 2] == payload;
    assert contents[|contents| - 2..] == Bytes16(Sum(payload, stale));
  }

  // ---- Altered files ----

  /** The payload with its i-th aligned word replaced. */
  function WithWord(payload: seq<Byte>, i: nat, low: Byte, high: Byte): (r: seq<Byte>)
    requires 2 * i + 1 < |payload|
    ensures |r| == |payload|
  {
    payload[2 * i := low][2 * i + 1 := high]
  }

  /** How often the high byte of a word is summed: twice when it is left over for an odd last byte. */
  function Uses(payload: seq<Byte>, i: nat): int {
    if |payload| == 2 * i + 3 then 2 else 1
  }

  lemma {:induction false} AlteredTotal(payload: seq<Byte>, i: nat, low: Byte, high: Byte, stale: Byte)
    requires 2 * i + 1 < |payload|
    ensures Total(WithWord(payload, i, low, high), stale)
         == Total(payload, stale) + (low - payload[2 * i]) + (high - payload[2 * i + 1]) * Uses(payload, i) * 0x100
  {
    var altered := WithWord(payload, i, low, high);
    if i == 0 {
      assert altered[2..] == payload[2..];
      StaleUnused(payload[2..], high, payload[1]);
    } else {
      assert altered[2..] == WithWord(payload[2..], i - 1, low, high);
      assert altered[..2] == payload[..2];
      AlteredTotal(payload[2..], i - 1, low, high, payload[1]);
    }
  }

  /** Two totals leave the same checksum when they differ by a multiple of the modulus. */
  lemma SameSum(a: int, b: int)
    ensures a % 0x1_0000 == b % 0x1_0000 <==> (a - b) % 0x1_0000 == 0
  {
  }

  /** The change a replaced word makes is a multiple of the modulus only for two equal low bytes, and then only if
      the high byte is used twice and moves by half its range. */
  lemma ChangeVanishes(low: int, high: int, uses: int)
    requires -0x100 < low < 0x100 && -0x100 < high < 0x100 && (low != 0 || high != 0)
    requires uses == 1 || uses == 2
    ensures (low + high * uses * 0x100) % 0x1_0000 == 0 <==> low == 0 && uses == 2 && (high == 128 || high == -128)
  {
    if uses == 1 {
      assert high * uses * 0x100 == high * 0x100;
    } else {
      assert high * uses * 0x100 == high * 0x200;
    }
  }

  /** The undetected alterations of one word: those of the high byte, by half its range, of the word before an odd
      last byte. */
  predicate Undetected(payload: seq<Byte>, i: nat, low: Byte, high: Byte)
    requires 2 * i + 1 < |payload|
  {
    && |payload| == 2 * i + 3
    && low == payload[2 * i]
    && (high - payload[2 * i + 1] == 128 || high - payload[2 * i + 1] == -128)
  }

  /** Altering one aligned word of an encoded payload is noticed, and the file left as it is, unless the alteration
      is one of those; after one of those the altered payload is accepted. */
  lemma AlteredWord(payload: seq<Byte>, i: nat, low: Byte, high: Byte, stale: Byte, stack: Stack)
    requires Framed(stack) && 2 * i + 1 < |payload|
    requires low != payload[2 * i] || high != payload[2 * i + 1]
    ensures var altered := WithWord(Encoded(payload, stale), i, low, high);
            Decoded(altered, stack) == if Undetected(payload, i, low, high)
                                       then (true, WithWord(payload, i, low, high)) else (false, altered)
  {
    var q := WithWord(payload, i, low, high);
    var altered := WithWord(Encoded(payload, stale), i, low, high);
    assert altered[..|altered| - 2] == q;
    assert altered[|altered| - 2..] == Bytes16(Sum(payload, stale));
    StaleUnused(payload, stale, stack.buffer[1]);
    AlteredTotal(payload, i, low, high, stack.buffer[1]);
    SameSum(Total(q, stack.buffer[1]), Total(payload, stale));
    ChangeVanishes(low - payload[2 * i], high - payload[2 * i + 1], Uses(payload, i));
  }

  /** A payload of even length has no undetected alteration of a word. */
  lemma EvenPayload(payload: seq<Byte>, i: nat, low: Byte, high: Byte, stale: Byte, stack: Stack)
    requires Framed(stack) && |payload| % 2 == 0 && 2 * i + 1 < |payload|
    requires low != payload[2 * i] || high != payload[2 * i + 1]
    ensures var altered := WithWord(Encoded(payload, stale), i, low, high);
            Decoded(altered, stack) == (false, altered)
  {
    AlteredWord(payload, i, low, high, stale, stack);
  }

  lemma {:induction false} AlteredTailTotal(payload: seq<Byte>, last: Byte, stale: Byte)
    requires |payload| % 2 == 1
    ensures Total(payload[|payload| - 1 := last], stale) == Total(payload, stale) + (last - payload[|payload| - 1])
  {
    var altered := payload[|payload| - 1 := last];
    if |payload| > 1 {
      assert altered[2..] == payload[2..][|payload| - 3 := last];
      assert altered[..2] == payload[..2];
      AlteredTailTotal(payload[2..], last, payload[1]);
    }
  }

  /** Altering an odd last byte is always noticed, even when the stale bytes of the two runs differ. */
  lemma AlteredTail(payload: seq<Byte>, last: Byte, stale: Byte, stack: Stack)
    requires Framed(stack) && |payload| % 2 == 1 && last != payload[|payload| - 1]
    ensures var altered := Encoded(payload, stale)[|payload| - 1 := last];
            Decoded(altered, stack) == (false, altered)
  {
    var q := payload[|payload| - 1 := last];
    var altered := Encoded(payload, stale)[|payload| - 1 := last];
    assert altered[..|altered| - 2] == q;
    assert altered[|altered| - 2..] == Bytes16(Sum(payload, stale));
    StaleUnused(payload, stale, stack.buffer[1]);
    AlteredTailTotal(payload, last, stack.buffer[1]);
    var d := if |payload| == 1 then stack.buffer[1] - stale else 0;
    SameSum(Total(q, stack.buffer[1]), Total(payload, stale));
    LowByteShows(last - payload[|payload| - 1], d);
  }

  lemma LowByteShows(low: int, high: int)
    requires -0x100 < low < 0x100 && low != 0
    ensures (low + high * 0x100) % 0x1_0000 != 0
  {
    DivModSplit(low + high * 0x100, 0x1_0000);
  }
}
