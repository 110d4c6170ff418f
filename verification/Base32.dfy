/**
 * Base32 without padding (`src/trv11/totp.ts`; section 6 of RFC 4648). The accumulator is the
 * 32-bit word that JavaScript's shifts work on: it wraps, and only its low bits matter.
 */
module Base32 {
  import opened Basics

  type Byte = x: int | 0 <= x < 256
  type Digit = x: int | 0 <= x < 32

  const WORD: int := 0x1_0000_0000
  const ALPHABET: string := "ABCDEFGHIJKLMNOPQRSTUVWXYZ234567"

  /** `x << n` before it wraps. */
  function Shl(x: int, n: nat): int {
    if n == 0 then x else 2 * Shl(x, n - 1)
  }

  /** `x >>> n`. */
  function Shr(x: int, n: nat): int
    decreases n
  {
    if n == 0 then x else Shr(x / 2, n - 1)
  }

  /** The number a big-endian digit string denotes. */
  function Value(s: seq<int>, radix: nat): int {
    if s == [] then 0 else Value(s[..|s| - 1], radix) * radix + s[|s| - 1]
  }

  lemma ValueAppend(s: seq<int>, d: int, radix: nat)
    ensures Value(s + [d], radix) == Value(s, radix) * radix + d
  {
    assert (s + [d])[..|s|] == s;
  }

  /** Equally long digit strings of one value are equal. */
  lemma {:induction false} ValueInjective(a: seq<int>, b: seq<int>, radix: nat)
    requires radix > 0 && |a| == |b| && Value(a, radix) == Value(b, radix)
    requires (forall i | 0 <= i < |a| :: 0 <= a[i] < radix) && (forall i | 0 <= i < |b| :: 0 <= b[i] < radix)
    ensures a == b
  {
    if a != [] {
      var n := |a| - 1;
      DivideOut(Value(a[..n], radix), a[n], Value(b[..n], radix), b[n], radix);
      ValueInjective(a[..n], b[..n], radix);
      assert a == a[..n] + [a[n]] && b == b[..n] + [b[n]];
    }
  }

  lemma AtLeast(k: int, d: int)
    requires k >= 1 && d > 0
    ensures k * d >= d
  {
    assert k * d == (k - 1) * d + d;
  }

  lemma Distribute(x: int, y: int, b: int)
    ensures (x + y) * b == x * b + y * b
  {
  }

  /** Quotient and remainder are unique. */
  lemma DivideOut(q: int, r: int, q': int, r': int, d: int)
    requires d > 0 && 0 <= r < d && 0 <= r' < d && q * d + r == q' * d + r'
    ensures q == q' && r == r'
  {
    Distribute(q', -q, d);
    Distribute(q, -q', d);
    if q < q' {
      AtLeast(q' - q, d);
    } else if q' < q {
      AtLeast(q - q', d);
    }
  }

  /* ---- shifts ---- */

  lemma {:induction false} ShlAdd(x: int, m: nat, n: nat)
    ensures Shl(Shl(x, m), n) == Shl(x, m + n)
  {
    if n > 0 {
      ShlAdd(x, m, n - 1);
    }
  }

  lemma ShlConstants(x: int)
    ensures Shl(x, 5) == 32 * x && Shl(x, 8) == 256 * x && Shl(x, 32) == WORD * x
  {
    ShlByte(x);
    ShlByte(256 * x);
    ShlAdd(x, 8, 8);
    ShlByte(0x10000 * x);
    ShlAdd(x, 16, 8);
    ShlByte(0x1000000 * x);
    ShlAdd(x, 24, 8);
  }

  lemma ShlByte(x: int)
    ensures Shl(x, 5) == 32 * x && Shl(x, 8) == 256 * x
  {
    assert Shl(x, 1) == 2 * x;
    assert Shl(x, 2) == 4 * x;
    assert Shl(x, 3) == 8 * x;
    assert Shl(x, 4) == 16 * x;
    assert Shl(x, 5) == 32 * x;
    assert Shl(x, 6) == 64 * x;
    assert Shl(x, 7) == 128 * x;
  }

  lemma {:induction false} ShrUndoesShl(x: int, n: nat)
    ensures Shr(Shl(x, n), n) == x
  {
    if n > 0 {
      ShrUndoesShl(x, n - 1);
    }
  }

  /* ---- the accumulator ---- */

  /** The number `written`, followed by the low `bits` bits of `buffer`. */
  function Followed(written: int, buffer: int, bits: nat): int
    decreases bits
  {
    if bits == 0 then written else 2 * Followed(written, buffer / 2, bits - 1) + buffer % 2
  }

  /** Anything above the low bits is stale. */
  lemma {:induction false} StaleBits(written: int, buffer: int, k: int, m: nat, bits: nat)
    requires bits <= m
    ensures Followed(written, buffer + Shl(k, m), bits) == Followed(written, buffer, bits)
    decreases bits
  {
    if bits > 0 {
      assert (buffer + Shl(k, m)) / 2 == buffer / 2 + Shl(k, m - 1);
      StaleBits(written, buffer / 2, k, m - 1, bits - 1);
    }
  }

  /** So wrapping to 32 bits loses nothing. */
  lemma Wrapped(written: int, buffer: int, bits: nat)
    requires bits <= 32
    ensures Followed(written, buffer % WORD, bits) == Followed(written, buffer, bits)
  {
    ShlConstants(buffer / WORD);
    StaleBits(written, buffer % WORD, buffer / WORD, 32, bits);
  }

  lemma {:induction false} AbsorbBits(written: int, buffer: int, bits: nat, width: nat, x: int)
    requires 0 <= x < Shl(1, width)
    ensures Followed(written, Shl(buffer, width) + x, bits + width) == Shl(Followed(written, buffer, bits), width) + x
    decreases width
  {
    if width > 0 {
      assert (Shl(buffer, width) + x) / 2 == Shl(buffer, width - 1) + x / 2;
      AbsorbBits(written, buffer, bits, width - 1, x / 2);
    }
  }

  /** Shifting a digit in appends it to what is waiting, wrap or no wrap. */
  lemma Absorb(written: int, buffer: int, bits: nat, width: nat, x: int)
    requires 0 <= x < Shl(1, width) && bits + width <= 32
    ensures Followed(written, (Shl(buffer, width) + x) % WORD, bits + width)
         == Shl(Followed(written, buffer, bits), width) + x
  {
    AbsorbBits(written, buffer, bits, width, x);
    Wrapped(written, Shl(buffer, width) + x, bits + width);
  }

  lemma {:induction false} EmitBits(written: int, buffer: int, bits: nat, width: nat)
    requires width <= bits
    ensures Followed(written, buffer, bits)
         == Followed(Followed(written, Shr(buffer, bits - width), width), buffer, bits - width)
    decreases bits
  {
    if width < bits {
      EmitBits(written, buffer / 2, bits - 1, width);
    }
  }

  lemma HalveMod(x: int, m: int)
    requires m > 0
    ensures x % (2 * m) == 2 * ((x / 2) % m) + x % 2
  {
    var half, bit := x / 2, x % 2;
    var h, r := half / m, half % m;
    assert half == h * m + r;
    assert x == h * (2 * m) + (2 * r + bit);
    assert x == (x / (2 * m)) * (2 * m) + x % (2 * m);
    DivideOut(x / (2 * m), x % (2 * m), h, 2 * r + bit, 2 * m);
  }

  lemma {:induction false} LowBits(written: int, buffer: int, n: nat)
    ensures Shl(1, n) > 0 && Followed(written, buffer, n) == Shl(written, n) + buffer % Shl(1, n)
    decreases n
  {
    if n > 0 {
      LowBits(written, buffer / 2, n - 1);
      HalveMod(buffer, Shl(1, n - 1));
    }
  }

  lemma {:induction false} ShlIsTimes(x: int, n: nat)
    ensures Shl(x, n) == x * Shl(1, n)
  {
    if n > 0 {
      ShlIsTimes(x, n - 1);
    }
  }

  /** Taking the top `width` of the waiting bits out as a digit. */
  lemma Emit(written: int, buffer: int, bits: nat, width: nat, radix: int)
    requires width <= bits && radix == Shl(1, width)
    ensures radix > 0
    ensures Followed(written * radix + Shr(buffer, bits - width) % radix, buffer, bits - width) == Followed(written, buffer, bits)
  {
    EmitBits(written, buffer, bits, width);
    LowBits(written, Shr(buffer, bits - width), width);
    ShlIsTimes(written, width);
  }

  /** What is written is what was read, less the bits still waiting. */
  lemma {:induction false} DropWaiting(written: int, buffer: int, bits: nat)
    ensures Shr(Followed(written, buffer, bits), bits) == written
    decreases bits
  {
    if bits > 0 {
      DropWaiting(written, buffer / 2, bits - 1);
    }
  }

  /** The last digit: the waiting bits, padded with zeros on the right. */
  lemma EmitLast(written: int, buffer: int, bits: nat)
    requires 0 < bits < 5
    ensures written * 32 + (Shl(buffer, 5 - bits) % WORD) % 32 == Shl(Followed(written, buffer, bits), 5 - bits)
  {
    var shifted := Shl(buffer, 5 - bits);
    OneShifted(5 - bits);
    Absorb(written, buffer, bits, 5 - bits, 0);
    assert Followed(written, shifted % WORD, 5) == Shl(Followed(written, buffer, bits), 5 - bits);
    LowBits(written, shifted % WORD, 5);
    ShlByte(1);
    ShlByte(written);
  }

  lemma {:induction false} OneShifted(n: nat)
    ensures Shl(1, n) >= 1
  {
    if n > 0 {
      OneShifted(n - 1);
    }
  }

  /* ---- digits and characters ---- */

  function IndexOf(s: string, c: char): (i: int)
    ensures -1 <= i < |s|
    ensures i >= 0 ==> s[i] == c
    ensures i < 0 ==> c !in s
  {
    if s == [] then -1
    else if s[0] == c then 0
    else
      var rest := IndexOf(s[1..], c);
      if rest < 0 then -1 else rest + 1
  }

  /** ASCII upper case. */
  function Upper(c: char): char {
    if 'a' <= c <= 'z' then (c as int - 32) as char else c
  }

  /** The character of a digit: `BASE32_ALPHABET[d]`. */
  function Letter(d: Digit): char {
    if d < 26 then ('A' as int + d) as char else ('2' as int + d - 26) as char
  }

  /** The digit of a character, or -1: `BASE32_ALPHABET.indexOf(c)`. */
  function LetterIndex(c: char): (d: int)
    ensures -1 <= d < 32
    ensures d >= 0 ==> Letter(d) == c
    ensures d == -1 ==> forall e: Digit :: Letter(e) != c
  {
    if 'A' <= c <= 'Z' then c as int - 'A' as int
    else if '2' <= c <= '7' then c as int - '2' as int + 26
    else -1
  }

  lemma AlphabetLetters(d: Digit)
    ensures |ALPHABET| == 32 && ALPHABET[d] == Letter(d)
  {
  }

  lemma AlphabetIndexes(c: char)
    ensures IndexOf(ALPHABET, c) == LetterIndex(c)
  {
    var i, d := IndexOf(ALPHABET, c), LetterIndex(c);
    if i >= 0 {
      AlphabetLetters(i);
    }
    if d >= 0 {
      AlphabetLetters(d);
      assert ALPHABET[d] == c;
    }
  }

  lemma LettersRead(d: Digit)
    ensures LetterIndex(Upper(Letter(d))) == d && Letter(d) != '='
  {
  }

  function Digits(s: seq<Digit>): (r: string)
    ensures |r| == |s| && forall i | 0 <= i < |s| :: r[i] == Letter(s[i])
  {
    seq(|s|, i requires 0 <= i < |s| => Letter(s[i]))
  }

  /* ---- encode ---- */

  /** The digits of a byte string: the same number, shifted left by fewer than five bits. */
  ghost predicate EncodesTo(bytes: seq<Byte>, digits: seq<Digit>) {
    && 0 <= 5 * |digits| - 8 * |bytes| < 5
    && Value(digits, 32) == Shl(Value(bytes, 256), 5 * |digits| - 8 * |bytes|)
  }

  /** The digits written and the waiting bits spell the bytes read. */
  ghost predicate Encoding(read: seq<Byte>, encoded: string, digits: seq<Digit>, buffer: int, bits: nat) {
    && encoded == Digits(digits) && 8 * |read| == 5 * |digits| + bits
    && Value(read, 256) == Followed(Value(digits, 32), buffer, bits)
  }

  /** `encodeBase32`, with the inner loop that drains five bits at a time. */
  method Encode(bytes: seq<Byte>) returns (encoded: string, ghost digits: seq<Digit>)
    ensures encoded == Digits(digits) && EncodesTo(bytes, digits)
    ensures |encoded| == (8 * |bytes| + 4) / 5
  {
    encoded, digits := "", [];
    var buffer, bits := 0, 0;
    for i := 0 to |bytes|
      invariant 0 <= bits < 5 && Encoding(bytes[..i], encoded, digits, buffer, bits)
    {
      ReadByte(bytes, i, encoded, digits, buffer, bits);
      buffer := (Shl(buffer, 8) + bytes[i]) % WORD;
      bits := bits + 8;
      while bits >= 5
        invariant 0 <= bits && Encoding(bytes[..i + 1], encoded, digits, buffer, bits)
      {
        var d := Shr(buffer, bits - 5) % 32;
        WriteDigit(bytes[..i + 1], encoded, digits, buffer, bits, d);
        encoded := encoded + [Letter(d)];
        digits := digits + [d];
        bits := bits - 5;
      }
    }
    assert bytes[..|bytes|] == bytes;
    if bits == 0 {
      NothingWaits(bytes, encoded, digits, buffer);
    } else {
      var d := (Shl(buffer, 5 - bits) % WORD) % 32;
      WriteLastDigit(bytes, encoded, digits, buffer, bits, d);
      encoded := encoded + [Letter(d)];
      digits := digits + [d];
    }
  }

  lemma ReadByte(bytes: seq<Byte>, i: nat, encoded: string, digits: seq<Digit>, buffer: int, bits: nat)
    requires i < |bytes| && bits <= 24 && Encoding(bytes[..i], encoded, digits, buffer, bits)
    ensures Encoding(bytes[..i + 1], encoded, digits, (Shl(buffer, 8) + bytes[i]) % WORD, bits + 8)
  {
    var written := Value(digits, 32);
    ShlByte(1);
    Absorb(written, buffer, bits, 8, bytes[i]);
    ShlByte(Followed(written, buffer, bits));
    assert bytes[..i + 1] == bytes[..i] + [bytes[i]];
    ValueAppend(bytes[..i], bytes[i], 256);
  }

  lemma DigitsAppend(digits: seq<Digit>, d: Digit)
    ensures Digits(digits + [d]) == Digits(digits) + [Letter(d)]
  {
  }

  lemma WriteDigit(read: seq<Byte>, encoded: string, digits: seq<Digit>, buffer: int, bits: nat, d: Digit)
    requires bits >= 5 && d == Shr(buffer, bits - 5) % 32 && Encoding(read, encoded, digits, buffer, bits)
    ensures Encoding(read, encoded + [Letter(d)], digits + [d], buffer, bits - 5)
  {
    ShlByte(1);
    Emit(Value(digits, 32), buffer, bits, 5, 32);
    ValueAppend(digits, d, 32);
    DigitsAppend(digits, d);
  }

  lemma NothingWaits(bytes: seq<Byte>, encoded: string, digits: seq<Digit>, buffer: int)
    requires Encoding(bytes, encoded, digits, buffer, 0)
    ensures EncodesTo(bytes, digits) && encoded == Digits(digits) && |encoded| == (8 * |bytes| + 4) / 5
  {
  }

  lemma WriteLastDigit(bytes: seq<Byte>, encoded: string, digits: seq<Digit>, buffer: int, bits: nat, d: Digit)
    requires 0 < bits < 5 && d == (Shl(buffer, 5 - bits) % WORD) % 32 && Encoding(bytes, encoded, digits, buffer, bits)
    ensures EncodesTo(bytes, digits + [d])
    ensures encoded + [Letter(d)] == Digits(digits + [d]) && |encoded| + 1 == (8 * |bytes| + 4) / 5
  {
    EmitLast(Value(digits, 32), buffer, bits);
    ValueAppend(digits, d, 32);
    DigitsAppend(digits, d);
  }

  /* ---- decode ---- */

  /** `replace(/=+$/, "")`. */
  function StripPadding(s: string): (r: string) {
    if s != [] && s[|s| - 1] == '=' then StripPadding(s[..|s| - 1]) else s
  }

  /** The bytes of a digit string: the same number, shifted right past the incomplete octet. */
  ghost predicate DecodesTo(digits: seq<Digit>, bytes: seq<Byte>) {
    && 0 <= 5 * |digits| - 8 * |bytes| < 8
    && Value(bytes, 256) == Shr(Value(digits, 32), 5 * |digits| - 8 * |bytes|)
  }

  /** The digits a text spells after padding and case are taken out, if all are in the alphabet. */
  function ReadDigits(s: string): (r: Option<seq<Digit>>)
    ensures r.Some? ==> |r.value| == |s|
  {
    if s == [] then Some([])
    else
      var d := LetterIndex(Upper(s[|s| - 1]));
      var rest := ReadDigits(s[..|s| - 1]);
      if d < 0 || rest.None? then None else Some(rest.value + [d])
  }

  /** `decodeBase32`: refuses a character outside the alphabet, drops an incomplete octet. */
  method Decode(encoded: string) returns (result: Option<seq<Byte>>)
    ensures result.Some? <==> ReadDigits(StripPadding(encoded)).Some?
    ensures result.Some? ==> DecodesTo(ReadDigits(StripPadding(encoded)).value, result.value)
  {
    var text := StripPadding(encoded);
    var bytes: seq<Byte> := [];
    var buffer, bits := 0, 0;
    ghost var digits: seq<Digit> := [];
    for j := 0 to |text|
      invariant ReadDigits(text[..j]) == Some(digits)
      invariant 0 <= bits < 8 && 5 * j == 8 * |bytes| + bits
      invariant Decoding(digits, bytes, buffer, bits)
    {
      var d := LetterIndex(Upper(text[j]));
      ReadStep(text, j);
      if d == -1 {
        NoDigits(text, j + 1);
        return None;
      }
      TakeDigit(digits, d, bytes, buffer, bits);
      buffer := (Shl(buffer, 5) + d) % WORD;
      digits := digits + [d];
      bits := bits + 5;
      if bits >= 8 {
        var x := Shr(buffer, bits - 8) % 256;
        bytes := bytes + [x];
        bits := bits - 8;
      }
    }
    assert text[..|text|] == text;
    DropWaiting(Value(bytes, 256), buffer, bits);
    result := Some(bytes);
  }

  /** The digits read are the bytes written, followed by the waiting bits. */
  predicate Decoding(digits: seq<Digit>, bytes: seq<Byte>, buffer: int, bits: nat) {
    Value(digits, 32) == Followed(Value(bytes, 256), buffer, bits)
  }

  lemma TakeDigit(digits: seq<Digit>, d: Digit, bytes: seq<Byte>, buffer: int, bits: nat)
    requires bits < 8 && Decoding(digits, bytes, buffer, bits)
    ensures var shifted := (Shl(buffer, 5) + d) % WORD;
      if bits + 5 < 8 then Decoding(digits + [d], bytes, shifted, bits + 5)
      else Decoding(digits + [d], bytes + [Shr(shifted, bits - 3) % 256], shifted, bits - 3)
  {
    var shifted := (Shl(buffer, 5) + d) % WORD;
    ReadDigit(digits, d, Value(bytes, 256), buffer, bits);
    if bits + 5 >= 8 {
      WriteByte(bytes, shifted, bits + 5, Shr(shifted, bits - 3) % 256);
    }
  }

  lemma ReadDigit(digits: seq<Digit>, d: Digit, written: int, buffer: int, bits: nat)
    requires bits <= 27 && Value(digits, 32) == Followed(written, buffer, bits)
    ensures Value(digits + [d], 32) == Followed(written, (Shl(buffer, 5) + d) % WORD, bits + 5)
  {
    ShlByte(1);
    Absorb(written, buffer, bits, 5, d);
    ShlByte(Followed(written, buffer, bits));
    ValueAppend(digits, d, 32);
  }

  lemma WriteByte(bytes: seq<Byte>, buffer: int, bits: nat, x: Byte)
    requires bits >= 8 && x == Shr(buffer, bits - 8) % 256
    ensures Followed(Value(bytes + [x], 256), buffer, bits - 8) == Followed(Value(bytes, 256), buffer, bits)
  {
    ShlByte(1);
    Emit(Value(bytes, 256), buffer, bits, 8, 256);
    ValueAppend(bytes, x, 256);
  }

  lemma ReadStep(text: string, j: nat)
    requires j < |text| && ReadDigits(text[..j]).Some?
    ensures var d := LetterIndex(Upper(text[j]));
            ReadDigits(text[..j + 1]) == if d < 0 then None else Some(ReadDigits(text[..j]).value + [d])
  {
    assert text[..j + 1][..j] == text[..j];
  }

  lemma {:induction false} NoDigits(s: string, n: nat)
    requires n <= |s| && ReadDigits(s[..n]).None?
    ensures ReadDigits(s).None?
    decreases |s| - n
  {
    if n < |s| {
      assert s[..n + 1][..n] == s[..n];
      NoDigits(s, n + 1);
    } else {
      assert s[..n] == s;
    }
  }

  /* ---- the round trip ---- */

  /** A text that differs from `other` at most in the case of its letters. */
  ghost predicate SameLetters(text: string, other: string) {
    |text| == |other| && forall i | 0 <= i < |text| :: Upper(text[i]) == Upper(other[i])
  }

  function Padding(n: nat): string {
    if n == 0 then "" else Padding(n - 1) + "="
  }

  lemma {:induction false} ReadBack(text: string, digits: seq<Digit>)
    requires SameLetters(text, Digits(digits))
    ensures ReadDigits(text) == Some(digits)
  {
    if digits != [] {
      var n := |digits| - 1;
      assert Digits(digits)[..n] == Digits(digits[..n]);
      ReadBack(text[..n], digits[..n]);
      LettersRead(digits[n]);
      assert Upper(text[n]) == Upper(Letter(digits[n]));
      assert digits == digits[..n] + [digits[n]];
    }
  }

  lemma {:induction false} PaddingStripped(text: string, n: nat)
    requires text == [] || text[|text| - 1] != '='
    ensures StripPadding(text + Padding(n)) == text
  {
    if n == 0 {
      assert text + "" == text;
    } else {
      assert (text + Padding(n))[..|text + Padding(n)| - 1] == text + Padding(n - 1);
      PaddingStripped(text, n - 1);
    }
  }

  /** Padding of any length and the case of the letters do not change what a text spells. */
  lemma CaseAndPaddingIgnored(text: string, digits: seq<Digit>, n: nat)
    requires SameLetters(text, Digits(digits))
    ensures ReadDigits(StripPadding(text + Padding(n))) == Some(digits)
  {
    if digits != [] {
      var last := |digits| - 1;
      LettersRead(digits[last]);
      assert Upper(text[last]) == Upper(Letter(digits[last]));
    }
    PaddingStripped(text, n);
    ReadBack(text, digits);
  }

  /** The number a byte string denotes determines it, so decoding undoes encoding. */
  lemma DecodingUndoesEncoding(bytes: seq<Byte>, digits: seq<Digit>, decoded: seq<Byte>)
    requires EncodesTo(bytes, digits) && DecodesTo(digits, decoded)
    ensures decoded == bytes
  {
    var pad := 5 * |digits| - 8 * |bytes|;
    assert |decoded| == |bytes|;
    ShrUndoesShl(Value(bytes, 256), pad);
    ValueInjective(decoded, bytes, 256);
  }

  /** For every byte sequence, decoding its encoding returns the same bytes. */
  method RoundTrip(bytes: seq<Byte>) returns (decoded: Option<seq<Byte>>)
    ensures decoded == Some(bytes)
  {
    var encoded, digits := Encode(bytes);
    CaseAndPaddingIgnored(encoded, digits, 0);
    assert encoded + Padding(0) == encoded;
    decoded := Decode(encoded);
    DecodingUndoesEncoding(bytes, digits, decoded.value);
  }
}
