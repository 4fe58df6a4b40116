/** Byte-level forms inside a Git tree object: UTF-8 names, hexadecimal ids, decimal lengths. */
module GitBytes {
  import opened Text

  type byte = x: int | 0 <= x < 256

  // ---------------------------------------------------------------- UTF-8

  function EncodeChar(c: char): (r: seq<byte>)
    ensures 1 <= |r| <= 4
    ensures c != '\0' ==> 0 !in r
  {
    var n := c as int;
    if n < 0x80 then [n]
    else if n < 0x800 then [0xC0 + n / 64, 0x80 + n % 64]
    else if n < 0x1_0000 then [0xE0 + n / 4096, 0x80 + n / 64 % 64, 0x80 + n % 64]
    else [0xF0 + n / 262144, 0x80 + n / 4096 % 64, 0x80 + n / 64 % 64, 0x80 + n % 64]
  }

  /** A byte without its marker bits. */
  function Bits(b: byte, size: nat): int
    requires size > 0
  {
    b % size
  }

  lemma Sixtyfours(n: nat)
    ensures n == n / 64 * 64 + n % 64
    ensures n / 64 == n / 4096 * 64 + n / 64 % 64
    ensures n / 4096 == n / 262144 * 64 + n / 4096 % 64
  {
    assert n / 4096 == n / 64 / 64 && n / 262144 == n / 4096 / 64;
  }

  lemma LastBits(k: nat)
    requires k < 64
    ensures Bits(0x80 + k, 64) == k
  {
  }

  /** The leading byte tells the length, the others begin with the bits 10, and what is left of the bits is the code
      point: the form of section 3 of RFC 3629. */
  lemma EncodeCharDecodes(c: char)
    ensures var r, n := EncodeChar(c), c as int;
            && (|r| == 1 ==> r[0] < 0x80 && n == r[0])
            && (|r| == 2 ==> 0xC0 <= r[0] < 0xE0 && n >= 0x80 && n == Bits(r[0], 32) * 64 + Bits(r[1], 64))
            && (|r| == 3 ==>
                  && 0xE0 <= r[0] < 0xF0 && n >= 0x800
                  && n == (Bits(r[0], 16) * 64 + Bits(r[1], 64)) * 64 + Bits(r[2], 64))
            && (|r| == 4 ==>
                  && 0xF0 <= r[0] < 0xF8 && n >= 0x1_0000
                  && n == ((Bits(r[0], 8) * 64 + Bits(r[1], 64)) * 64 + Bits(r[2], 64)) * 64 + Bits(r[3], 64))
            && forall i | 1 <= i < |r| :: 0x80 <= r[i] < 0xC0
  {
    var n := c as int;
    Sixtyfours(n);
    LastBits(n % 64);
    LastBits(n / 64 % 64);
    LastBits(n / 4096 % 64);
    assert n < 0x800 ==> Bits(0xC0 + n / 64, 32) == n / 64;
    assert n < 0x1_0000 ==> Bits(0xE0 + n / 4096, 16) == n / 4096;
    assert Bits(0xF0 + n / 262144, 8) == n / 262144;
  }

  /** Encode a text character by character. */
  function Encode(encode: char -> seq<byte>, text: string): seq<byte> {
    if text == "" then [] else encode(text[0]) + Encode(encode, text[1..])
  }

  lemma {:induction false} EncodeConcat(encode: char -> seq<byte>, a: string, b: string)
    ensures Encode(encode, a + b) == Encode(encode, a) + Encode(encode, b)
  {
    if a == "" {
      assert a + b == b;
    } else {
      EncodeConcat(encode, a[1..], b);
      assert (a + b)[0] == a[0] && (a + b)[1..] == a[1..] + b;
      var x, y, z := encode(a[0]), Encode(encode, a[1..]), Encode(encode, b);
      assert x + (y + z) == x + y + z;
    }
  }

  lemma {:induction false} EncodeAvoids(encode: char -> seq<byte>, text: string, b: byte)
    requires forall i | 0 <= i < |text| :: b !in encode(text[i])
    ensures b !in Encode(encode, text)
  {
    if text != "" {
      EncodeAvoids(encode, text[1..], b);
    }
  }

  /** `text.encode('utf-8')`. */
  function Utf8(text: string): seq<byte> {
    Encode(EncodeChar, text)
  }

  lemma Digits64(n: nat, m: nat)
    requires n / 64 == m / 64 && n % 64 == m % 64
    ensures n == m
  {
  }

  lemma EncodedLength(c: char, rest: seq<byte>)
    ensures |EncodeChar(c)| == var b := (EncodeChar(c) + rest)[0]; if b < 0x80 then 1 else if b < 0xE0 then 2 else if b < 0xF0 then 3 else 4
  {
  }

  /** An encoded character is recognised at the front of any byte string. */
  lemma EncodeCharUnique(c: char, d: char, x: seq<byte>, y: seq<byte>)
    requires EncodeChar(c) + x == EncodeChar(d) + y
    ensures c == d && x == y
  {
    var a, b := EncodeChar(c), EncodeChar(d);
    EncodedLength(c, x);
    EncodedLength(d, y);
    assert a == (a + x)[..|a|] == (b + y)[..|b|] == b;
    assert x == (a + x)[|a|..] == (b + y)[|b|..] == y;
    SameEncoding(c, d);
  }

  lemma SameEncoding(c: char, d: char)
    requires EncodeChar(c) == EncodeChar(d)
    ensures c == d
  {
    var n, m := c as int, d as int;
    EncodedLength(c, []);
    EncodedLength(d, []);
    if |EncodeChar(c)| == 4 {
      assert n / 4096 / 64 == n / 262144 && m / 4096 / 64 == m / 262144;
      Digits64(n / 4096, m / 4096);
    }
    if |EncodeChar(c)| >= 3 {
      assert n / 64 / 64 == n / 4096 && m / 64 / 64 == m / 4096;
      Digits64(n / 64, m / 64);
    }
    if |EncodeChar(c)| >= 2 {
      Digits64(n, m);
    }
  }

  lemma {:induction false} Utf8Injective(a: string, b: string)
    requires Utf8(a) == Utf8(b)
    ensures a == b
  {
    if a != "" && b != "" {
      EncodeCharUnique(a[0], b[0], Utf8(a[1..]), Utf8(b[1..]));
      Utf8Injective(a[1..], b[1..]);
      assert a == [a[0]] + a[1..] == [b[0]] + b[1..];
    }
  }

  lemma Utf8NoNul(text: string)
    requires '\0' !in text
    ensures 0 !in Utf8(text)
  {
    EncodeAvoids(EncodeChar, text, 0);
  }

  lemma Utf8NoSlash(text: string)
    requires '/' !in text
    ensures 47 !in Utf8(text)
  {
    forall i | 0 <= i < |text| ensures 47 !in EncodeChar(text[i]) {
      assert text[i] != '/';
    }
    EncodeAvoids(EncodeChar, text, 47);
  }

  lemma Utf8Join(folder: string, name: string)
    ensures Utf8(folder + "/" + name) == Utf8(folder) + [47] + Utf8(name)
  {
    EncodeConcat(EncodeChar, folder + "/", name);
    EncodeConcat(EncodeChar, folder, "/");
    assert Encode(EncodeChar, "/") == EncodeChar('/') + Encode(EncodeChar, "") == [47];
  }

  // ---------------------------------------------------------------- ids and lengths

  function HexValue(c: char): (n: nat)
    requires IsHex(c)
    ensures n < 16 && "0123456789abcdef"[n] == c
  {
    if c <= '9' then c as int - '0' as int else c as int - 'a' as int + 10
  }

  const ID_DIGITS := 40

  /** `sha`: forty lower-case hexadecimal digits. */
  predicate IsSha(s: string) {
    |s| == ID_DIGITS && forall i | 0 <= i < |s| :: IsHex(s[i])
  }

  /** `bytes.fromhex`. */
  function FromHex(s: string): (r: seq<byte>)
    requires |s| % 2 == 0 && forall i | 0 <= i < |s| :: IsHex(s[i])
    ensures |r| == |s| / 2
  {
    if s == "" then [] else [16 * HexValue(s[0]) + HexValue(s[1])] + FromHex(s[2..])
  }

  /** Each byte is the number of its two digits, the first one counting sixteen times. */
  lemma {:induction false} FromHexAt(s: string, i: nat)
    requires |s| % 2 == 0 && forall k | 0 <= k < |s| :: IsHex(s[k])
    requires 2 * i < |s|
    ensures FromHex(s)[i] == 16 * HexValue(s[2 * i]) + HexValue(s[2 * i + 1])
  {
    if i > 0 {
      FromHexAt(s[2..], i - 1);
    }
  }

  lemma {:induction false} FromHexInjective(a: string, b: string)
    requires |a| % 2 == 0 && forall i | 0 <= i < |a| :: IsHex(a[i])
    requires |b| % 2 == 0 && forall i | 0 <= i < |b| :: IsHex(b[i])
    requires FromHex(a) == FromHex(b)
    ensures a == b
  {
    if a != "" {
      assert FromHex(a)[0] == FromHex(b)[0];
      assert FromHex(a)[1..] == FromHex(a[2..]) && FromHex(b)[1..] == FromHex(b[2..]);
      FromHexInjective(a[2..], b[2..]);
      assert HexValue(a[0]) == HexValue(b[0]) && HexValue(a[1]) == HexValue(b[1]);
      assert a == [a[0], a[1]] + a[2..];
      assert b == [b[0], b[1]] + b[2..];
    }
  }

  /** `str(n).encode()`. */
  function Decimal(n: nat): (r: seq<byte>)
    ensures |r| > 0 && forall i | 0 <= i < |r| :: 48 <= r[i] <= 57
  {
    if n < 10 then [48 + n] else Decimal(n / 10) + [48 + n % 10]
  }

  /** The number that decimal digits stand for. */
  function NumberOf(digits: seq<byte>): int {
    if digits == [] then 0 else 10 * NumberOf(digits[..|digits| - 1]) + digits[|digits| - 1] - 48
  }

  /** The digits stand for the number and do not begin with a needless zero. */
  lemma {:induction false} DecimalReads(n: nat)
    ensures NumberOf(Decimal(n)) == n
    ensures n > 0 ==> Decimal(n)[0] != 48
  {
    if n < 10 {
      assert [48 + n][..0] == [];
    } else {
      DecimalReads(n / 10);
      assert Decimal(n)[..|Decimal(n)| - 1] == Decimal(n / 10);
    }
  }

  // ---------------------------------------------------------------- delimited fields

  /** A field that ends at the first delimiter can be read in only one way. */
  lemma {:induction false} FieldUnique(a: seq<byte>, b: seq<byte>, delimiter: byte, x: seq<byte>, y: seq<byte>)
    requires delimiter !in a && delimiter !in b
    requires a + [delimiter] + x == b + [delimiter] + y
    ensures a == b && x == y
  {
    var left, right := a + [delimiter] + x, b + [delimiter] + y;
    if a == [] || b == [] {
      assert left[0] == right[0];
      assert a == b;
      assert x == left[1..] && y == right[1..];
    } else {
      assert left[0] == a[0] && right[0] == b[0];
      assert left[1..] == a[1..] + [delimiter] + x && right[1..] == b[1..] + [delimiter] + y;
      FieldUnique(a[1..], b[1..], delimiter, x, y);
      assert a == [a[0]] + a[1..] == [b[0]] + b[1..];
    }
  }
}
