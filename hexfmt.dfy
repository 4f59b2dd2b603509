/** The `%02x` and `%08x` conversions of `printf`: a number as a fixed count of
    lowercase hexadecimal digits, zero-padded on the left, and the decoder that
    reads such digits back. */
module HexFormat {
  import opened CType

  predicate IsHexDigit(c: char) {
    '0' <= c <= '9' || 'a' <= c <= 'f'
  }

  predicate AllHex(s: string) {
    forall k :: 0 <= k < |s| ==> IsHexDigit(s[k])
  }

  function HexDigitValue(c: char): (d: nat)
    requires IsHexDigit(c)
    ensures d < 16
  {
    if c <= '9' then (c as int) - ('0' as int) else (c as int) - ('a' as int) + 10
  }

  /** The lowercase hexadecimal digit for a value below sixteen. */
  function HexDigit(d: nat): (c: char)
    requires d < 16
    ensures IsHexDigit(c) && HexDigitValue(c) == d
  {
    if d < 10 then (('0' as int) + d) as char else (('a' as int) + d - 10) as char
  }

  function Pow16(n: nat): (p: nat)
    ensures p > 0
  {
    if n == 0 then 1 else 16 * Pow16(n - 1)
  }

  /** The number a string of hexadecimal digits denotes, most significant first. */
  function HexValue(s: string): (v: nat)
    requires AllHex(s)
    ensures v < Pow16(|s|)
  {
    if s == [] then 0
    else
      var init := s[..|s| - 1];
      assert AllHex(init);
      HexValue(init) * 16 + HexDigitValue(s[|s| - 1])
  }

  /** `n` printed with `%0<width>x`. For `n` below 16 to the `width` this is
      exactly what `printf` prints; a larger `n` would keep only its low `width`
      digits here, whereas `printf` widens the field, but xdd never formats such a
      value: the offset is reduced to 32 bits first and a cell is one byte. */
  function HexFixed(n: nat, width: nat): (s: string)
    ensures |s| == width
  {
    if width == 0 then "" else HexFixed(n / 16, width - 1) + [HexDigit(n % 16)]
  }

  /** The digits `HexFixed` prints spell `n` modulo 16 to the `width`, which is
      `n` itself for every value xdd formats (see `HexFixedBelow`). */
  lemma {:induction false} HexFixedValue(n: nat, width: nat)
    ensures AllHex(HexFixed(n, width))
    ensures HexValue(HexFixed(n, width)) == n % Pow16(width)
  {
    if width > 0 {
      var s := HexFixed(n, width);
      var init := HexFixed(n / 16, width - 1);
      HexFixedValue(n / 16, width - 1);
      assert s == init + [HexDigit(n % 16)];
      assert s[..|s| - 1] == init;
      assert AllHex(s) by {
        forall k | 0 <= k < |s| ensures IsHexDigit(s[k]) {
          if k < |init| {
            assert s[k] == init[k];
          }
        }
      }
      DigitSplit(n, Pow16(width - 1));
    }
  }

  /** A number below 16 to the `width` prints in full. */
  lemma HexFixedBelow(n: nat, width: nat)
    requires n < Pow16(width)
    ensures |HexFixed(n, width)| == width && AllHex(HexFixed(n, width))
    ensures HexValue(HexFixed(n, width)) == n
  {
    HexFixedValue(n, width);
  }

  /** `%02x` of a byte. */
  function Hex2(b: Byte): string {
    HexFixed(b, 2)
  }

  /** `%02x` prints a byte as two digits whose value is the byte. */
  lemma Hex2Value(b: Byte)
    ensures |Hex2(b)| == 2 && AllHex(Hex2(b)) && HexValue(Hex2(b)) == b
  {
    assert Pow16(2) == 256;
    HexFixedBelow(b, 2);
  }

  /** The bytes a string of digit pairs spells, as a hex decoder reads them. */
  function DecodeHex(s: string): seq<Byte>
    requires AllHex(s) && |s| % 2 == 0
  {
    if s == [] then []
    else
      assert AllHex(s[..2]) && AllHex(s[2..]);
      assert HexValue(s[..2]) < 256;
      [HexValue(s[..2])] + DecodeHex(s[2..])
  }

  /** Decoding undoes `%02x`, one byte at a time. */
  lemma DecodeHex2(b: Byte, rest: string)
    requires AllHex(rest) && |rest| % 2 == 0
    ensures AllHex(Hex2(b) + rest)
    ensures DecodeHex(Hex2(b) + rest) == [b] + DecodeHex(rest)
  {
    Hex2Value(b);
    var s := Hex2(b) + rest;
    assert s[..2] == Hex2(b) && s[2..] == rest;
  }

  /** The remainder of a division is fixed by any decomposition of the dividend. */
  lemma ModOfDecomposition(n: int, m: int, a: int, x: int)
    requires m > 0 && 0 <= x < m && n == m * a + x
    ensures n % m == x
  {
    var k := a - n / m;
    assert m * k == n % m - x by {
      assert n == m * (n / m) + n % m;
      assert m * a - m * (n / m) == m * k;
    }
  }

  /** Splitting off the last hexadecimal digit. */
  lemma DigitSplit(n: nat, p: nat)
    requires p > 0
    ensures (n / 16) % p * 16 + n % 16 == n % (16 * p)
  {
    var q, r := n / 16, n % 16;
    var a, b := q / p, q % p;
    assert n == 16 * q + r;
    assert q == p * a + b;
    assert n == (16 * p) * a + (16 * b + r) by {
      assert 16 * q == 16 * (p * a) + 16 * b;
      assert 16 * (p * a) == (16 * p) * a;
    }
    ModOfDecomposition(n, 16 * p, a, 16 * b + r);
  }
}
