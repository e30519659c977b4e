/** The output line both walkers write per path, `String.format("%08x %s\n",
    hash, path)`: the hash as exactly eight lower-case hexadecimal digits,
    zero-padded (a negative `int` prints as its unsigned 32-bit value), a
    space, the path and a newline. */
module HashLine {

  function Pow16(k: nat): (p: nat)
    ensures p > 0
  {
    if k == 0 then 1 else 16 * Pow16(k - 1)
  }

  predicate IsHexDigit(c: char) {
    '0' <= c <= '9' || 'a' <= c <= 'f'
  }

  /** The lower-case digit for a value below 16. */
  function DigitChar(d: nat): (c: char)
    requires d < 16
    ensures IsHexDigit(c) && DigitValue(c) == d
  {
    if d < 10 then ('0' as int + d) as char else ('a' as int + d - 10) as char
  }

  function DigitValue(c: char): nat
    requires IsHexDigit(c)
  {
    if c <= '9' then c as int - '0' as int else c as int - 'a' as int + 10
  }

  /** The lowest `width` hexadecimal digits of `n`, most significant first. */
  function HexDigits(n: nat, width: nat): (s: string)
    ensures |s| == width
    ensures forall i :: 0 <= i < |s| ==> IsHexDigit(s[i])
  {
    if width == 0 then "" else HexDigits(n / 16, width - 1) + [DigitChar(n % 16)]
  }

  /** Reads a string of hexadecimal digits back as a number. */
  function ParseHex(s: string): nat
    requires forall i :: 0 <= i < |s| ==> IsHexDigit(s[i])
  {
    if s == [] then 0 else ParseHex(s[..|s| - 1]) * 16 + DigitValue(s[|s| - 1])
  }

  /** A value that fits in `width` digits reads back unchanged. */
  lemma {:induction false} ParseHexDigits(n: nat, width: nat)
    requires n < Pow16(width)
    ensures ParseHex(HexDigits(n, width)) == n
  {
    if width > 0 {
      var s := HexDigits(n, width);
      ParseHexDigits(n / 16, width - 1);
      assert s[..|s| - 1] == HexDigits(n / 16, width - 1);
    }
  }

  /** `%08x` of a 32-bit value. */
  function Hex8(h: bv32): (s: string)
    ensures |s| == 8
    ensures forall i :: 0 <= i < |s| ==> IsHexDigit(s[i])
  {
    HexDigits(h as int, 8)
  }

  /** The eight digits read back as the unsigned value of the hash: a
      negative `int` prints as its two's-complement value. */
  lemma Hex8ReadsBack(h: bv32)
    ensures ParseHex(Hex8(h)) == h as int
  {
    assert Pow16(8) == 0x1_0000_0000 by {
      assert Pow16(2) == 256;
      assert Pow16(4) == 65536 by { assert Pow16(3) == 4096; }
      assert Pow16(6) == 16777216 by { assert Pow16(5) == 1048576; }
      assert Pow16(8) == 0x1_0000_0000 by { assert Pow16(7) == 268435456; }
    }
    ParseHexDigits(h as int, 8);
  }

  /** Different hashes print differently. */
  lemma Hex8Injective(a: bv32, b: bv32)
    requires Hex8(a) == Hex8(b)
    ensures a as int == b as int
  {
    Hex8ReadsBack(a);
    Hex8ReadsBack(b);
  }

  /** The zero hash written on errors prints as eight zeros. */
  lemma Hex8Zero()
    ensures Hex8(0) == "00000000"
  {
    var s := Hex8(0);
    assert HexDigits(0, 8) == s;
    assert HexDigits(0, 1) == "0";
    assert HexDigits(0, 2) == "00";
    assert HexDigits(0, 4) == "0000" by { assert HexDigits(0, 3) == "000"; }
    assert HexDigits(0, 6) == "000000" by { assert HexDigits(0, 5) == "00000"; }
    assert HexDigits(0, 8) == "00000000" by { assert HexDigits(0, 7) == "0000000"; }
  }

  /** One output line. */
  function Line(hash: bv32, path: string): string {
    Hex8(hash) + " " + path + "\n"
  }

  /** A line splits back into its hash and its path: eight hex digits that
      read back as the hash, a space, the path, a newline. */
  lemma LineFormat(hash: bv32, path: string)
    ensures |Line(hash, path)| == |path| + 10
    ensures Line(hash, path)[..8] == Hex8(hash)
    ensures ParseHex(Line(hash, path)[..8]) == hash as int
    ensures Line(hash, path)[8] == ' ' && Line(hash, path)[|path| + 9] == '\n'
    ensures Line(hash, path)[9..|path| + 9] == path
  {
    var line := Line(hash, path);
    assert line[..8] == Hex8(hash);
    Hex8ReadsBack(hash);
    assert line[9..|path| + 9] == path;
  }
}
