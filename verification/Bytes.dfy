/** Octets and the little-endian words of CAPI messages. */
module Bytes {

  type byte = n: int | 0 <= n < 256

  /** Conversion to `unsigned char`: the low eight bits, also of a negative number. */
  function Low(n: int): byte {
    n % 256
  }

  function Word(n: int): (s: seq<byte>)
    ensures |s| == 2
  {
    [Low(n), Low(n / 256)]
  }

  function DWord(n: int): (s: seq<byte>)
    ensures |s| == 4
  {
    [Low(n), Low(n / 256), Low(n / 65536), Low(n / 16777216)]
  }

  function ReadWord(s: seq<byte>): nat
    requires |s| >= 2
  {
    s[0] as int + 256 * s[1] as int
  }

  function ReadDWord(s: seq<byte>): nat
    requires |s| >= 4
  {
    s[0] as int + 256 * s[1] as int + 65536 * s[2] as int + 16777216 * s[3] as int
  }

  lemma ReadWordOfWord(n: int)
    ensures ReadWord(Word(n)) == n % 65536
  {
    var q := n / 256 / 256;
    assert n == 65536 * q + ReadWord(Word(n));
  }

  lemma ReadDWordOfDWord(n: int)
    ensures ReadDWord(DWord(n)) == n % 0x1_0000_0000
  {
    var a, b, c, d := n / 256, n / 65536, n / 16777216, n / 0x1_0000_0000;
    assert a / 256 == b && b / 256 == c && c / 256 == d;
    assert n == 0x1_0000_0000 * d + ReadDWord(DWord(n));
  }
}
