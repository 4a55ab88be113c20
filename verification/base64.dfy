/**
 * The base64 encoding of section 4 of RFC 4648 (standard alphabet, `=`
 * padding), as Python's `base64.b64encode` produces it, together with a
 * decoder that inverts it.
 */
module Base64 {
  import opened Wrappers
  import opened Bytes

  type sextet = x: int | 0 <= x < 64

  /** The 64-character alphabet of RFC 4648, section 4, table 1. */
  predicate IsAlphabetChar(c: char) {
    ('A' <= c <= 'Z') || ('a' <= c <= 'z') || ('0' <= c <= '9') || c == '+' || c == '/'
  }

  /** The pad character `=`, used only at the end of the output. */
  const Pad: char := '='

  /** The character that encodes the 6-bit value `v`. */
  function CharOf(v: sextet): (c: char)
    ensures IsAlphabetChar(c)
    ensures ValueOf(c) == v
  {
    if v < 26 then ('A' as int + v) as char
    else if v < 52 then ('a' as int + (v - 26)) as char
    else if v < 62 then ('0' as int + (v - 52)) as char
    else if v == 62 then '+'
    else '/'
  }

  /** The 6-bit value an alphabet character stands for. */
  function ValueOf(c: char): (v: sextet)
    requires IsAlphabetChar(c)
  {
    if 'A' <= c <= 'Z' then c as int - 'A' as int
    else if 'a' <= c <= 'z' then c as int - 'a' as int + 26
    else if '0' <= c <= '9' then c as int - '0' as int + 52
    else if c == '+' then 62
    else 63
  }

  /** Three octets, big-endian, cut into four 6-bit groups. */
  function Quad(a: byte, b: byte, c: byte): string {
    [CharOf(a / 4), CharOf(a % 4 * 16 + b / 16), CharOf(b % 16 * 4 + c / 64), CharOf(c % 64)]
  }

  /** `b64encode(bytes)`: full groups of three octets, then a padded final group of one or two. */
  function Encode(bytes: seq<byte>): string
    decreases |bytes|
  {
    if |bytes| == 0 then []
    else if |bytes| == 1 then Quad(bytes[0], 0, 0)[..2] + [Pad, Pad]
    else if |bytes| == 2 then Quad(bytes[0], bytes[1], 0)[..3] + [Pad]
    else Quad(bytes[0], bytes[1], bytes[2]) + Encode(bytes[3..])
  }

  /**
   * Every output character is an alphabet character or the pad, and so plain
   * ASCII; pads come only in the last two places, and a pad in the last but
   * one place is followed by another.
   */
  predicate IsBase64Text(s: string) {
    && (forall i :: 0 <= i < |s| ==> IsAlphabetChar(s[i]) || s[i] == Pad)
    && (forall i :: 0 <= i < |s| && s[i] == Pad ==> |s| - 2 <= i && s[|s| - 1] == Pad)
  }

  /** The output is four characters for every started group of three octets. */
  lemma {:induction false} EncodeLength(bytes: seq<byte>)
    ensures |Encode(bytes)| == 4 * ((|bytes| + 2) / 3)
    decreases |bytes|
  {
    if |bytes| >= 3 {
      EncodeLength(bytes[3..]);
    }
  }

  lemma {:induction false} EncodeIsBase64Text(bytes: seq<byte>)
    ensures IsBase64Text(Encode(bytes))
    decreases |bytes|
  {
    if |bytes| >= 3 {
      EncodeIsBase64Text(bytes[3..]);
      var q := Quad(bytes[0], bytes[1], bytes[2]);
      var rest := Encode(bytes[3..]);
      assert Encode(bytes) == q + rest;
      forall i | 0 <= i < |q + rest|
        ensures IsAlphabetChar((q + rest)[i]) || (q + rest)[i] == Pad
        ensures (q + rest)[i] == Pad ==> |q + rest| - 2 <= i && (q + rest)[|q + rest| - 1] == Pad
      {
        if i >= |q| {
          assert (q + rest)[i] == rest[i - |q|];
          if |rest| > 0 {
            assert (q + rest)[|q + rest| - 1] == rest[|rest| - 1];
          }
        } else {
          assert (q + rest)[i] == q[i] && IsAlphabetChar(q[i]);
        }
      }
    }
  }

  /** Four 6-bit groups put back together as three octets. */
  function Unquad(w: sextet, x: sextet, y: sextet, z: sextet): seq<byte> {
    [w * 4 + x / 16, x % 16 * 16 + y / 4, y % 4 * 64 + z]
  }

  predicate AllAlphabet(q: string) {
    forall i :: 0 <= i < |q| ==> IsAlphabetChar(q[i])
  }

  /**
   * Decodes padded base64 text; `None` when the length is not a multiple of
   * four or a character is out of place.
   */
  function Decode(s: string): Option<seq<byte>>
    decreases |s|
  {
    if |s| == 0 then Some([])
    else if |s| < 4 then None
    else if |s| == 4 && s[2] == Pad && s[3] == Pad then
      if AllAlphabet(s[..2]) then Some(Unquad(ValueOf(s[0]), ValueOf(s[1]), 0, 0)[..1]) else None
    else if |s| == 4 && s[3] == Pad then
      if AllAlphabet(s[..3]) then Some(Unquad(ValueOf(s[0]), ValueOf(s[1]), ValueOf(s[2]), 0)[..2]) else None
    else if AllAlphabet(s[..4]) then
      match Decode(s[4..])
      case None => None
      case Some(rest) => Some(Unquad(ValueOf(s[0]), ValueOf(s[1]), ValueOf(s[2]), ValueOf(s[3])) + rest)
    else None
  }

  lemma UnquadQuad(a: byte, b: byte, c: byte, w: sextet, x: sextet, y: sextet, z: sextet)
    requires w == a / 4 && x == a % 4 * 16 + b / 16 && y == b % 16 * 4 + c / 64 && z == c % 64
    ensures Unquad(w, x, y, z) == [a, b, c]
  {
  }

  lemma DecodeOneOctet(a: byte)
    ensures Decode(Encode([a])) == Some([a])
  {
    var s := Encode([a]);
    assert s == [CharOf(a / 4), CharOf(a % 4 * 16), Pad, Pad];
    assert AllAlphabet(s[..2]);
    assert ValueOf(s[0]) == a / 4 && ValueOf(s[1]) == a % 4 * 16;
    assert Decode(s) == Some(Unquad(a / 4, a % 4 * 16, 0, 0)[..1]);
    UnquadQuad(a, 0, 0, a / 4, a % 4 * 16, 0, 0);
    assert [a, 0, 0][..1] == [a];
  }

  lemma DecodeTwoOctets(a: byte, b: byte)
    ensures Decode(Encode([a, b])) == Some([a, b])
  {
    var s := Encode([a, b]);
    assert s == [CharOf(a / 4), CharOf(a % 4 * 16 + b / 16), CharOf(b % 16 * 4), Pad];
    assert AllAlphabet(s[..3]);
    assert ValueOf(s[0]) == a / 4 && ValueOf(s[1]) == a % 4 * 16 + b / 16 && ValueOf(s[2]) == b % 16 * 4;
    assert Decode(s) == Some(Unquad(a / 4, a % 4 * 16 + b / 16, b % 16 * 4, 0)[..2]);
    UnquadQuad(a, b, 0, a / 4, a % 4 * 16 + b / 16, b % 16 * 4, 0);
    assert [a, b, 0][..2] == [a, b];
  }

  /** One unpadded group of four characters followed by decodable text. */
  lemma DecodeStep(s: string, rest: seq<byte>)
    requires |s| >= 4 && AllAlphabet(s[..4])
    requires Decode(s[4..]) == Some(rest)
    ensures Decode(s) == Some(Unquad(ValueOf(s[0]), ValueOf(s[1]), ValueOf(s[2]), ValueOf(s[3])) + rest)
  {
    assert IsAlphabetChar(s[3]) && IsAlphabetChar(s[2]);
  }

  lemma DecodeGroup(a: byte, b: byte, c: byte, t: string, rest: seq<byte>)
    requires Decode(t) == Some(rest)
    ensures Decode(Quad(a, b, c) + t) == Some([a, b, c] + rest)
  {
    var w, x, y, z := a / 4, a % 4 * 16 + b / 16, b % 16 * 4 + c / 64, c % 64;
    var s := Quad(a, b, c) + t;
    assert s[..4] == [CharOf(w), CharOf(x), CharOf(y), CharOf(z)];
    assert s[4..] == t;
    assert AllAlphabet(s[..4]);
    DecodeStep(s, rest);
    UnquadQuad(a, b, c, w, x, y, z);
  }

  /** Decoding undoes encoding. */
  lemma {:induction false} DecodeEncode(bytes: seq<byte>)
    ensures Decode(Encode(bytes)) == Some(bytes)
    decreases |bytes|
  {
    if |bytes| == 0 {
    } else if |bytes| == 1 {
      assert bytes == [bytes[0]];
      DecodeOneOctet(bytes[0]);
    } else if |bytes| == 2 {
      assert bytes == [bytes[0], bytes[1]];
      DecodeTwoOctets(bytes[0], bytes[1]);
    } else {
      DecodeEncode(bytes[3..]);
      DecodeGroup(bytes[0], bytes[1], bytes[2], Encode(bytes[3..]), bytes[3..]);
      assert bytes == [bytes[0], bytes[1], bytes[2]] + bytes[3..];
    }
  }

  /** Distinct byte strings have distinct encodings. */
  lemma EncodeInjective(x: seq<byte>, y: seq<byte>)
    requires Encode(x) == Encode(y)
    ensures x == y
  {
    DecodeEncode(x);
    DecodeEncode(y);
  }

  // The groups of the known answers below, with the 6-bit values written out.

  lemma QuadMan()
    ensures Quad(77, 97, 110) == "TWFu"
  {
    assert 77 / 4 == 19 && 77 % 4 * 16 + 97 / 16 == 22 && 97 % 16 * 4 + 110 / 64 == 5 && 110 % 64 == 46;
    assert CharOf(19) == 'T' && CharOf(22) == 'W' && CharOf(5) == 'F' && CharOf(46) == 'u';
  }

  lemma QuadM(a: byte, z: byte)
    requires a == 77 && z == 0
    ensures Quad(a, z, z)[..2] == "TQ"
  {
    assert 77 / 4 == 19 && 77 % 4 * 16 + 0 / 16 == 16 && 0 % 16 * 4 + 0 / 64 == 0 && 0 % 64 == 0;
    assert CharOf(19) == 'T' && CharOf(16) == 'Q' && CharOf(0) == 'A';
  }

  /** A lone octet is encoded as the first two characters of its group, then two pads. */
  lemma EncodeSingle(bytes: seq<byte>, t: string)
    requires |bytes| == 1 && Quad(bytes[0], 0, 0)[..2] == t
    ensures Encode(bytes) == t + [Pad, Pad]
  {
  }

  /** `TQ` followed by two pads. */
  lemma PadTwice(t: string)
    requires t == "TQ"
    ensures t + [Pad, Pad] == "TQ=="
  {
  }

  lemma QuadFoo()
    ensures Quad(102, 111, 111) == "Zm9v"
  {
    assert 102 / 4 == 25 && 102 % 4 * 16 + 111 / 16 == 38 && 111 % 16 * 4 + 111 / 64 == 61 && 111 % 64 == 47;
    assert CharOf(25) == 'Z' && CharOf(38) == 'm' && CharOf(61) == '9' && CharOf(47) == 'v';
  }

  lemma QuadBar()
    ensures Quad(98, 97, 114) == "YmFy"
  {
    assert 98 / 4 == 24 && 98 % 4 * 16 + 97 / 16 == 38 && 97 % 16 * 4 + 114 / 64 == 5 && 114 % 64 == 50;
    assert CharOf(24) == 'Y' && CharOf(38) == 'm' && CharOf(5) == 'F' && CharOf(50) == 'y';
  }

  /** `Man` encodes to `TWFu`: one full three-octet group, with no padding. */
  lemma EncodeMan(bytes: seq<byte>)
    requires bytes == [77, 97, 110]
    ensures Encode(bytes) == "TWFu"
  {
    QuadMan();
    assert bytes[3..] == [];
    assert Encode(bytes) == Quad(77, 97, 110) + Encode([]);
  }

  /** One octet leaves two characters and two pads. */
  lemma EncodeOneOctet(bytes: seq<byte>)
    requires bytes == [77]
    ensures Encode(bytes) == "TQ=="
  {
    QuadM(bytes[0], 0);
    EncodeSingle(bytes, "TQ");
    PadTwice("TQ");
  }

  /** Two octets leave three characters and one pad; the last two alphabet entries are `+` and `/`. */
  lemma EncodeTwoOctets(bytes: seq<byte>)
    requires bytes == [251, 255]
    ensures Encode(bytes) == "+/8="
  {
    assert 251 / 4 == 62 && 251 % 4 * 16 + 255 / 16 == 63 && 255 % 16 * 4 + 0 / 64 == 60;
    assert CharOf(62) == '+' && CharOf(63) == '/' && CharOf(60) == '8';
    assert Quad(251, 255, 0)[..3] == "+/8";
  }

  /** The test vectors of RFC 4648, section 10, for `foobar`: two full groups. */
  lemma EncodeFoobar(bytes: seq<byte>)
    requires bytes == [102, 111, 111, 98, 97, 114]
    ensures Encode(bytes) == "Zm9vYmFy"
  {
    QuadFoo();
    QuadBar();
    var tail := bytes[3..];
    assert tail == [98, 97, 114] && tail[3..] == [];
    assert Encode(tail) == Quad(98, 97, 114) + Encode([]);
    assert Encode(bytes) == Quad(102, 111, 111) + Encode(tail);
  }
}
