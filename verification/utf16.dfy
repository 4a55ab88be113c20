/**
 * Python's `str.encode('utf_16_le')`: every character becomes one 16-bit
 * code unit, or a surrogate pair for characters beyond U+FFFF, each unit
 * written low octet first. A decoder recovers the text.
 */
module Utf16 {
  import opened Wrappers
  import opened Bytes

  /** A character outside the Basic Multilingual Plane, which needs a surrogate pair. */
  predicate IsSupplementary(c: char) {
    c as int >= 0x10000
  }

  /** The code unit `u` as two octets, low octet first. */
  function UnitBytes(u: nat): seq<byte>
    requires u < 0x10000
  {
    [u % 256, u / 256]
  }

  function EncodeChar(c: char): seq<byte> {
    var n := c as int;
    if n < 0x10000 then UnitBytes(n)
    else
      var v := n - 0x10000;
      UnitBytes(0xD800 + v / 1024) + UnitBytes(0xDC00 + v % 1024)
  }

  /** `s.encode('utf_16_le')` */
  function Encode(s: string): seq<byte>
    decreases |s|
  {
    if |s| == 0 then [] else EncodeChar(s[0]) + Encode(s[1..])
  }

  /** Reads little-endian code units back into characters; `None` on a truncated unit or an unpaired surrogate. */
  function Decode(bs: seq<byte>): Option<string>
    decreases |bs|
  {
    if |bs| == 0 then Some([])
    else if |bs| < 2 then None
    else
      var u := bs[0] as int + 256 * bs[1] as int;
      if 0xD800 <= u < 0xDC00 then
        if |bs| < 4 then None
        else
          var w := bs[2] as int + 256 * bs[3] as int;
          if 0xDC00 <= w < 0xE000 then
            match Decode(bs[4..])
            case None => None
            case Some(rest) => Some([(0x10000 + (u - 0xD800) * 1024 + (w - 0xDC00)) as char] + rest)
          else None
      else if 0xDC00 <= u < 0xE000 then None
      else
        match Decode(bs[2..])
        case None => None
        case Some(rest) => Some([u as char] + rest)
  }

  lemma DecodeChar(c: char, t: seq<byte>, rest: string)
    requires Decode(t) == Some(rest)
    ensures Decode(EncodeChar(c) + t) == Some([c] + rest)
  {
    var n := c as int;
    var bs := EncodeChar(c) + t;
    if n < 0x10000 {
      assert bs[2..] == t;
    } else {
      var v := n - 0x10000;
      var hi, lo := 0xD800 + v / 1024, 0xDC00 + v % 1024;
      assert bs[0] as int + 256 * bs[1] as int == hi;
      assert bs[2] as int + 256 * bs[3] as int == lo;
      assert bs[4..] == t;
      assert 0x10000 + (hi - 0xD800) * 1024 + (lo - 0xDC00) == n;
    }
  }

  /** Decoding undoes encoding: the transformation loses nothing. */
  lemma {:induction false} DecodeEncode(s: string)
    ensures Decode(Encode(s)) == Some(s)
    decreases |s|
  {
    if |s| > 0 {
      DecodeEncode(s[1..]);
      DecodeChar(s[0], Encode(s[1..]), s[1..]);
      assert s == [s[0]] + s[1..];
    }
  }

  /** Two octets per character, and two more for each character that needs a surrogate pair. */
  lemma {:induction false} EncodeLength(s: string)
    ensures 2 * |s| <= |Encode(s)| <= 4 * |s|
    ensures (forall i :: 0 <= i < |s| ==> !IsSupplementary(s[i])) ==> |Encode(s)| == 2 * |s|
    decreases |s|
  {
    if |s| > 0 {
      EncodeLength(s[1..]);
      if forall i :: 0 <= i < |s| ==> !IsSupplementary(s[i]) {
        assert forall i :: 0 <= i < |s[1..]| ==> !IsSupplementary(s[1..][i]) by {
          forall i | 0 <= i < |s[1..]| ensures !IsSupplementary(s[1..][i]) {
            assert s[1..][i] == s[i + 1];
          }
        }
      }
    }
  }
}
