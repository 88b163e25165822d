/** Byte-level helpers shared by every part of the model: the byte type, Python's
    clamped slicing, little-endian 16-bit decoding, ASCII decoding and the
    two-hex-digits-per-byte text form used for payloads. */
module Bytes {

  /** One octet of a symbol file or of a payload (Python's `bytes` elements,
      which the source combines with `&`, `<<` and `^`). */
  type byte = bv8

  /** An unsigned 16-bit value, such as a symbol's address. */
  type u16 = w: int | 0 <= w < 0x1_0000

  datatype Option<+T> = None | Some(value: T)

  /** Python's `s[lo:hi]` for non-negative bounds: both ends are clamped to the
      sequence, so a window that runs past the end comes back short. */
  function Slice<T>(s: seq<T>, lo: nat, hi: nat): (r: seq<T>)
    ensures lo <= hi <= |s| ==> r == s[lo..hi]
    ensures lo <= |s| < hi ==> r == s[lo..]
    ensures |r| == if hi <= |s| then (if lo <= hi then hi - lo else 0)
                   else (if lo <= |s| then |s| - lo else 0)
  {
    var h := if hi <= |s| then hi else |s|;
    var l := if lo <= h then lo else h;
    s[l..h]
  }

  /** `int.from_bytes([lo, hi], byteorder='little')`. */
  function LittleEndian16(lo: byte, hi: byte): (w: u16)
    ensures w % 256 == lo as int && w / 256 == hi as int
  {
    lo as int + 256 * hi as int
  }

  /** `bytes.decode('ascii')`: each byte becomes the character with its code.
      Only bytes below 128 are ever decoded, where this is ASCII. */
  function AsciiDecode(bs: seq<byte>): (s: string)
    ensures |s| == |bs|
    ensures forall i :: 0 <= i < |bs| ==> s[i] as int == bs[i] as int
  {
    seq(|bs|, i requires 0 <= i < |bs| => (bs[i] as int) as char)
  }

  // ---------------------------------------------------------------------------
  // Hexadecimal text

  predicate IsHexDigit(c: char) {
    '0' <= c <= '9' || 'a' <= c <= 'f' || 'A' <= c <= 'F'
  }

  predicate IsUpperHexDigit(c: char) {
    '0' <= c <= '9' || 'A' <= c <= 'F'
  }

  /** The value of one hex digit, either case. */
  function HexValue(c: char): (v: int)
    requires IsHexDigit(c)
    ensures 0 <= v < 16
  {
    if c <= '9' then c as int - '0' as int
    else if c <= 'F' then c as int - 'A' as int + 10
    else c as int - 'a' as int + 10
  }

  /** The upper-case digit for a nibble, as `f"{n:X}"` writes it. */
  function HexDigit(n: int): (c: char)
    requires 0 <= n < 16
    ensures IsUpperHexDigit(c) && HexValue(c) == n
  {
    if n < 10 then ('0' as int + n) as char else ('A' as int + n - 10) as char
  }

  /** The byte written by two hex digits, most significant first. */
  function PairValue(hi: char, lo: char): byte
    requires IsHexDigit(hi) && IsHexDigit(lo)
  {
    (16 * HexValue(hi) + HexValue(lo)) as bv8
  }

  /** `f"{v:02X}"` for a value below 256: two upper-case hex digits, most
      significant first, that read back as `v`. */
  function HexPair(v: int): (s: string)
    requires 0 <= v < 256
    ensures |s| == 2 && IsUpperHexDigit(s[0]) && IsUpperHexDigit(s[1])
    ensures 16 * HexValue(s[0]) + HexValue(s[1]) == v
  {
    [HexDigit(v / 16), HexDigit(v % 16)]
  }

  /** `f"{b:02X}"` for a byte. */
  function Hex2(b: byte): (s: string)
    ensures |s| == 2 && IsUpperHexDigit(s[0]) && IsUpperHexDigit(s[1])
  {
    HexPair(b as int)
  }

  /** The two digits of a byte read back give the byte. */
  lemma Hex2RoundTrip(b: byte)
    ensures PairValue(Hex2(b)[0], Hex2(b)[1]) == b
  {
    var v := b as int;
    assert 16 * (v / 16) + v % 16 == v;
  }

  /** Upper-case hex text of a byte sequence, two digits per byte. */
  function ToHex(bs: seq<byte>): (s: string)
  {
    if bs == [] then [] else Hex2(bs[0]) + ToHex(bs[1..])
  }

  /** What `bytes.fromhex` accepts in this model: pairs of hex digits, no spaces. */
  predicate IsHexString(s: string) {
    |s| % 2 == 0 && forall i :: 0 <= i < |s| ==> IsHexDigit(s[i])
  }

  /** `bytes.fromhex(s)` for a well-formed hex string. */
  function FromHex(s: string): (bs: seq<byte>)
    requires IsHexString(s)
    ensures |bs| == |s| / 2
  {
    if s == [] then []
    else
      var rest := FromHex(s[2..]);
      [PairValue(s[0], s[1])] + rest
  }

  lemma {:induction false} ToHexIsHex(bs: seq<byte>)
    ensures |ToHex(bs)| == 2 * |bs|
    ensures forall i :: 0 <= i < |ToHex(bs)| ==> IsUpperHexDigit(ToHex(bs)[i])
  {
    if bs != [] {
      ToHexIsHex(bs[1..]);
    }
  }

  /** Reading back the hex text of a byte sequence gives the same bytes. */
  lemma {:induction false} FromHexToHex(bs: seq<byte>)
    ensures IsHexString(ToHex(bs)) && FromHex(ToHex(bs)) == bs
  {
    if bs != [] {
      FromHexToHex(bs[1..]);
      var h := Hex2(bs[0]);
      assert IsHexString(h);
      assert FromHex(h) == [PairValue(h[0], h[1])] by {
        assert h[2..] == [];
      }
      Hex2RoundTrip(bs[0]);
      FromHexAppend(h, ToHex(bs[1..]));
      assert bs == [bs[0]] + bs[1..];
    }
  }

  /** Hex text followed by hex text is hex text. */
  lemma HexAppend(a: string, b: string)
    requires IsHexString(a) && IsHexString(b)
    ensures IsHexString(a + b)
  {
    forall i | 0 <= i < |a + b|
      ensures IsHexDigit((a + b)[i])
    {
      if i < |a| {
        assert (a + b)[i] == a[i];
      } else {
        assert (a + b)[i] == b[i - |a|];
      }
    }
  }

  lemma {:induction false} FromHexAppend(a: string, b: string)
    requires IsHexString(a) && IsHexString(b)
    ensures IsHexString(a + b) && FromHex(a + b) == FromHex(a) + FromHex(b)
    decreases |a|
  {
    HexAppend(a, b);
    if a != [] {
      assert (a + b)[2..] == a[2..] + b;
      assert (a + b)[0] == a[0] && (a + b)[1] == a[1];
      FromHexAppend(a[2..], b);
    } else {
      assert a + b == b;
    }
  }

  lemma {:induction false} ToHexAppend(a: seq<byte>, b: seq<byte>)
    ensures ToHex(a + b) == ToHex(a) + ToHex(b)
  {
    if a != [] {
      assert (a + b)[1..] == a[1..] + b;
      ToHexAppend(a[1..], b);
    } else {
      assert a + b == b;
    }
  }
}
