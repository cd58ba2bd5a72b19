/**
 * Hex rendering of the SHA-256 digest of the admin password, on both sides.
 * The client renders each byte with `b.toString(16).padStart(2, '0')` and joins
 * the pieces; the server renders its own digest with Go's `fmt.Sprintf("%x", ...)`.
 * The login succeeds only if the two strings are equal, so the model proves the
 * two renderings agree and that equal strings mean equal digests. The digest
 * itself is an abstract byte sequence: SHA-256 is not part of this model.
 */
module Hex {
  import opened Wrappers
  import Text

  newtype byte = b: int | 0 <= b < 256

  /** The lowercase hex digit of a value below 16. */
  function HexDigit(d: nat): (c: char)
    requires d < 16
    ensures IsLowerHex(c)
  {
    if d < 10 then ('0' as int + d) as char else ('a' as int + d - 10) as char
  }

  predicate IsLowerHex(c: char)
  {
    '0' <= c <= '9' || 'a' <= c <= 'f'
  }

  function HexValue(c: char): (d: nat)
    requires IsLowerHex(c)
    ensures d < 16
  {
    if c <= '9' then c as int - '0' as int else c as int - 'a' as int + 10
  }

  lemma HexValueOfDigit(d: nat)
    requires d < 16
    ensures HexValue(HexDigit(d)) == d
  {
  }

  /** The value of a string of lowercase hex digits, most significant first. */
  function HexNumber(s: string): nat
    requires forall i :: 0 <= i < |s| ==> IsLowerHex(s[i])
  {
    if s == [] then 0 else HexNumber(s[..|s| - 1]) * 16 + HexValue(s[|s| - 1])
  }

  /** JavaScript's `Number.prototype.toString(16)` on a non-negative integer: no leading zeros. */
  function ToRadix16(n: nat): (r: string)
    ensures forall i :: 0 <= i < |r| ==> IsLowerHex(r[i])
    ensures HexNumber(r) == n
    ensures |r| == 1 <==> n < 16
    ensures r != [] && (|r| > 1 ==> r[0] != '0')
  {
    if n < 16 then
      HexValueOfDigit(n);
      [HexDigit(n)]
    else
      var r := ToRadix16(n / 16) + [HexDigit(n % 16)];
      assert r[..|r| - 1] == ToRadix16(n / 16);
      HexValueOfDigit(n % 16);
      r
  }

  function Repeat(c: char, n: nat): (r: string)
    ensures |r| == n && forall i :: 0 <= i < n ==> r[i] == c
  {
    if n == 0 then [] else [c] + Repeat(c, n - 1)
  }

  /** JavaScript's `String.prototype.padStart(width, fill)` with a one-character fill. */
  function PadStart(s: string, width: nat, fill: char): (r: string)
    ensures |r| == if |s| >= width then |s| else width
    ensures Text.HasSuffix(r, s)
    ensures forall i :: 0 <= i < |r| - |s| ==> r[i] == fill
  {
    if |s| >= width then s else Repeat(fill, width - |s|) + s
  }

  /**
   * One byte of the client's digest, `b.toString(16).padStart(2, '0')`: always
   * two lowercase digits, high nibble first, which read back as the byte.
   */
  function ByteHex(b: byte): (r: string)
    ensures r == [HexDigit(b as nat / 16), HexDigit(b as nat % 16)]
    ensures HexValue(r[0]) * 16 + HexValue(r[1]) == b as nat
  {
    var n := b as nat;
    assert n >= 16 ==> ToRadix16(n / 16) == [HexDigit(n / 16)];
    HexValueOfDigit(n / 16);
    HexValueOfDigit(n % 16);
    PadStart(ToRadix16(n), 2, '0')
  }

  /** The client's digest string (Login.tsx): the byte strings joined with ''. */
  function DigestHex(bytes: seq<byte>): (r: string)
    ensures |r| == 2 * |bytes|
    ensures forall i :: 0 <= i < |r| ==> IsLowerHex(r[i])
  {
    if bytes == [] then ""
    else
      var head, tail := ByteHex(bytes[0]), DigestHex(bytes[1..]);
      LowerHexConcat(head, tail);
      head + tail
  }

  /** Joining two lowercase hex strings gives a lowercase hex string. */
  lemma LowerHexConcat(a: string, b: string)
    requires forall i :: 0 <= i < |a| ==> IsLowerHex(a[i])
    requires forall i :: 0 <= i < |b| ==> IsLowerHex(b[i])
    ensures forall i :: 0 <= i < |a + b| ==> IsLowerHex((a + b)[i])
  {
    forall i | |a| <= i < |a + b| ensures IsLowerHex((a + b)[i]) {
      assert (a + b)[i] == b[i - |a|];
    }
  }

  /** Go's `%x` verb on a byte array: the high then the low nibble of each byte, lowercase. */
  function GoHex(bytes: seq<byte>): (r: string)
    ensures |r| == 2 * |bytes|
    ensures forall i :: 0 <= i < |r| ==> IsLowerHex(r[i])
  {
    if bytes == [] then ""
    else [HexDigit(bytes[0] as nat / 16), HexDigit(bytes[0] as nat % 16)] + GoHex(bytes[1..])
  }

  /** The client's rendering is the server's `%x`, for every digest. */
  lemma {:induction false} DigestHexIsGoHex(bytes: seq<byte>)
    ensures DigestHex(bytes) == GoHex(bytes)
  {
    if bytes != [] {
      DigestHexIsGoHex(bytes[1..]);
    }
  }

  /** The client's rendering of a digest matches `%x` of another exactly when the two digests are equal. */
  lemma DigestHexMatchesGoHex(a: seq<byte>)
    ensures forall d :: DigestHex(d) == GoHex(a) <==> d == a
  {
    forall d ensures DigestHex(d) == GoHex(a) <==> d == a {
      DigestHexIsGoHex(d);
      GoHexInjective(d, a);
    }
  }

  /** Reads back a lowercase hex string of even length into bytes. */
  function HexDecode(s: string): (r: Option<seq<byte>>)
  {
    if s == [] then Some([])
    else if |s| < 2 || !IsLowerHex(s[0]) || !IsLowerHex(s[1]) then None
    else
      match HexDecode(s[2..])
      case None => None
      case Some(rest) => Some([(HexValue(s[0]) * 16 + HexValue(s[1])) as byte] + rest)
  }

  lemma {:induction false} HexDecodeGoHex(bytes: seq<byte>)
    ensures HexDecode(GoHex(bytes)) == Some(bytes)
  {
    if bytes != [] {
      var s := GoHex(bytes);
      var n := bytes[0] as nat;
      HexValueOfDigit(n / 16);
      HexValueOfDigit(n % 16);
      assert s[2..] == GoHex(bytes[1..]);
      HexDecodeGoHex(bytes[1..]);
      assert [bytes[0]] + bytes[1..] == bytes;
    }
  }

  /** Two digests render to the same string exactly when they are the same digest. */
  lemma GoHexInjective(a: seq<byte>, b: seq<byte>)
    ensures GoHex(a) == GoHex(b) <==> a == b
  {
    if GoHex(a) == GoHex(b) {
      HexDecodeGoHex(a);
      HexDecodeGoHex(b);
    }
  }
}
