/** Types shared by every part of the model: optional values, bytes and lower-case hexadecimal text. */
module Common {
  datatype Option<+T> = None | Some(value: T)

  type byte = x: int | 0 <= x < 256

  /** A sequence without its k-th element. */
  function Remove<T>(s: seq<T>, k: nat): seq<T>
    requires k < |s|
  {
    s[..k] + s[k + 1..]
  }

  function HexDigit(n: nat): char
    requires n < 16
  {
    "0123456789abcdef"[n]
  }

  /** Section 8 of RFC 4648, lower case: two characters per byte, most significant half first. */
  function HexEncode(s: seq<byte>): (r: string)
    ensures |r| == 2 * |s|
    ensures forall k :: 0 <= k < |r| ==> r[k] in "0123456789abcdef"
  {
    if s == [] then [] else [HexDigit(s[0] / 16), HexDigit(s[0] % 16)] + HexEncode(s[1..])
  }

  lemma {:induction false} HexDrop(s: seq<byte>, k: nat)
    requires k <= |s|
    ensures HexEncode(s)[2 * k..] == HexEncode(s[k..])
  {
    if k == 0 {
      assert s[0..] == s;
    } else {
      var text := HexEncode(s);
      HexDrop(s[1..], k - 1);
      assert text[2..] == HexEncode(s[1..]);
      assert text[2..][2 * (k - 1)..] == text[2 * k..];
      assert s[1..][k - 1..] == s[k..];
    }
  }

  /** The k-th byte is two characters, its upper and its lower half. */
  lemma HexEncodeAt(s: seq<byte>, k: nat)
    requires k < |s|
    ensures HexEncode(s)[2 * k..][..2] == ["0123456789abcdef"[s[k] / 16], "0123456789abcdef"[s[k] % 16]]
  {
    HexDrop(s, k);
    assert s[k..][0] == s[k];
  }

  lemma HexDigitInjective(m: nat, n: nat)
    requires m < 16 && n < 16 && HexDigit(m) == HexDigit(n)
    ensures m == n
  {
    var digits := "0123456789abcdef";
    assert forall i, j :: 0 <= i < j < 16 ==> digits[i] < digits[j];
  }

  lemma {:induction false} HexInjective(a: seq<byte>, b: seq<byte>)
    requires HexEncode(a) == HexEncode(b)
    ensures a == b
  {
    assert |a| == |b|;
    if a != [] {
      var ra, rb := HexEncode(a), HexEncode(b);
      HexDigitInjective(a[0] / 16, b[0] / 16) by { assert ra[0] == rb[0]; }
      HexDigitInjective(a[0] % 16, b[0] % 16) by { assert ra[1] == rb[1]; }
      assert a[0] == b[0];
      assert HexEncode(a[1..]) == ra[2..] == rb[2..] == HexEncode(b[1..]);
      HexInjective(a[1..], b[1..]);
      assert a == [a[0]] + a[1..] && b == [b[0]] + b[1..];
    }
  }
}
