/**
 * UTF-8 encoding of strings, as Rust's `str::as_bytes` produces it and
 * `String::from_utf8` checks it. Rust strings are UTF-8 byte vectors, and
 * both the key-length rules and the decryption path work on those bytes.
 */
module Utf8 {
  import opened Wrappers

  type byte = x: int | 0 <= x < 256

  predicate IsContinuation(b: byte) {
    0x80 <= b < 0xC0
  }

  /** How many bytes the encoding of `c` takes, by the ranges of the standard. */
  function Width(c: char): nat {
    var n := c as int;
    if n < 0x80 then 1 else if n < 0x800 then 2 else if n < 0x1_0000 then 3 else 4
  }

  /** The one-to-four byte encoding of a Unicode scalar value. */
  function EncodeChar(c: char): (bs: seq<byte>)
    ensures |bs| == Width(c)
    ensures (c as int < 0x80) <==> |bs| == 1
  {
    var n := c as int;
    if n < 0x80 then [n]
    else if n < 0x800 then [0xC0 + n / 0x40, 0x80 + n % 0x40]
    else if n < 0x1_0000 then [0xE0 + n / 0x1000, 0x80 + (n / 0x40) % 0x40, 0x80 + n % 0x40]
    else [0xF0 + n / 0x4_0000, 0x80 + (n / 0x1000) % 0x40, 0x80 + (n / 0x40) % 0x40, 0x80 + n % 0x40]
  }

  /** `s.as_bytes()`. */
  function Encode(s: string): seq<byte>
  {
    if |s| == 0 then [] else EncodeChar(s[0]) + Encode(s[1..])
  }

  /** Rust's `str::len()`: the length in bytes, not in characters. */
  function ByteLen(s: string): nat
  {
    if |s| == 0 then 0 else Width(s[0]) + ByteLen(s[1..])
  }

  lemma {:induction false} ByteLenAppend(a: string, b: string)
    ensures ByteLen(a + b) == ByteLen(a) + ByteLen(b)
    decreases |a|
  {
    if |a| == 0 {
      assert a + b == b;
    } else {
      assert (a + b)[1..] == a[1..] + b;
      ByteLenAppend(a[1..], b);
    }
  }

  /** `str::len()` is the length of `as_bytes()`. */
  lemma {:induction false} ByteLenOfEncode(s: string)
    ensures ByteLen(s) == |Encode(s)|
    decreases |s|
  {
    if |s| > 0 {
      ByteLenOfEncode(s[1..]);
      EncodeCons(s);
    }
  }

  /**
   * Decodes the first character of `bs`, returning it with its width, or
   * None when `bs` does not start with a well-formed sequence (a stray
   * continuation byte, a truncated sequence, an overlong form, a surrogate
   * or a value above U+10FFFF), as the standard's strict decoder requires.
   */
  function DecodeChar(bs: seq<byte>): (r: Option<(char, nat)>)
    ensures r.Some? ==> 1 <= r.value.1 <= |bs| && r.value.1 <= 4
  {
    if |bs| == 0 then None
    else
      var b0 := bs[0] as int;
      if b0 < 0x80 then Some((b0 as char, 1))
      else if 0xC2 <= b0 < 0xE0 then
        if |bs| >= 2 && IsContinuation(bs[1]) then
          Some((((b0 - 0xC0) * 0x40 + (bs[1] as int - 0x80)) as char, 2))
        else None
      else if 0xE0 <= b0 < 0xF0 then
        if |bs| >= 3 && IsContinuation(bs[1]) && IsContinuation(bs[2]) then
          var n := ((b0 - 0xE0) * 0x40 + (bs[1] as int - 0x80)) * 0x40 + (bs[2] as int - 0x80);
          if 0x800 <= n && !(0xD800 <= n < 0xE000) then Some((n as char, 3)) else None
        else None
      else if 0xF0 <= b0 < 0xF5 then
        if |bs| >= 4 && IsContinuation(bs[1]) && IsContinuation(bs[2]) && IsContinuation(bs[3]) then
          var n := (((b0 - 0xF0) * 0x40 + (bs[1] as int - 0x80)) * 0x40 + (bs[2] as int - 0x80)) * 0x40 + (bs[3] as int - 0x80);
          if 0x1_0000 <= n < 0x11_0000 then Some((n as char, 4)) else None
        else None
      else None
  }

  /** `String::from_utf8`: the decoded string, or None when `bs` is not UTF-8. */
  function Decode(bs: seq<byte>): Option<string>
    decreases |bs|
  {
    if |bs| == 0 then Some([])
    else match DecodeChar(bs)
      case None => None
      case Some((c, w)) =>
        match Decode(bs[w..])
        case None => None
        case Some(rest) => Some([c] + rest)
  }

  predicate IsUtf8(bs: seq<byte>) {
    Decode(bs).Some?
  }

  lemma DivModSplit(q: int, r: int)
    requires 0 <= r < 0x40
    ensures (q * 0x40 + r) / 0x40 == q && (q * 0x40 + r) % 0x40 == r
  {
  }

  /** The six-bit groups of a code point, most significant first. */
  lemma Groups(n: int)
    requires n >= 0
    ensures n == (n / 0x40) * 0x40 + n % 0x40
    ensures n / 0x40 == (n / 0x1000) * 0x40 + (n / 0x40) % 0x40
    ensures n / 0x1000 == (n / 0x4_0000) * 0x40 + (n / 0x1000) % 0x40
  {
  }

  lemma DecodeEncode2(c: char, rest: seq<byte>)
    requires 0x80 <= c as int < 0x800
    ensures DecodeChar(EncodeChar(c) + rest) == Some((c, 2))
  {
    var n := c as int;
    var bs := EncodeChar(c) + rest;
    Groups(n);
    assert bs[0] == 0xC0 + n / 0x40 && bs[1] == 0x80 + n % 0x40;
  }

  lemma DecodeEncode3(c: char, rest: seq<byte>)
    requires 0x800 <= c as int < 0x1_0000
    ensures DecodeChar(EncodeChar(c) + rest) == Some((c, 3))
  {
    var n := c as int;
    var bs := EncodeChar(c) + rest;
    Groups(n);
    assert bs[0] == 0xE0 + n / 0x1000;
    assert bs[1] == 0x80 + (n / 0x40) % 0x40 && bs[2] == 0x80 + n % 0x40;
  }

  lemma DecodeEncode4(c: char, rest: seq<byte>)
    requires 0x1_0000 <= c as int
    ensures DecodeChar(EncodeChar(c) + rest) == Some((c, 4))
  {
    var n := c as int;
    var bs := EncodeChar(c) + rest;
    Groups(n);
    assert bs[0] == 0xF0 + n / 0x4_0000;
    assert bs[1] == 0x80 + (n / 0x1000) % 0x40;
    assert bs[2] == 0x80 + (n / 0x40) % 0x40 && bs[3] == 0x80 + n % 0x40;
  }

  /** Decoding the encoding of `c` gives back `c`, whatever follows it. */
  lemma DecodeEncodeChar(c: char, rest: seq<byte>)
    ensures DecodeChar(EncodeChar(c) + rest) == Some((c, |EncodeChar(c)|))
  {
    var n := c as int;
    if n < 0x80 {
    } else if n < 0x800 {
      DecodeEncode2(c, rest);
    } else if n < 0x1_0000 {
      DecodeEncode3(c, rest);
    } else {
      DecodeEncode4(c, rest);
    }
  }

  lemma EncodeDecode2(bs: seq<byte>)
    requires DecodeChar(bs).Some? && DecodeChar(bs).value.1 == 2
    ensures EncodeChar(DecodeChar(bs).value.0) == bs[..2]
  {
    var n := DecodeChar(bs).value.0 as int;
    var a, b := bs[0] as int - 0xC0, bs[1] as int - 0x80;
    assert n == a * 0x40 + b;
    DivModSplit(a, b);
  }

  lemma EncodeDecode3(bs: seq<byte>)
    requires DecodeChar(bs).Some? && DecodeChar(bs).value.1 == 3
    ensures EncodeChar(DecodeChar(bs).value.0) == bs[..3]
  {
    var n := DecodeChar(bs).value.0 as int;
    var a, b, d := bs[0] as int - 0xE0, bs[1] as int - 0x80, bs[2] as int - 0x80;
    var m := a * 0x40 + b;
    assert n == m * 0x40 + d;
    DivModSplit(m, d);
    DivModSplit(a, b);
    Groups(n);
  }

  lemma EncodeDecode4(bs: seq<byte>)
    requires DecodeChar(bs).Some? && DecodeChar(bs).value.1 == 4
    ensures EncodeChar(DecodeChar(bs).value.0) == bs[..4]
  {
    var n := DecodeChar(bs).value.0 as int;
    var a, b := bs[0] as int - 0xF0, bs[1] as int - 0x80;
    var d, e := bs[2] as int - 0x80, bs[3] as int - 0x80;
    var m1 := a * 0x40 + b;
    var m2 := m1 * 0x40 + d;
    assert n == m2 * 0x40 + e;
    DivModSplit(m2, e);
    DivModSplit(m1, d);
    DivModSplit(a, b);
    Groups(n);
  }

  /** A successful decode of a first character re-encodes to exactly its bytes. */
  lemma EncodeDecodeChar(bs: seq<byte>)
    requires DecodeChar(bs).Some?
    ensures EncodeChar(DecodeChar(bs).value.0) == bs[..DecodeChar(bs).value.1]
  {
    var w := DecodeChar(bs).value.1;
    if w == 2 {
      EncodeDecode2(bs);
    } else if w == 3 {
      EncodeDecode3(bs);
    } else if w == 4 {
      EncodeDecode4(bs);
    }
  }

  lemma {:induction false} EncodeAppend(a: string, b: string)
    ensures Encode(a + b) == Encode(a) + Encode(b)
    decreases |a|
  {
    if |a| == 0 {
      assert a + b == b;
    } else {
      assert (a + b)[1..] == a[1..] + b;
      EncodeAppend(a[1..], b);
    }
  }

  /** Round trip: `String::from_utf8(s.as_bytes())` is `Ok(s)`. */
  lemma {:induction false} DecodeEncode(s: string)
    ensures Decode(Encode(s)) == Some(s)
    decreases |s|
  {
    if |s| > 0 {
      var bs := Encode(s);
      DecodeEncodeChar(s[0], Encode(s[1..]));
      assert bs[Width(s[0])..] == Encode(s[1..]);
      DecodeEncode(s[1..]);
      assert [s[0]] + s[1..] == s;
    }
  }

  /** A successful decode, one character unfolded. */
  lemma DecodeCons(bs: seq<byte>)
    requires |bs| > 0 && Decode(bs).Some?
    ensures DecodeChar(bs).Some? && Decode(bs[DecodeChar(bs).value.1..]).Some?
    ensures Decode(bs).value == [DecodeChar(bs).value.0] + Decode(bs[DecodeChar(bs).value.1..]).value
  {
  }

  lemma Glue<T>(s: seq<T>, k: nat)
    requires k <= |s|
    ensures s[..k] + s[k..] == s
  {
  }

  lemma EncodeCons(s: string)
    requires |s| > 0
    ensures Encode(s) == EncodeChar(s[0]) + Encode(s[1..])
  {
  }

  /** The converse: a byte string that decodes is the encoding of its decoding. */
  lemma {:induction false} EncodeDecode(bs: seq<byte>)
    requires Decode(bs).Some?
    ensures Encode(Decode(bs).value) == bs
    decreases |bs|
  {
    if |bs| > 0 {
      DecodeCons(bs);
      var (c, w) := DecodeChar(bs).value;
      var s, rest := Decode(bs).value, Decode(bs[w..]).value;
      EncodeDecodeChar(bs);
      EncodeDecode(bs[w..]);
      assert s[0] == c && s[1..] == rest;
      calc {
        Encode(s);
      == { EncodeCons(s); }
        EncodeChar(c) + Encode(rest);
      ==
        bs[..w] + bs[w..];
      == { Glue(bs, w); }
        bs;
      }
    }
  }

  /** Every string of ASCII characters is one byte per character. */
  lemma {:induction false} AsciiByteLen(s: string)
    requires forall i :: 0 <= i < |s| ==> s[i] as int < 0x80
    ensures ByteLen(s) == |s|
    decreases |s|
  {
    if |s| > 0 {
      AsciiByteLen(s[1..]);
    }
  }

  /**
   * `&s[..n]` on a Rust string: the prefix whose encoding is the first `n`
   * bytes, or None when byte `n` is not a character boundary (the slice
   * panics there) or lies beyond the end.
   */
  function PrefixBytes(s: string, n: nat): (r: Option<string>)
    ensures r.Some? ==> r.value <= s && n <= ByteLen(s)
    ensures r.Some? ==> r.value == s[..|r.value|] && ByteLen(r.value) == n
    ensures r.None? ==> forall k :: 0 <= k <= |s| ==> ByteLen(s[..k]) != n
    decreases |s|
  {
    if n == 0 then Some([])
    else if |s| == 0 then None
    else
      var w := Width(s[0]);
      if w > n then
        (assert forall k :: 0 <= k <= |s| ==> ByteLen(s[..k]) != n by {
          forall k | 0 <= k <= |s| ensures ByteLen(s[..k]) != n {
            if k > 0 { assert s[..k][0] == s[0]; }
          }
        }
        None)
      else
        match PrefixBytes(s[1..], n - w)
        case None =>
          (assert forall k :: 0 <= k <= |s| ==> ByteLen(s[..k]) != n by {
            forall k | 0 <= k <= |s| ensures ByteLen(s[..k]) != n {
              if k > 0 {
                assert s[..k][0] == s[0] && s[..k][1..] == s[1..][..k - 1];
              }
            }
          }
          None)
        case Some(t) =>
          assert ([s[0]] + t)[1..] == t;
          Some([s[0]] + t)
  }

  /** The prefix the slice keeps is encoded by exactly the first `n` bytes of the string's encoding. */
  lemma PrefixBytesEncoding(s: string, n: nat)
    requires PrefixBytes(s, n).Some?
    ensures n <= |Encode(s)| && Encode(PrefixBytes(s, n).value) == Encode(s)[..n]
  {
    var r := PrefixBytes(s, n).value;
    ByteLenOfEncode(s);
    assert s == r + s[|r|..];
    EncodeAppend(r, s[|r|..]);
    ByteLenOfEncode(r);
  }

  /**
   * The longest prefix of `s` whose encoding fits in `n` bytes: the cut
   * moves back to the nearest character boundary instead of panicking.
   */
  function TruncateBytes(s: string, n: nat): (r: string)
    ensures r <= s && ByteLen(r) <= n
    ensures ByteLen(s) <= n ==> r == s
    ensures |r| < |s| ==> ByteLen(r) + Width(s[|r|]) > n
    decreases |s|
  {
    if |s| == 0 then []
    else
      var w := Width(s[0]);
      if w > n then []
      else
        var t := TruncateBytes(s[1..], n - w);
        assert ([s[0]] + t)[1..] == t;
        assert |t| < |s[1..]| ==> s[1..][|t|] == s[|t| + 1];
        [s[0]] + t
  }

  /** Where the byte slice does not panic, it cuts where `TruncateBytes` does. */
  lemma {:induction false} PrefixBytesIsTruncate(s: string, n: nat)
    requires PrefixBytes(s, n).Some?
    ensures PrefixBytes(s, n).value == TruncateBytes(s, n)
    decreases |s|
  {
    if n > 0 {
      PrefixBytesIsTruncate(s[1..], n - Width(s[0]));
    } else if |s| > 0 {
      assert Width(s[0]) > 0;
    }
  }

  lemma TruncateCons(s: string, n: nat)
    requires |s| > 0 && Width(s[0]) <= n
    ensures TruncateBytes(s, n) == [s[0]] + TruncateBytes(s[1..], n - Width(s[0]))
  {
  }

  function Min(a: nat, b: nat): nat {
    if a < b then a else b
  }

  /** One ASCII character: the byte cut and the character cut advance together. */
  lemma AsciiTruncateStep(s: string, n: nat)
    requires |s| > 0 && n > 0 && s[0] as int < 0x80
    requires TruncateBytes(s[1..], n - 1) == s[1..][..Min(n - 1, |s| - 1)]
    ensures TruncateBytes(s, n) == s[..Min(n, |s|)]
  {
    TruncateCons(s, n);
    ConsSlice(s, Min(n, |s|));
    assert Min(n, |s|) - 1 == Min(n - 1, |s| - 1);
  }

  lemma ConsSlice(s: string, m: nat)
    requires 0 < m <= |s|
    ensures s[..m] == [s[0]] + s[1..][..m - 1]
  {
  }

  lemma TruncateNothing(s: string, n: nat)
    requires |s| == 0 || n == 0
    ensures TruncateBytes(s, n) == [] == s[..Min(n, |s|)]
  {
    if |s| > 0 { assert Width(s[0]) > n; }
  }

  /** On ASCII text the byte cut is the character cut. */
  lemma {:induction false} AsciiTruncate(s: string, n: nat)
    requires forall i :: 0 <= i < |s| ==> s[i] as int < 0x80
    ensures TruncateBytes(s, n) == s[..Min(n, |s|)]
    decreases |s|
  {
    if |s| > 0 && n > 0 {
      AsciiTruncate(s[1..], n - 1);
      AsciiTruncateStep(s, n);
    } else {
      TruncateNothing(s, n);
    }
  }
}
