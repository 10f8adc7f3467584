/** UTF-8, the character encoding Python's `quote_plus` applies to a `str`
    before percent-encoding it. A Dafny `char` is a Unicode scalar value, so
    every string has an encoding; the decoder is strict (it rejects overlong
    forms, surrogates, truncated and stray continuation bytes). */
module Utf8 {
  import opened Wrappers

  type Byte = b: int | 0 <= b < 0x100

  /** A continuation byte, 10xxxxxx. */
  predicate IsContinuation(b: Byte) {
    0x80 <= b < 0xC0
  }

  /** The shortest UTF-8 form of one scalar value. */
  function EncodeChar(c: char): (bs: seq<Byte>)
    ensures 1 <= |bs| <= 4
    ensures (|bs| == 1) == (c as int < 0x80)
    ensures forall i :: 1 <= i < |bs| ==> IsContinuation(bs[i])
  {
    var n := c as int;
    if n < 0x80 then
      [n]
    else if n < 0x800 then
      [0xC0 + n / 0x40, 0x80 + n % 0x40]
    else if n < 0x1_0000 then
      [0xE0 + n / 0x1000, 0x80 + n / 0x40 % 0x40, 0x80 + n % 0x40]
    else
      [0xF0 + n / 0x4_0000, 0x80 + n / 0x1000 % 0x40, 0x80 + n / 0x40 % 0x40, 0x80 + n % 0x40]
  }

  /** The UTF-8 encoding of a whole string: the characters' encodings, in order. */
  function Encode(s: string): (bs: seq<Byte>)
    ensures |s| <= |bs| <= 4 * |s|
  {
    if |s| == 0 then [] else EncodeChar(s[0]) + Encode(s[1..])
  }

  /** The scalar value at the head of `bs` and how many bytes it takes, or
      None when the head is not a well-formed shortest encoding. */
  function DecodeFirst(bs: seq<Byte>): (r: Option<(char, nat)>)
    requires |bs| > 0
    ensures r.Some? ==> 1 <= r.value.1 <= 4 && r.value.1 <= |bs|
  {
    var b0: int := bs[0];
    if b0 < 0x80 then
      Some((b0 as char, 1))
    else if 0xC2 <= b0 < 0xE0 then
      if |bs| >= 2 && IsContinuation(bs[1]) then
        Some((((b0 - 0xC0) * 0x40 + (bs[1] as int - 0x80)) as char, 2))
      else None
    else if 0xE0 <= b0 < 0xF0 then
      if |bs| >= 3 && IsContinuation(bs[1]) && IsContinuation(bs[2]) then
        var n := (b0 - 0xE0) * 0x1000 + (bs[1] as int - 0x80) * 0x40 + (bs[2] as int - 0x80);
        if 0x800 <= n && !(0xD800 <= n < 0xE000) then Some((n as char, 3)) else None
      else None
    else if 0xF0 <= b0 < 0xF5 then
      if |bs| >= 4 && IsContinuation(bs[1]) && IsContinuation(bs[2]) && IsContinuation(bs[3]) then
        var n := (b0 - 0xF0) * 0x4_0000 + (bs[1] as int - 0x80) * 0x1000 + (bs[2] as int - 0x80) * 0x40 + (bs[3] as int - 0x80);
        if 0x1_0000 <= n < 0x11_0000 then Some((n as char, 4)) else None
      else None
    else
      None
  }

  /** Strict UTF-8 decoding of a byte sequence. */
  function Decode(bs: seq<Byte>): (r: Result<string, string>)
    decreases |bs|
  {
    if |bs| == 0 then Success([])
    else
      match DecodeFirst(bs)
      case None => Failure("invalid UTF-8")
      case Some((c, k)) =>
        var rest :- Decode(bs[k..]);
        Success([c] + rest)
  }

  /** Decoding the head of an encoded character gives that character back,
      whatever bytes follow it. */
  lemma DecodeFirstEncodeChar(c: char, rest: seq<Byte>)
    ensures DecodeFirst(EncodeChar(c) + rest) == Some((c, |EncodeChar(c)|))
  {
    var n := c as int;
    if n < 0x80 {
    } else if n < 0x800 {
      DecodeFirstEncodeTwo(c, rest);
    } else if n < 0x1_0000 {
      DecodeFirstEncodeThree(c, rest);
    } else {
      DecodeFirstEncodeFour(c, rest);
    }
  }

  /** `n` split into its low six bits and the rest, nested once or twice. */
  lemma Digits(n: nat)
    ensures n == n / 0x40 * 0x40 + n % 0x40
    ensures n / 0x1000 == n / 0x40 / 0x40
    ensures n / 0x4_0000 == n / 0x1000 / 0x40
  {
    DivMod64(n / 0x40 / 0x40, n / 0x40 % 0x40);
    DivMod64(n / 0x1000 / 0x40, n / 0x1000 % 0x40);
  }

  lemma DecodeFirstEncodeTwo(c: char, rest: seq<Byte>)
    requires 0x80 <= c as int < 0x800
    ensures DecodeFirst(EncodeChar(c) + rest) == Some((c, 2))
  {
    var n := c as int;
    Digits(n);
    var bs := EncodeChar(c) + rest;
    assert bs[0] == 0xC0 + n / 0x40 && bs[1] == 0x80 + n % 0x40;
  }

  lemma DecodeFirstEncodeThree(c: char, rest: seq<Byte>)
    requires 0x800 <= c as int < 0x1_0000
    ensures DecodeFirst(EncodeChar(c) + rest) == Some((c, 3))
  {
    var n := c as int;
    Digits(n);
    Digits(n / 0x40);
    var hi, mid, lo := n / 0x1000, n / 0x40 % 0x40, n % 0x40;
    assert n == hi * 0x1000 + mid * 0x40 + lo;
    var bs := EncodeChar(c) + rest;
    assert bs[0] == 0xE0 + hi && bs[1] == 0x80 + mid && bs[2] == 0x80 + lo;
  }

  lemma DecodeFirstEncodeFour(c: char, rest: seq<Byte>)
    requires 0x1_0000 <= c as int
    ensures DecodeFirst(EncodeChar(c) + rest) == Some((c, 4))
  {
    var n := c as int;
    Digits(n);
    Digits(n / 0x40);
    Digits(n / 0x1000);
    var top, hi, mid, lo := n / 0x4_0000, n / 0x1000 % 0x40, n / 0x40 % 0x40, n % 0x40;
    assert n == top * 0x4_0000 + hi * 0x1000 + mid * 0x40 + lo;
    var bs := EncodeChar(c) + rest;
    assert bs[0] == 0xF0 + top && bs[1] == 0x80 + hi && bs[2] == 0x80 + mid && bs[3] == 0x80 + lo;
  }

  /** Decoding undoes encoding: UTF-8 loses nothing of a string. */
  lemma {:induction false} DecodeEncode(s: string)
    ensures Decode(Encode(s)) == Success(s)
  {
    if |s| > 0 {
      var head, tail := EncodeChar(s[0]), Encode(s[1..]);
      DecodeFirstEncodeChar(s[0], tail);
      assert (head + tail)[|head|..] == tail;
      DecodeEncode(s[1..]);
      DecodeStep(head + tail);
      assert [s[0]] + s[1..] == s;
    }
  }

  /** One step of the decoder: the head character, then the decoding of
      the rest; the whole decodes exactly when the rest does. */
  lemma DecodeStep(bs: seq<Byte>)
    requires |bs| > 0 && DecodeFirst(bs).Some?
    ensures Decode(bs).Success? <==> Decode(bs[DecodeFirst(bs).value.1..]).Success?
    ensures Decode(bs).Success? ==>
      Decode(bs).value == [DecodeFirst(bs).value.0] + Decode(bs[DecodeFirst(bs).value.1..]).value
  {
  }

  /** Whatever head the decoder accepts is exactly the encoding of the
      character it returns: the decoder admits shortest forms only. */
  lemma EncodeCharDecodeFirst(bs: seq<Byte>)
    requires |bs| > 0 && DecodeFirst(bs).Some?
    ensures EncodeChar(DecodeFirst(bs).value.0) == bs[..DecodeFirst(bs).value.1]
  {
    if bs[0] < 0x80 {
      assert bs[..1] == [bs[0]];
    } else if bs[0] < 0xE0 {
      EncodeCharDecodeTwo(bs);
    } else if bs[0] < 0xF0 {
      EncodeCharDecodeThree(bs);
    } else {
      EncodeCharDecodeFour(bs);
    }
  }

  lemma DivMod64(q: int, r: int)
    requires 0 <= r < 0x40
    ensures (q * 0x40 + r) / 0x40 == q && (q * 0x40 + r) % 0x40 == r
  {
  }

  lemma EncodeCharDecodeTwo(bs: seq<Byte>)
    requires |bs| > 0 && 0x80 <= bs[0] < 0xE0 && DecodeFirst(bs).Some?
    ensures EncodeChar(DecodeFirst(bs).value.0) == bs[..2]
  {
    var x0, x1 := bs[0] as int - 0xC0, bs[1] as int - 0x80;
    var n := x0 * 0x40 + x1;
    assert DecodeFirst(bs).value.0 as int == n;
    DivMod64(x0, x1);
    assert bs[..2] == [bs[0], bs[1]];
  }

  lemma EncodeCharDecodeThree(bs: seq<Byte>)
    requires |bs| > 0 && 0xE0 <= bs[0] < 0xF0 && DecodeFirst(bs).Some?
    ensures EncodeChar(DecodeFirst(bs).value.0) == bs[..3]
  {
    var x0, x1, x2 := bs[0] as int - 0xE0, bs[1] as int - 0x80, bs[2] as int - 0x80;
    var n := (x0 * 0x40 + x1) * 0x40 + x2;
    assert DecodeFirst(bs).value.0 as int == n;
    DivMod64(x0 * 0x40 + x1, x2);
    DivMod64(x0, x1);
    assert n / 0x1000 == n / 0x40 / 0x40;
    assert bs[..3] == [bs[0], bs[1], bs[2]];
  }

  lemma EncodeCharDecodeFour(bs: seq<Byte>)
    requires |bs| > 0 && 0xF0 <= bs[0] && DecodeFirst(bs).Some?
    ensures EncodeChar(DecodeFirst(bs).value.0) == bs[..4]
  {
    var x0, x1, x2, x3 := bs[0] as int - 0xF0, bs[1] as int - 0x80, bs[2] as int - 0x80, bs[3] as int - 0x80;
    var n := ((x0 * 0x40 + x1) * 0x40 + x2) * 0x40 + x3;
    assert DecodeFirst(bs).value.0 as int == n;
    DivMod64((x0 * 0x40 + x1) * 0x40 + x2, x3);
    DivMod64(x0 * 0x40 + x1, x2);
    DivMod64(x0, x1);
    assert n / 0x1000 == n / 0x40 / 0x40;
    assert n / 0x4_0000 == n / 0x40 / 0x40 / 0x40;
    assert bs[..4] == [bs[0], bs[1], bs[2], bs[3]];
  }

  /** Encoding undoes decoding: a byte sequence the decoder accepts is the
      encoding of the string it yields, so the two form a bijection between
      strings and well-formed UTF-8. */
  lemma {:induction false} EncodeDecode(bs: seq<Byte>)
    requires Decode(bs).Success?
    ensures Encode(Decode(bs).value) == bs
    decreases |bs|
  {
    if |bs| > 0 {
      var c, k := DecodeFirst(bs).value.0, DecodeFirst(bs).value.1;
      DecodeStep(bs);
      EncodeDecode(bs[k..]);
      EncodeCharDecodeFirst(bs);
      EncodeHeadTail(bs, c, k, Decode(bs[k..]).value);
    }
  }

  /** The encoding of a concatenation is the concatenation of the encodings. */
  lemma {:induction false} EncodeAppend(s: string, t: string)
    ensures Encode(s + t) == Encode(s) + Encode(t)
  {
    if |s| > 0 {
      assert (s + t)[1..] == s[1..] + t;
      EncodeAppend(s[1..], t);
    } else {
      assert s + t == t;
    }
  }

  /** A head character's bytes followed by a tail's bytes make up `bs`. */
  lemma EncodeHeadTail(bs: seq<Byte>, c: char, k: nat, tail: string)
    requires k <= |bs| && EncodeChar(c) == bs[..k] && Encode(tail) == bs[k..]
    ensures Encode([c] + tail) == bs
  {
    EncodeCons(c, tail);
    assert bs == bs[..k] + bs[k..];
  }

  /** `EncodeAppend` with a one-character head. */
  lemma EncodeCons(c: char, s: string)
    ensures Encode([c] + s) == EncodeChar(c) + Encode(s)
  {
    EncodeAppend([c], s);
    assert Encode([c]) == EncodeChar(c) + Encode([]);
  }

  /** Encoding is one-to-one, so distinct strings never share an encoding. */
  lemma EncodeInjective(s: string, t: string)
    requires Encode(s) == Encode(t)
    ensures s == t
  {
    DecodeEncode(s);
    DecodeEncode(t);
  }
}
