/** UTF-8 (RFC 3629, section 3) on Unicode scalar values, with a strict decoder. */
module Utf8 {
  import opened Wrappers
  import opened Sequences

  predicate IsScalar(c: int)
  {
    0 <= c < 0x11_0000 && !(0xD800 <= c < 0xE000)
  }

  type Byte = x: int | 0 <= x < 256
  type Scalar = c: int | IsScalar(c)
  type Text = seq<Scalar>

  /** The number of bytes a scalar value takes. */
  function Width(c: Scalar): (w: nat)
  {
    if c < 0x80 then 1 else if c < 0x800 then 2 else if c < 0x1_0000 then 3 else 4
  }

  predicate Continuation(b: Byte)
  {
    0x80 <= b < 0xC0
  }

  /** `x` without its low six bits. */
  function High(x: nat): (h: nat)
    ensures 64 * h <= x < 64 * h + 64
  {
    x / 64
  }

  /** The continuation byte with the low six bits of `x`. */
  function Cont(x: nat): (b: Byte)
    ensures b == 0x80 + x - 64 * High(x)
  {
    0x80 + x % 64
  }

  function EncodeOne(c: Scalar): seq<Byte>
  {
    assert IsScalar(c);
    var x := High(c);
    if c < 0x80 then [c]
    else if c < 0x800 then [0xC0 + x, Cont(c)]
    else if c < 0x1_0000 then [0xE0 + High(x), Cont(x), Cont(c)]
    else [0xF0 + High(High(x)), Cont(High(x)), Cont(x), Cont(c)]
  }

  lemma EncodeOneShape(c: Scalar)
    ensures var e := EncodeOne(c);
      |e| == Width(c) >= 1 && !Continuation(e[0]) && forall i :: 1 <= i < |e| ==> Continuation(e[i])
  {
  }

  /** The bytes of a scalar value, as the table of RFC 3629, section 3, lays out its bits. */
  lemma EncodeOneMeaning(c: Scalar)
    ensures 0 <= c <= 0xD7FF || 0xE000 <= c <= 0x10FFFF
    ensures c <= 0x7F ==> EncodeOne(c) == [c]
    ensures 0x80 <= c <= 0x7FF ==> EncodeOne(c) == [0xC0 + c / 64, 0x80 + c % 64]
    ensures 0x800 <= c <= 0xFFFF ==> EncodeOne(c) == [0xE0 + c / 4096, 0x80 + c / 64 % 64, 0x80 + c % 64]
    ensures 0x1_0000 <= c ==>
      EncodeOne(c) == [0xF0 + c / 262144, 0x80 + c / 4096 % 64, 0x80 + c / 64 % 64, 0x80 + c % 64]
  {
    assert IsScalar(c);
    assert c / 64 / 64 == c / 4096 && c / 4096 / 64 == c / 262144;
  }

  /** Every code point outside the surrogates is a scalar value. */
  lemma ScalarMeaning(c: int)
    ensures IsScalar(c) <==> 0 <= c <= 0xD7FF || 0xE000 <= c <= 0x10FFFF
  {
  }

  function Encode(text: Text): seq<Byte>
  {
    if text == [] then [] else EncodeOne(text[0]) + Encode(text[1..])
  }

  /** The number a lead byte and its continuation bytes spell; -1 when they spell none. */
  function Spelled(b: seq<Byte>, width: nat): int
    requires 1 <= width <= 4
  {
    if |b| < width || exists i :: 1 <= i < width && !Continuation(b[i]) then -1
    else if width == 1 then b[0]
    else if width == 2 then (b[0] as int - 0xC0) * 64 + (b[1] as int - 0x80)
    else if width == 3 then ((b[0] as int - 0xE0) * 64 + (b[1] as int - 0x80)) * 64 + (b[2] as int - 0x80)
    else (((b[0] as int - 0xF0) * 64 + (b[1] as int - 0x80)) * 64 + (b[2] as int - 0x80)) * 64 + (b[3] as int - 0x80)
  }

  /** The sequence length a lead byte announces; 0 for a byte that leads nothing. */
  function LeadWidth(b: Byte): nat
  {
    if b < 0x80 then 1
    else if b < 0xC0 then 0
    else if b < 0xE0 then 2
    else if b < 0xF0 then 3
    else if b < 0xF8 then 4
    else 0
  }

  /** The scalar value that starts `b`: no surrogate, nothing above U+10FFFF, no longer form than needed. */
  function DecodeOne(b: seq<Byte>): (r: Option<Scalar>)
    requires b != []
  {
    var width := LeadWidth(b[0]);
    if width == 0 then None
    else
      var c := Spelled(b, width);
      if IsScalar(c) && Width(c) == width then Some(c) else None
  }

  function Decode(b: seq<Byte>): Option<Text>
  {
    if b == [] then Some([])
    else
      var first := DecodeOne(b);
      if first.None? || Width(first.value) > |b| then None
      else
        var rest := Decode(b[Width(first.value)..]);
        if rest.None? then None else Some([first.value] + rest.value)
  }

  lemma HighOf(h: nat, low: nat)
    requires low < 64
    ensures High(h * 64 + low) == h && Cont(h * 64 + low) == 0x80 + low
  {
  }

  lemma EncodesTwo(c: Scalar, b: seq<Byte>)
    requires Width(c) == 2 && |b| >= 2 && c == (b[0] as int - 0xC0) * 64 + (b[1] as int - 0x80)
    requires 0xC0 <= b[0] && Continuation(b[1])
    ensures EncodeOne(c) == b[..2]
  {
    hide High, Cont;
    HighOf(b[0] as int - 0xC0, b[1] as int - 0x80);
    assert b[..2] == [b[0], b[1]];
  }

  lemma EncodesThree(c: Scalar, b: seq<Byte>)
    requires Width(c) == 3 && |b| >= 3
    requires c == ((b[0] as int - 0xE0) * 64 + (b[1] as int - 0x80)) * 64 + (b[2] as int - 0x80)
    requires 0xE0 <= b[0] && Continuation(b[1]) && Continuation(b[2])
    ensures EncodeOne(c) == b[..3]
  {
    hide High, Cont;
    var h := (b[0] as int - 0xE0) * 64 + (b[1] as int - 0x80);
    HighOf(b[0] as int - 0xE0, b[1] as int - 0x80);
    HighOf(h, b[2] as int - 0x80);
    assert b[..3] == [b[0], b[1], b[2]];
  }

  lemma EncodesFour(c: Scalar, b: seq<Byte>)
    requires Width(c) == 4 && |b| >= 4
    requires c == (((b[0] as int - 0xF0) * 64 + (b[1] as int - 0x80)) * 64 + (b[2] as int - 0x80)) * 64
                  + (b[3] as int - 0x80)
    requires 0xF0 <= b[0] && Continuation(b[1]) && Continuation(b[2]) && Continuation(b[3])
    ensures EncodeOne(c) == b[..4]
  {
    hide High, Cont;
    var h := (b[0] as int - 0xF0) * 64 + (b[1] as int - 0x80);
    HighOf(b[0] as int - 0xF0, b[1] as int - 0x80);
    HighOf(h, b[2] as int - 0x80);
    HighOf(h * 64 + (b[2] as int - 0x80), b[3] as int - 0x80);
    assert b[..4] == [b[0], b[1], b[2], b[3]];
  }

  lemma DecodeOneMeaning(b: seq<Byte>)
    requires b != [] && DecodeOne(b).Some?
    ensures EncodeOne(DecodeOne(b).value) <= b
  {
    hide EncodeOne, Continuation;
    var c, w := DecodeOne(b).value, LeadWidth(b[0]);
    assert forall i :: 1 <= i < w ==> Continuation(b[i]);
    if w == 1 {
      EncodesOne(b[0]);
    } else if w == 2 {
      EncodesTwo(c, b);
    } else if w == 3 {
      EncodesThree(c, b);
    } else {
      EncodesFour(c, b);
    }
  }

  lemma EncodesOne(c: Scalar)
    requires c < 0x80
    ensures EncodeOne(c) == [c]
  {
  }

  lemma EncodeOneDecodes(c: Scalar, tail: seq<Byte>)
    ensures DecodeOne(EncodeOne(c) + tail) == Some(c)
  {
    EncodeOneShape(c);
    hide High, Cont;
    var b := EncodeOne(c) + tail;
    assert forall i :: 0 <= i < Width(c) ==> b[i] == EncodeOne(c)[i];
    assert IsScalar(c) && Spelled(b, Width(c)) == c;
  }

  /** Decoding undoes encoding. */
  lemma {:induction false} DecodeEncode(text: Text)
    ensures Decode(Encode(text)) == Some(text)
  {
    hide EncodeOne, DecodeOne;
    if text != [] {
      var c, rest := text[0], Encode(text[1..]);
      EncodeOneShape(c);
      EncodeOneDecodes(c, rest);
      DecodeEncode(text[1..]);
      assert (EncodeOne(c) + rest)[Width(c)..] == rest;
      assert [c] + text[1..] == text;
    }
  }

  lemma EncodeNothing()
    ensures Encode([]) == []
  {
  }

  lemma EncodeCons(c: Scalar, text: Text)
    ensures Encode([c] + text) == EncodeOne(c) + Encode(text)
  {
    hide EncodeOne;
    assert ([c] + text)[1..] == text;
  }

  /** The decoder accepts nothing but encodings. */
  lemma {:induction false} EncodeDecode(b: seq<Byte>)
    requires Decode(b).Some?
    ensures Encode(Decode(b).value) == b
    decreases |b|
  {
    hide EncodeOne, DecodeOne, Width, Encode;
    if b == [] {
      EncodeNothing();
    } else {
      DecodeOneMeaning(b);
      var c := DecodeOne(b).value;
      EncodeOneShape(c);
      var rest := b[Width(c)..];
      EncodeDecode(rest);
      EncodeCons(c, Decode(rest).value);
      assert b == b[..Width(c)] + rest;
    }
  }

  lemma {:induction false} EncodeConcat(a: Text, b: Text)
    ensures Encode(a + b) == Encode(a) + Encode(b)
  {
    hide EncodeOne;
    if a == [] {
      assert a + b == b;
    } else {
      EncodeConcat(a[1..], b);
      assert (a + b)[1..] == a[1..] + b && (a + b)[0] == a[0];
      Assoc(EncodeOne(a[0]), Encode(a[1..]), Encode(b));
    }
  }
}
