/** The byte-safe truncation of a selection before it is quoted to an employee. */
module EditorContext {
  import opened Utf8

  const BYTE_ORDER_MARK: Scalar := 0xFEFF

  /** What the platform's TextDecoder yields for well-formed bytes: it drops one leading byte order mark. */
  function TextDecode(bytes: seq<Byte>): Text
    requires Decode(bytes).Some?
  {
    var text := Decode(bytes).value;
    if text != [] && text[0] == BYTE_ORDER_MARK then text[1..] else text
  }

  /** How many whole code points of `s` fit in `limit` bytes. */
  function Fitting(s: Text, limit: nat): (k: nat)
    ensures k <= |s|
  {
    if s == [] || Width(s[0]) > limit then 0 else 1 + Fitting(s[1..], limit - Width(s[0]))
  }

  lemma {:induction false} EncodedLengths(s: Text, j: nat, k: nat)
    requires j <= k <= |s|
    ensures |Encode(s[..j])| <= |Encode(s[..k])|
    ensures j < k ==> |Encode(s[..j])| + Width(s[j]) <= |Encode(s[..k])|
    decreases k
  {
    hide EncodeOne;
    if j < k {
      assert s[..k] == s[..j] + [s[j]] + s[j + 1..k];
      EncodeConcat(s[..j] + [s[j]], s[j + 1..k]);
      EncodeConcat(s[..j], [s[j]]);
      EncodeOneShape(s[j]);
      assert Encode([s[j]]) == EncodeOne(s[j]);
    }
  }

  lemma {:induction false} FittingFits(s: Text, limit: nat)
    ensures var k := Fitting(s, limit);
      |Encode(s[..k])| <= limit && (k < |s| ==> |Encode(s[..k])| + Width(s[k]) > limit)
  {
    hide EncodeOne;
    if s != [] && Width(s[0]) <= limit {
      var k := Fitting(s, limit);
      FittingFits(s[1..], limit - Width(s[0]));
      assert s[..k][1..] == s[1..][..k - 1];
      EncodeOneShape(s[0]);
    }
  }

  /** `Fitting` is the length of the longest prefix whose encoding fits, and it leaves fewer than four bytes unused. */
  lemma FittingIsLongest(s: Text, limit: nat, j: nat)
    requires j <= |s|
    ensures |Encode(s[..j])| <= limit <==> j <= Fitting(s, limit)
    ensures Fitting(s, limit) < |s| ==> limit - |Encode(s[..Fitting(s, limit)])| <= 3
  {
    hide EncodeOne;
    var k := Fitting(s, limit);
    FittingFits(s, limit);
    if j <= k {
      EncodedLengths(s, j, k);
    } else {
      EncodedLengths(s, k, j);
    }
  }

  /** The bytes of the code point at `k` within the encoding of the whole text. */
  lemma CodePointBytes(s: Text, k: nat)
    requires k < |s|
    ensures var at := |Encode(s[..k])|;
      at + Width(s[k]) <= |Encode(s)| && !Continuation(Encode(s)[at])
      && forall p :: at < p < at + Width(s[k]) ==> Continuation(Encode(s)[p])
    ensures Encode(s)[..|Encode(s[..k])|] == Encode(s[..k])
  {
    hide EncodeOne;
    EncodeOneShape(s[k]);
    assert s == s[..k] + s[k..] && s[k..][0] == s[k];
    EncodeConcat(s[..k], s[k..]);
    var at, e := |Encode(s[..k])|, EncodeOne(s[k]);
    assert Encode(s[k..]) == e + Encode(s[k..][1..]);
    assert Encode(s) == Encode(s[..k]) + (e + Encode(s[k..][1..]));
    assert forall p :: at <= p < at + |e| ==> Encode(s)[p] == e[p - at];
  }

  /**
   The truncation keeps exactly the longest prefix of whole code points that fits, unless it truncates a text that
   starts with a byte order mark the limit has room for: the decoder drops that mark.
   */
  method TruncateUtf8Bytes(s: Text, maxBytes: nat) returns (text: Text, truncated: bool)
    ensures truncated <==> |Encode(s)| > maxBytes
    ensures truncated ==> s != [] && Decode(Encode(s[..Fitting(s, maxBytes)])).Some?
    ensures truncated ==> text == TextDecode(Encode(s[..Fitting(s, maxBytes)]))
    ensures text == s[..Fitting(s, maxBytes)] <==>
      !(s != [] && |Encode(s)| > maxBytes && s[0] == BYTE_ORDER_MARK && maxBytes >= 3)
  {
    hide EncodeOne, Decode;
    var bytes := Encode(s);
    ghost var k := Fitting(s, maxBytes);
    FittingIsLongest(s, maxBytes, |s|);
    assert s[..|s|] == s;
    if |bytes| <= maxBytes {
      return s, false;
    }
    FittingFits(s, maxBytes);
    CodePointBytes(s, k);
    var end := maxBytes;
    while end > 0 && Continuation(bytes[end])
      invariant |Encode(s[..k])| <= end <= maxBytes
    {
      end := end - 1;
    }
    assert bytes[..end] == Encode(s[..k]);
    DecodeEncode(s[..k]);
    return TextDecode(bytes[..end]), true;
  }

  /** A selection that starts with a byte order mark loses it when it is cut. */
  lemma MarkIsLost()
    ensures var s: Text := [BYTE_ORDER_MARK, 'a' as int, 'b' as int];
      |Encode(s)| > 4 && s[..Fitting(s, 4)] == [BYTE_ORDER_MARK, 'a' as int]
      && Decode(Encode(s[..Fitting(s, 4)])).Some? && TextDecode(Encode(s[..Fitting(s, 4)])) == ['a' as int]
  {
    hide EncodeOne, Decode;
    var s: Text := [BYTE_ORDER_MARK, 'a' as int, 'b' as int];
    var t: Text := ['a' as int, 'b' as int];
    assert s[1..] == t && t[1..] == ['b' as int];
    EncodeOneShape(s[0]);
    EncodeOneShape(s[1]);
    EncodeOneShape(s[2]);
    assert |Encode(t[1..])| == 1 && |Encode(t)| == 2 && |Encode(s)| == 5;
    assert Fitting(t[1..], 0) == 0 && Fitting(t, 1) == 1 && Fitting(s, 4) == 2;
    DecodeEncode(s[..2]);
  }
}
