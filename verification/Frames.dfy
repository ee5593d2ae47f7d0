/**
 WebSocket frames (RFC 6455, sections 5.2 to 5.5): their bytes on the wire, and what a client that reassembles
 messages makes of a byte stream.
 */
module Frames {
  import opened Wrappers
  import opened Utf8
  import opened Sequences

  type Bytes = seq<Byte>

  const MAX_MESSAGE_BYTES := 8 * 1024 * 1024

  const CLOSE := 0x8
  const PING := 0x9
  const PONG := 0xA

  // ---------- integers and masks ----------

  function Pow256(k: nat): nat
  {
    if k == 0 then 1 else 256 * Pow256(k - 1)
  }

  /** Big-endian bytes as a number (`struct.unpack` with `>H` and `>Q`). */
  function BigEndian(b: Bytes): nat
  {
    if b == [] then 0 else 256 * BigEndian(b[..|b| - 1]) + b[|b| - 1]
  }

  /** A number as `k` big-endian bytes (`struct.pack`). */
  function ToBigEndian(n: nat, k: nat): (b: Bytes)
    ensures |b| == k
  {
    if k == 0 then [] else ToBigEndian(n / 256, k - 1) + [n % 256]
  }

  lemma {:induction false} BigEndianInverts(n: nat, k: nat)
    requires n < Pow256(k)
    ensures BigEndian(ToBigEndian(n, k)) == n
  {
    if k > 0 {
      BigEndianInverts(n / 256, k - 1);
      var b := ToBigEndian(n, k);
      assert b[..|b| - 1] == ToBigEndian(n / 256, k - 1);
    }
  }

  lemma {:induction false} ToBigEndianInverts(b: Bytes)
    ensures BigEndian(b) < Pow256(|b|) && ToBigEndian(BigEndian(b), |b|) == b
  {
    if b != [] {
      var high := b[..|b| - 1];
      ToBigEndianInverts(high);
      assert BigEndian(b) / 256 == BigEndian(high) && BigEndian(b) % 256 == b[|b| - 1];
      assert b == high + [b[|b| - 1]];
    }
  }

  function Pow2(k: nat): (p: nat)
    ensures p > 0
  {
    if k == 0 then 1 else 2 * Pow2(k - 1)
  }

  /** Exclusive or of the low `k` bits. */
  function XorBits(a: nat, b: nat, k: nat): (x: nat)
    ensures x < Pow2(k)
  {
    if k == 0 then 0 else 2 * XorBits(a / 2, b / 2, k - 1) + if a % 2 == b % 2 then 0 else 1
  }

  lemma {:induction false} XorBitsTwice(a: nat, m: nat, k: nat)
    requires a < Pow2(k)
    ensures XorBits(XorBits(a, m, k), m, k) == a
  {
    if k > 0 {
      var x := XorBits(a / 2, m / 2, k - 1);
      XorBitsTwice(a / 2, m / 2, k - 1);
      assert XorBits(a, m, k) / 2 == x;
    }
  }

  function Xor(a: Byte, b: Byte): Byte
  {
    assert Pow2(8) == 256;
    XorBits(a, b, 8)
  }

  lemma XorTwice(a: Byte, m: Byte)
    ensures Xor(Xor(a, m), m) == a
  {
    assert Pow2(8) == 256;
    XorBitsTwice(a, m, 8);
  }

  /** The bit of `n` that counts for two to the power of `i`. */
  function Bit(n: nat, i: nat): nat
  {
    n / Pow2(i) % 2
  }

  lemma BitOfHalf(n: nat, i: nat)
    requires i > 0
    ensures Bit(n, i) == Bit(n / 2, i - 1)
  {
    var p := Pow2(i - 1);
    assert Pow2(i) == 2 * p;
    DivDiv(n, p);
  }

  lemma DivDiv(n: nat, p: nat)
    requires p > 0
    ensures n / (2 * p) == n / 2 / p
  {
    var q, r := n / 2 / p, n / 2 % p;
    assert n / 2 == q * p + r;
    assert n == 2 * (q * p + r) + n % 2;
    assert 2 * (q * p) == q * (2 * p);
    QuotientIs(n, 2 * p, q, 2 * r + n % 2);
  }

  lemma QuotientIs(n: nat, d: nat, q: nat, r: nat)
    requires n == q * d + r && r < d
    ensures n / d == q
  {
    var x := n / d;
    assert n == x * d + n % d;
    if q > x {
      AtLeastOnce(q - x - 1, d);
      Distributes(q, x, d);
    } else if x > q {
      AtLeastOnce(x - q - 1, d);
      Distributes(x, q, d);
    }
  }

  lemma Distributes(q: int, x: int, d: int)
    ensures (q - x) * d == q * d - x * d
  {
  }

  lemma AtLeastOnce(a: nat, d: nat)
    ensures (a + 1) * d >= d
  {
    assert (a + 1) * d == a * d + d;
  }

  /** Bit by bit, the exclusive or of two numbers is where they differ. */
  lemma {:induction false} XorBitsMeaning(a: nat, b: nat, k: nat, i: nat)
    requires i < k
    ensures Bit(XorBits(a, b, k), i) == 1 <==> Bit(a, i) != Bit(b, i)
    decreases k
  {
    hide Bit, XorBits;
    var x := XorBits(a, b, k);
    XorStep(a, b, k);
    if i > 0 {
      XorBitsMeaning(a / 2, b / 2, k - 1, i - 1);
      BitOfHalf(x, i);
      BitOfHalf(a, i);
      BitOfHalf(b, i);
    } else {
      LowestBit(x);
      LowestBit(a);
      LowestBit(b);
    }
  }

  lemma XorStep(a: nat, b: nat, k: nat)
    requires k > 0
    ensures var x := XorBits(a, b, k);
      x / 2 == XorBits(a / 2, b / 2, k - 1) && x % 2 == if a % 2 == b % 2 then 0 else 1
  {
  }

  lemma LowestBit(n: nat)
    ensures Bit(n, 0) == n % 2
  {
  }

  /** `x` is `a` with exactly the bits flipped that are set in `m`: the two differ where `x` has a one. */
  ghost predicate Combined(x: nat, a: nat, m: nat)
  {
    forall i :: 0 <= i < 8 ==> (Bit(x, i) == 1 <==> Bit(a, i) != Bit(m, i))
  }

  lemma XorMeaning(a: Byte, m: Byte)
    ensures Combined(Xor(a, m), a, m)
  {
    hide Bit, XorBits;
    forall i | 0 <= i < 8
      ensures Bit(Xor(a, m), i) == 1 <==> Bit(a, i) != Bit(m, i)
    {
      XorBitsMeaning(a, m, 8, i);
    }
  }

  /** Masked byte `k` is byte `k` combined with mask byte `k` modulo four (section 5.3). */
  lemma MaskedMeaning(mask: Bytes, payload: Bytes)
    requires |mask| == 4
    ensures forall k :: 0 <= k < |payload| ==> Combined(Masked(mask, payload)[k], payload[k], mask[k % 4])
  {
    hide Combined, Xor;
    forall k | 0 <= k < |payload|
      ensures Combined(Masked(mask, payload)[k], payload[k], mask[k % 4])
    {
      XorMeaning(payload[k], mask[k % 4]);
    }
  }

  /** Every byte combined with the mask byte at its position modulo four. */
  function Masked(mask: Bytes, payload: Bytes): (b: Bytes)
    requires |mask| == 4
    ensures |b| == |payload|
  {
    seq(|payload|, i requires 0 <= i < |payload| => Xor(payload[i], mask[i % 4]))
  }

  /** Masking is its own inverse (section 5.3). */
  lemma MaskedTwice(mask: Bytes, payload: Bytes)
    requires |mask| == 4
    ensures Masked(mask, Masked(mask, payload)) == payload
  {
    forall i | 0 <= i < |payload|
      ensures Masked(mask, Masked(mask, payload))[i] == payload[i]
    {
      XorTwice(payload[i], mask[i % 4]);
    }
  }

  // ---------- frames ----------

  /** The three ways of writing a payload length. */
  datatype LengthForm = Short | Medium | Long

  datatype Frame = Frame(fin: bool, reserved: nat, opcode: nat, form: LengthForm, mask: Option<Bytes>, payload: Bytes)

  /** How many length bytes follow the second header byte. */
  function Extra(form: LengthForm): nat
  {
    match form case Short => 0 case Medium => 2 case Long => 8
  }

  predicate Fits(form: LengthForm, n: nat)
  {
    if form.Short? then n < 126 else n < Pow256(Extra(form))
  }

  predicate ValidFrame(f: Frame)
  {
    f.reserved < 8 && f.opcode < 16 && Fits(f.form, |f.payload|) && (f.mask.Some? ==> |f.mask.value| == 4)
  }

  function MaskBytes(f: Frame): Bytes
  {
    if f.mask.Some? then f.mask.value else []
  }

  /** The payload as it travels. */
  function Carried(f: Frame): (b: Bytes)
    requires ValidFrame(f)
    ensures |b| == |f.payload|
  {
    if f.mask.Some? then Masked(f.mask.value, f.payload) else f.payload
  }

  function FirstByte(f: Frame): Byte
    requires ValidFrame(f)
  {
    (if f.fin then 128 else 0) + 16 * f.reserved + f.opcode
  }

  function SecondByte(f: Frame): Byte
    requires ValidFrame(f)
  {
    (if f.mask.Some? then 128 else 0) +
    match f.form case Short => |f.payload| case Medium => 126 case Long => 127
  }

  /** The bytes of a frame up to its payload. */
  function HeaderBytes(f: Frame): Bytes
    requires ValidFrame(f)
  {
    [FirstByte(f), SecondByte(f)] + ToBigEndian(|f.payload|, Extra(f.form)) + MaskBytes(f)
  }

  function Wire(f: Frame): Bytes
    requires ValidFrame(f)
  {
    HeaderBytes(f) + Carried(f)
  }

  // ---------- parsing one header ----------

  datatype Header = Header(fin: bool, reserved: nat, opcode: nat, form: LengthForm, length: nat, mask: Option<Bytes>)

  function FormOf(b1: Byte): LengthForm
  {
    if ShortLength(b1) == 126 then Medium else if ShortLength(b1) == 127 then Long else Short
  }

  function HeaderSize(b1: Byte): nat
  {
    2 + Extra(FormOf(b1)) + if IsMasked(b1) then 4 else 0
  }

  function FinOf(b0: Byte): bool { b0 >= 128 }

  function ReservedOf(b0: Byte): nat { b0 % 128 / 16 }

  function OpcodeOf(b0: Byte): nat { b0 % 16 }

  function IsMasked(b1: Byte): bool { b1 >= 128 }

  function ShortLength(b1: Byte): nat { b1 % 128 }

  /** The header that starts `u`, once all its bytes are there. */
  function ParseHeader(u: Bytes): (r: Option<(Header, Bytes)>)
    ensures r.Some? ==> |r.value.1| < |u| && (r.value.0.mask.Some? ==> |r.value.0.mask.value| == 4)
  {
    if |u| < 2 || |u| < HeaderSize(u[1]) then None
    else
      var k := 2 + Extra(FormOf(u[1]));
      Some((
        Header(
          FinOf(u[0]), ReservedOf(u[0]), OpcodeOf(u[0]), FormOf(u[1]),
          if k == 2 then ShortLength(u[1]) else BigEndian(u[2..k]),
          if IsMasked(u[1]) then Some(u[k..k + 4]) else None),
        u[HeaderSize(u[1])..]))
  }

  function Unmasked(mask: Option<Bytes>, payload: Bytes): (b: Bytes)
    requires mask.Some? ==> |mask.value| == 4
    ensures |b| == |payload|
  {
    if mask.Some? then Masked(mask.value, payload) else payload
  }

  function HeaderOf(f: Frame): Header
  {
    Header(f.fin, f.reserved, f.opcode, f.form, |f.payload|, f.mask)
  }

  lemma HeaderParts(b0: Byte, b1: Byte, length: Bytes, mask: Bytes, rest: Bytes)
    requires |length| == Extra(FormOf(b1)) && |mask| == if IsMasked(b1) then 4 else 0
    ensures ParseHeader([b0, b1] + (length + (mask + rest))) == Some((
      Header(FinOf(b0), ReservedOf(b0), OpcodeOf(b0), FormOf(b1),
        if length == [] then ShortLength(b1) else BigEndian(length),
        if IsMasked(b1) then Some(mask) else None),
      rest))
  {
    hide BigEndian, FormOf, FinOf, ReservedOf, OpcodeOf, IsMasked, ShortLength;
    var u := [b0, b1] + (length + (mask + rest));
    var k := 2 + |length|;
    Parts([b0, b1], length, mask, rest);
    assert u[..2][0] == b0 && u[..2][1] == b1;
    assert FormOf(u[1]) == FormOf(b1);
  }

  lemma HeaderFields(f: Frame)
    requires ValidFrame(f)
    ensures var b0, b1 := FirstByte(f), SecondByte(f);
      && (FinOf(b0) <==> f.fin) && ReservedOf(b0) == f.reserved && OpcodeOf(b0) == f.opcode
      && (IsMasked(b1) <==> f.mask.Some?) && FormOf(b1) == f.form && (f.form.Short? ==> ShortLength(b1) == |f.payload|)
  {
    PartsOfByte(f.fin, f.reserved, f.opcode);
    hide Pow256, FinOf, ReservedOf, OpcodeOf;
  }

  lemma PartsOfByte(fin: bool, reserved: nat, opcode: nat)
    requires reserved < 8 && opcode < 16
    ensures var b := (if fin then 128 else 0) + 16 * reserved + opcode;
      b < 256 && FinOf(b) == fin && ReservedOf(b) == reserved && OpcodeOf(b) == opcode
  {
    var low := 16 * reserved + opcode;
    assert low < 128 && low / 16 == reserved && low % 16 == opcode;
    assert (128 + low) % 128 == low && (128 + low) % 16 == low % 16;
  }

  /** The header parser undoes the header printer. */
  lemma HeaderInverts(f: Frame, rest: Bytes)
    requires ValidFrame(f)
    ensures ParseHeader(HeaderBytes(f) + rest) == Some((HeaderOf(f), rest))
  {
    HeaderFields(f);
    hide ParseHeader, BigEndian, ToBigEndian, FormOf, FirstByte, SecondByte, Pow256;
    hide FinOf, ReservedOf, OpcodeOf, IsMasked, ShortLength;
    var length, mask := ToBigEndian(|f.payload|, Extra(f.form)), MaskBytes(f);
    Assoc([FirstByte(f), SecondByte(f)], length, mask);
    Assoc([FirstByte(f), SecondByte(f)], length + mask, rest);
    Assoc(length, mask, rest);
    HeaderParts(FirstByte(f), SecondByte(f), length, mask, rest);
    if f.form != Short {
      BigEndianInverts(|f.payload|, Extra(f.form));
    }
  }

  lemma WireInverts(f: Frame, tail: Bytes)
    requires ValidFrame(f)
    ensures ParseHeader(Wire(f) + tail) == Some((HeaderOf(f), Carried(f) + tail))
  {
    hide ParseHeader, HeaderBytes, Carried;
    HeaderInverts(f, Carried(f) + tail);
    Assoc(HeaderBytes(f), Carried(f), tail);
  }

  /** The frame behind a parsed header and the bytes that follow it. */
  function FrameOf(h: Header, payload: Bytes): Frame
    requires h.mask.Some? ==> |h.mask.value| == 4
  {
    Frame(h.fin, h.reserved, h.opcode, h.form, h.mask, Unmasked(h.mask, payload))
  }

  lemma HeaderShape(u: Bytes) returns (length: Bytes, mask: Bytes)
    requires ParseHeader(u).Some?
    ensures var (h, t) := ParseHeader(u).value;
      && u == [u[0], u[1]] + (length + (mask + t))
      && |length| == Extra(FormOf(u[1])) && |mask| == (if IsMasked(u[1]) then 4 else 0)
      && h == Header(FinOf(u[0]), ReservedOf(u[0]), OpcodeOf(u[0]), FormOf(u[1]),
                     if length == [] then ShortLength(u[1]) else BigEndian(length),
                     if IsMasked(u[1]) then Some(mask) else None)
  {
    hide BigEndian, FormOf, FinOf, ReservedOf, OpcodeOf, IsMasked, ShortLength;
    var k := 2 + Extra(FormOf(u[1]));
    length, mask := u[2..k], u[k..HeaderSize(u[1])];
    var t := u[HeaderSize(u[1])..];
    assert mask + t == u[k..];
    assert length + u[k..] == u[2..];
    assert u == u[..2] + u[2..] && u[..2] == [u[0], u[1]];
  }

  lemma MaskedBack(h: Header, payload: Bytes)
    requires h.mask.Some? ==> |h.mask.value| == 4
    requires ValidFrame(FrameOf(h, payload))
    ensures Carried(FrameOf(h, payload)) == payload
  {
    if h.mask.Some? {
      MaskedTwice(h.mask.value, payload);
    }
  }

  lemma UnmaskCarried(f: Frame)
    requires ValidFrame(f)
    ensures Unmasked(f.mask, Carried(f)) == f.payload
  {
    if f.mask.Some? {
      MaskedTwice(f.mask.value, f.payload);
    }
  }

  lemma HeaderPrints(b0: Byte, b1: Byte, length: Bytes, mask: Bytes, payload: Bytes)
    requires |length| == Extra(FormOf(b1)) && |mask| == if IsMasked(b1) then 4 else 0
    requires |payload| == if length == [] then ShortLength(b1) else BigEndian(length)
    ensures var f := FrameOf(
        Header(FinOf(b0), ReservedOf(b0), OpcodeOf(b0), FormOf(b1), |payload|,
          if IsMasked(b1) then Some(mask) else None),
        payload);
      ValidFrame(f) && HeaderBytes(f) == [b0, b1] + length + mask
  {
    var h := Header(FinOf(b0), ReservedOf(b0), OpcodeOf(b0), FormOf(b1), |payload|,
                    if IsMasked(b1) then Some(mask) else None);
    FrameFields(h, payload);
    ToBigEndianInverts(length);
    FrameFits(b1, |payload|, length);
    BytesBack(FrameOf(h, payload), b0, b1);
    hide BigEndian, ToBigEndian, FrameOf, FormOf, Extra, Fits, Pow256, FirstByte, SecondByte;
    hide FinOf, ReservedOf, OpcodeOf, IsMasked, ShortLength;
  }

  lemma FrameFields(h: Header, payload: Bytes)
    requires h.mask.Some? ==> |h.mask.value| == 4
    ensures var f := FrameOf(h, payload);
      (f.fin, f.reserved, f.opcode, f.form, f.mask) == (h.fin, h.reserved, h.opcode, h.form, h.mask)
      && |f.payload| == |payload|
  {
  }

  lemma FrameFits(b1: Byte, n: nat, length: Bytes)
    requires |length| == Extra(FormOf(b1)) && n == if length == [] then ShortLength(b1) else BigEndian(length)
    requires BigEndian(length) < Pow256(|length|)
    ensures Fits(FormOf(b1), n) && (length == [] ==> FormOf(b1).Short?)
  {
    hide BigEndian, Pow256;
  }

  /** The first two bytes can be rebuilt from the fields they were split into. */
  lemma BytesBack(f: Frame, b0: Byte, b1: Byte)
    requires ValidFrame(f) && f.fin == FinOf(b0) && f.reserved == ReservedOf(b0) && f.opcode == OpcodeOf(b0)
    requires f.form == FormOf(b1) && f.mask.Some? == IsMasked(b1)
    requires f.form.Short? ==> |f.payload| == ShortLength(b1)
    ensures FirstByte(f) == b0 && SecondByte(f) == b1
  {
    ByteParts(b0);
    ByteParts(b1);
    hide Pow256, FinOf, ReservedOf, OpcodeOf, IsMasked, ShortLength;
  }

  lemma ByteParts(b: Byte)
    ensures b == (if FinOf(b) then 128 else 0) + 16 * ReservedOf(b) + OpcodeOf(b)
    ensures b == (if IsMasked(b) then 128 else 0) + ShortLength(b)
  {
    var x := if b >= 128 then b - 128 else b;
    assert b % 128 == x;
    assert x == 16 * (x / 16) + x % 16;
    assert b % 16 == x % 16;
  }

  /** A parsed header with its payload is the wire form of a valid frame. */
  lemma HeaderSound(u: Bytes)
    requires ParseHeader(u).Some? && ParseHeader(u).value.0.length <= |ParseHeader(u).value.1|
    ensures var (h, t) := ParseHeader(u).value;
      var f := FrameOf(h, t[..h.length]);
      ValidFrame(f) && HeaderOf(f) == h && u == Wire(f) + t[h.length..]
  {
    hide ParseHeader, HeaderBytes, ValidFrame, BigEndian, Carried, Unmasked, FormOf, Extra;
    var (h, t) := ParseHeader(u).value;
    var length, mask := HeaderShape(u);
    var carried, tail := t[..h.length], t[h.length..];
    HeaderPrints(u[0], u[1], length, mask, carried);
    MaskedBack(h, carried);
    assert t == carried + tail;
    Assoc(length, mask, t);
    Assoc([u[0], u[1]], length + mask, t);
    Assoc([u[0], u[1]], length, mask);
    Assoc([u[0], u[1]] + length + mask, carried, tail);
  }

  // ---------- reassembly ----------

  datatype Error = ClosedByBrowser | TooLarge | NotUtf8

  /** What reading one message does: the bytes it returns, the pings it answers, and what it leaves unread. */
  datatype Received =
    | Got(message: Bytes, pings: seq<Bytes>, rest: Bytes)
    | Failed(error: Error, pings: seq<Bytes>)

  /** The message that starts `u`, after data `parts` and frames of `total` payload bytes. */
  ghost function Receive(u: Bytes, parts: Bytes, total: nat): Received
    decreases |u|
  {
    var h := ParseHeader(u);
    if h.None? then Failed(ClosedByBrowser, [])
    else
      var (header, t) := h.value;
      var now := total + header.length;
      if now > MAX_MESSAGE_BYTES then Failed(TooLarge, [])
      else if header.length > |t| then Failed(ClosedByBrowser, [])
      else
        var payload, rest := Unmasked(header.mask, t[..header.length]), t[header.length..];
        if header.opcode == CLOSE then Failed(ClosedByBrowser, [])
        else if header.opcode == PING then Answering([payload], Receive(rest, parts, now))
        else if header.opcode == PONG then Receive(rest, parts, now)
        else if header.fin then Got(parts + payload, [], rest)
        else Receive(rest, parts + payload, now)
  }

  function Answering(pings: seq<Bytes>, r: Received): Received
  {
    r.(pings := pings + r.pings)
  }

  predicate Control(f: Frame) { f.opcode == PING || f.opcode == PONG }

  /** A run of frames that makes up one message: controls before the end, and only the last data frame final. */
  predicate MessageRun(fs: seq<Frame>)
  {
    fs != [] && ValidFrame(fs[0]) && fs[0].opcode != CLOSE &&
    if |fs| == 1 then fs[0].fin && !Control(fs[0])
    else (Control(fs[0]) || !fs[0].fin) && MessageRun(fs[1..])
  }

  function Wires(fs: seq<Frame>): Bytes
    requires forall i :: 0 <= i < |fs| ==> ValidFrame(fs[i])
  {
    if fs == [] then [] else Wire(fs[0]) + Wires(fs[1..])
  }

  /** The payload bytes of every frame of a run, control frames included. */
  function Load(fs: seq<Frame>): nat
  {
    if fs == [] then 0 else |fs[0].payload| + Load(fs[1..])
  }

  function Data(fs: seq<Frame>): Bytes
  {
    if fs == [] then [] else (if Control(fs[0]) then [] else fs[0].payload) + Data(fs[1..])
  }

  function Pings(fs: seq<Frame>): seq<Bytes>
  {
    if fs == [] then [] else (if fs[0].opcode == PING then [fs[0].payload] else []) + Pings(fs[1..])
  }

  lemma {:induction false} RunIsValid(fs: seq<Frame>)
    requires MessageRun(fs)
    ensures forall i :: 0 <= i < |fs| ==> ValidFrame(fs[i])
  {
    if |fs| > 1 {
      RunIsValid(fs[1..]);
      assert forall i :: 1 <= i < |fs| ==> fs[i] == fs[1..][i - 1];
    }
  }

  /** What reading does with one whole frame in front. */
  lemma ReceiveFrame(f: Frame, tail: Bytes, parts: Bytes, total: nat)
    requires ValidFrame(f) && total + |f.payload| <= MAX_MESSAGE_BYTES
    ensures var now := total + |f.payload|;
      Receive(Wire(f) + tail, parts, total) ==
        if f.opcode == CLOSE then Failed(ClosedByBrowser, [])
        else if f.opcode == PING then Answering([f.payload], Receive(tail, parts, now))
        else if f.opcode == PONG then Receive(tail, parts, now)
        else if f.fin then Got(parts + f.payload, [], tail)
        else Receive(tail, parts + f.payload, now)
  {
    hide ParseHeader, Wire, Carried, Unmasked, ValidFrame;
    WireInverts(f, tail);
    UnmaskCarried(f);
    var t := Carried(f) + tail;
    assert t[..|f.payload|] == Carried(f) && t[|f.payload|..] == tail;
  }

  /** A message run is received as its data, with its pings answered in order and every later byte left unread. */
  lemma {:induction false} RunReceived(fs: seq<Frame>, tail: Bytes, parts: Bytes, total: nat)
    requires MessageRun(fs) && total + Load(fs) <= MAX_MESSAGE_BYTES
    requires forall i :: 0 <= i < |fs| ==> ValidFrame(fs[i])
    ensures Receive(Wires(fs) + tail, parts, total) == Got(parts + Data(fs), Pings(fs), tail)
    decreases |fs|
  {
    hide Receive, Wire, ValidFrame;
    var f, rest := fs[0], fs[1..];
    assert Wires(fs) + tail == Wire(f) + (Wires(rest) + tail);
    ReceiveFrame(f, Wires(rest) + tail, parts, total);
    if |fs| == 1 {
      assert Data(fs) == f.payload && Wires(rest) + tail == tail;
    } else if Control(f) {
      RunReceived(rest, tail, parts, total + |f.payload|);
      assert Data(fs) == Data(rest);
    } else {
      RunReceived(rest, tail, parts + f.payload, total + |f.payload|);
      assert (parts + f.payload) + Data(rest) == parts + (f.payload + Data(rest));
    }
  }

  /** `fs` is a run that accounts for all that `r` says about `u`. */
  ghost predicate Explains(fs: seq<Frame>, u: Bytes, parts: Bytes, total: nat, r: Received)
  {
    && r.Got? && MessageRun(fs) && total + Load(fs) <= MAX_MESSAGE_BYTES
    && (forall i :: 0 <= i < |fs| ==> ValidFrame(fs[i]))
    && u == Wires(fs) + r.rest && r.message == parts + Data(fs) && r.pings == Pings(fs)
  }

  /** Conversely, whatever is received as a message was such a run. */
  lemma {:induction false} ReceivedRun(u: Bytes, parts: Bytes, total: nat) returns (fs: seq<Frame>)
    requires Receive(u, parts, total).Got?
    ensures Explains(fs, u, parts, total, Receive(u, parts, total))
    decreases |u|
  {
    hide ValidFrame, Wire, Receive, Explains;
    var f, tail := FirstFrame(u, parts, total);
    ReceiveFrame(f, tail, parts, total);
    if Control(f) {
      var rest := ReceivedRun(tail, parts, total + |f.payload|);
      fs := [f] + rest;
      ExplainsControl(f, rest, tail, parts, total, Receive(tail, parts, total + |f.payload|));
    } else if f.fin {
      fs := [f];
      ExplainsFinal(f, tail, parts, total);
    } else {
      var rest := ReceivedRun(tail, parts + f.payload, total + |f.payload|);
      fs := [f] + rest;
      ExplainsData(f, rest, tail, parts, total, Receive(tail, parts + f.payload, total + |f.payload|));
    }
  }

  lemma ExplainsFinal(f: Frame, tail: Bytes, parts: Bytes, total: nat)
    requires ValidFrame(f) && f.opcode != CLOSE && !Control(f) && f.fin && total + |f.payload| <= MAX_MESSAGE_BYTES
    ensures Explains([f], Wire(f) + tail, parts, total, Got(parts + f.payload, [], tail))
  {
    hide ValidFrame, Wire;
    RunFront(f, []);
    assert [f] + [] == [f];
    Assoc(Wire(f), [], tail);
    Assoc(parts, f.payload, []);
    Assoc<Bytes>([], [], []);
  }

  lemma ExplainsControl(f: Frame, rest: seq<Frame>, tail: Bytes, parts: Bytes, total: nat, r: Received)
    requires ValidFrame(f) && Control(f) && Explains(rest, tail, parts, total + |f.payload|, r)
    ensures Explains(
      [f] + rest, Wire(f) + tail, parts, total, if f.opcode == PING then Answering([f.payload], r) else r)
  {
    hide ValidFrame, Wire;
    RunFront(f, rest);
    Assoc(Wire(f), Wires(rest), r.rest);
    Assoc(parts, [], Data(rest));
    Assoc([], [], Pings(rest));
  }

  lemma ExplainsData(f: Frame, rest: seq<Frame>, tail: Bytes, parts: Bytes, total: nat, r: Received)
    requires ValidFrame(f) && f.opcode != CLOSE && !Control(f) && !f.fin
    requires Explains(rest, tail, parts + f.payload, total + |f.payload|, r)
    ensures Explains([f] + rest, Wire(f) + tail, parts, total, r)
  {
    hide ValidFrame, Wire;
    RunFront(f, rest);
    Assoc(Wire(f), Wires(rest), r.rest);
    Assoc(parts, f.payload, Data(rest));
    Assoc([], [], Pings(rest));
  }

  /** A successful read starts with a whole frame within the limit, and not with a close frame. */
  lemma FirstFrame(u: Bytes, parts: Bytes, total: nat) returns (f: Frame, tail: Bytes)
    requires Receive(u, parts, total).Got?
    ensures ValidFrame(f) && u == Wire(f) + tail && |tail| < |u|
    ensures f.opcode != CLOSE && total + |f.payload| <= MAX_MESSAGE_BYTES
  {
    hide ParseHeader, Wire;
    HeaderSound(u);
    var (h, t) := ParseHeader(u).value;
    f, tail := FrameOf(h, t[..h.length]), t[h.length..];
  }

  /** Everything that is said about a run, for a frame put in front of one. */
  lemma RunFront(f: Frame, rest: seq<Frame>)
    requires ValidFrame(f) && f.opcode != CLOSE
    requires if Control(f) || !f.fin then MessageRun(rest) else rest == []
    requires forall i :: 0 <= i < |rest| ==> ValidFrame(rest[i])
    ensures MessageRun([f] + rest)
    ensures forall i :: 0 <= i < |[f] + rest| ==> ValidFrame(([f] + rest)[i])
    ensures Wires([f] + rest) == Wire(f) + Wires(rest) && Load([f] + rest) == |f.payload| + Load(rest)
    ensures Data([f] + rest) == (if Control(f) then [] else f.payload) + Data(rest)
    ensures Pings([f] + rest) == (if f.opcode == PING then [f.payload] else []) + Pings(rest)
  {
    hide ValidFrame, Wire;
    assert ([f] + rest)[1..] == rest;
  }

  /** A read succeeds exactly on the message runs within the limit; the run determines all that the read does. */
  lemma ReceiveMeaning(u: Bytes, r: Received)
    requires r.Got?
    ensures Receive(u, [], 0) == r <==> exists fs :: Explains(fs, u, [], 0, r)
  {
    hide Receive;
    if Receive(u, [], 0) == r {
      var fs := ReceivedRun(u, [], 0);
    }
    forall fs | Explains(fs, u, [], 0, r)
      ensures Receive(u, [], 0) == r
    {
      RunReceived(fs, r.rest, [], 0);
    }
  }

  // ---------- what this client sends ----------

  function ShortestForm(n: nat): LengthForm
  {
    if n < 126 then Short else if n < 65536 then Medium else Long
  }

  /** The bytes of one frame the client sends: final, masked, with its length in the form the code picks. */
  function SentFrame(opcode: nat, payload: Bytes, mask: Bytes): Frame
  {
    Frame(true, 0, opcode, ShortestForm(|payload|), Some(mask), payload)
  }

  /** The form picked fits, and no form that fits is shorter. */
  lemma ShortestFormIsShortest(n: nat, form: LengthForm)
    requires n < Pow256(8)
    ensures Fits(ShortestForm(n), n)
    ensures Fits(form, n) ==> Extra(ShortestForm(n)) <= Extra(form)
  {
    assert Pow256(2) == 65536;
  }

  /** One byte stream is the wire form of at most one frame: every length form decodes uniquely. */
  lemma WireInjective(f: Frame, g: Frame, s: Bytes, t: Bytes)
    requires ValidFrame(f) && ValidFrame(g) && Wire(f) + s == Wire(g) + t
    ensures f == g && s == t
  {
    hide ParseHeader, Wire, Carried, Unmasked;
    WireInverts(f, s);
    WireInverts(g, t);
    UnmaskCarried(f);
    UnmaskCarried(g);
    var n := |f.payload|;
    assert (Carried(f) + s)[..n] == Carried(f) && (Carried(g) + t)[..n] == Carried(g);
    assert (Carried(f) + s)[n..] == s && (Carried(g) + t)[n..] == t;
  }

  /** Parsing undoes printing: a data frame as the client sends it is read back as its payload. */
  lemma SentIsReceived(opcode: nat, payload: Bytes, mask: Bytes, tail: Bytes)
    requires opcode < 16 && opcode !in {CLOSE, PING, PONG} && |mask| == 4 && |payload| <= MAX_MESSAGE_BYTES
    ensures ValidFrame(SentFrame(opcode, payload, mask))
    ensures Receive(Wire(SentFrame(opcode, payload, mask)) + tail, [], 0) == Got(payload, [], tail)
  {
    assert Pow256(2) == 65536 && Pow256(8) == 65536 * 65536 * 65536 * 65536;
    var f := SentFrame(opcode, payload, mask);
    ReceiveFrame(f, tail, [], 0);
    assert [] + payload == payload;
  }
}
