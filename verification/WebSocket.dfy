/** The WebSocket client: a receive buffer over a transport that delivers bytes in chunks of its own choosing. */
module WebSocket {
  import opened Wrappers
  import opened Utf8
  import opened Sequences
  import opened Frames

  const RECV_SIZE := 65536

  /** A connected socket: the bytes still to arrive before the peer closes, and what was sent, call by call. */
  class Transport {
    var incoming: Bytes
    var sent: seq<Bytes>

    constructor (incoming: Bytes)
      ensures this.incoming == incoming && sent == []
    {
      this.incoming := incoming;
      sent := [];
    }

    /** Any non-empty part of what is still to arrive, at most `max` bytes; empty once the peer has closed. */
    method Recv(max: nat) returns (chunk: Bytes)
      requires max > 0
      modifies this`incoming
      ensures chunk + incoming == old(incoming) && |chunk| <= max
      ensures chunk == [] <==> old(incoming) == []
    {
      if incoming == [] {
        return [];
      }
      var k :| 1 <= k <= |incoming| && k <= max;
      chunk := incoming[..k];
      incoming := incoming[k..];
    }

    method SendAll(data: Bytes)
      modifies this`sent
      ensures sent == old(sent) + [data]
    {
      sent := sent + [data];
    }
  }

  /** `frame` is the wire form of a frame sent by this client under some mask. */
  ghost predicate IsSent(frame: Bytes, opcode: nat, payload: Bytes)
  {
    exists mask :: Sends(frame, opcode, payload, mask)
  }

  ghost predicate Sends(frame: Bytes, opcode: nat, payload: Bytes, mask: Bytes)
  {
    |mask| == 4 && ValidFrame(SentFrame(opcode, payload, mask)) && frame == Wire(SentFrame(opcode, payload, mask))
  }

  /** Where the mask of a client frame begins. */
  function MaskAt(n: nat): nat
  {
    if n < 126 then 2 else if n < 65536 then 4 else 10
  }

  /**
   The bytes of a client frame, by their positions (section 5.2): final, masked, its length in the shortest form, then
   the mask, then the payload combined with it.
   */
  ghost predicate IsClientFrame(frame: Bytes, opcode: nat, payload: Bytes)
  {
    var n, k := |payload|, MaskAt(|payload|);
    && |frame| == k + 4 + n && frame[0] == 128 + opcode
    && (n < 126 ==> frame[1] == 128 + n)
    && (126 <= n < 65536 ==> frame[1] == 254 && frame[2] as int * 256 + frame[3] == n)
    && (65536 <= n ==> frame[1] == 255 && BigEndian(frame[2..10]) == n)
    && forall j :: 0 <= j < n ==> Combined(frame[k + 4 + j], payload[j], frame[k + j % 4])
  }

  /** The wire form of a sent frame is that. */
  lemma SentBytes(frame: Bytes, opcode: nat, payload: Bytes)
    requires IsSent(frame, opcode, payload)
    ensures IsClientFrame(frame, opcode, payload)
  {
    var mask :| Sends(frame, opcode, payload, mask);
    FirstBytes(opcode, payload, mask);
    Layout(frame, opcode, payload, mask);
    CarriedBytes(frame, mask, payload, MaskAt(|payload|));
    hide FirstByte, SecondByte, BigEndian, ToBigEndian, Masked, Combined, ValidFrame, Wire;
    var f := SentFrame(opcode, payload, mask);
    assert frame[..2][0] == FirstByte(f) && frame[..2][1] == SecondByte(f);
    LengthBytes(frame, |payload|, f.form);
  }

  lemma Layout(frame: Bytes, opcode: nat, payload: Bytes, mask: Bytes)
    requires Sends(frame, opcode, payload, mask)
    ensures var f, k := SentFrame(opcode, payload, mask), MaskAt(|payload|);
      && k == 2 + Extra(f.form) && |frame| == k + 4 + |payload|
      && frame[..2] == [FirstByte(f), SecondByte(f)] && frame[2..k] == ToBigEndian(|payload|, Extra(f.form))
      && frame[k..k + 4] == mask && frame[k + 4..] == Masked(mask, payload)
  {
    hide FirstByte, SecondByte, ToBigEndian, Masked;
    var f := SentFrame(opcode, payload, mask);
    var head, length, carried :=
      [FirstByte(f), SecondByte(f)], ToBigEndian(|payload|, Extra(f.form)), Masked(mask, payload);
    Assoc(head, length, mask);
    Assoc(head, length + mask, carried);
    Assoc(length, mask, carried);
    Parts(head, length, mask, carried);
  }

  lemma CarriedBytes(frame: Bytes, mask: Bytes, payload: Bytes, k: nat)
    requires |mask| == 4 && |frame| == k + 4 + |payload|
    requires frame[k..k + 4] == mask && frame[k + 4..] == Masked(mask, payload)
    ensures forall j :: 0 <= j < |payload| ==> Combined(frame[k + 4 + j], payload[j], frame[k + j % 4])
  {
    MaskedMeaning(mask, payload);
    hide Masked, Combined;
    forall j | 0 <= j < |payload|
      ensures Combined(frame[k + 4 + j], payload[j], frame[k + j % 4])
    {
      assert frame[k + 4 + j] == frame[k + 4..][j];
      assert frame[k + j % 4] == frame[k..k + 4][j % 4];
    }
  }

  lemma FirstBytes(opcode: nat, payload: Bytes, mask: Bytes)
    requires |mask| == 4 && ValidFrame(SentFrame(opcode, payload, mask))
    ensures var f, n := SentFrame(opcode, payload, mask), |payload|;
      && FirstByte(f) == 128 + opcode && Extra(f.form) == MaskAt(n) - 2 && n < Pow256(8)
      && (n < 126 ==> SecondByte(f) == 128 + n)
      && (126 <= n < 65536 ==> SecondByte(f) == 254)
      && (65536 <= n ==> SecondByte(f) == 255)
  {
    assert Pow256(2) == 65536;
  }

  lemma LengthBytes(frame: Bytes, n: nat, form: LengthForm)
    requires n < Pow256(8) && |frame| >= 2 + Extra(form)
    requires Extra(form) == MaskAt(n) - 2
    requires frame[2..2 + Extra(form)] == ToBigEndian(n, Extra(form))
    ensures 126 <= n < 65536 ==> frame[2] as int * 256 + frame[3] == n
    ensures 65536 <= n ==> BigEndian(frame[2..10]) == n
  {
    if 65536 <= n {
      BigEndianInverts(n, 8);
    } else if 126 <= n {
      assert Pow256(2) == 65536;
      BigEndianInverts(n, 2);
      var two := frame[2..4];
      assert two[..1][..0] == [] && two[..1] == [two[0]];
      assert BigEndian(two) == 256 * BigEndian(two[..1]) + two[1];
    }
  }

  /** `now` is `before` with one pong for each ping, in order and with its payload. */
  ghost predicate Ponged(before: seq<Bytes>, now: seq<Bytes>, pings: seq<Bytes>)
  {
    && |now| == |before| + |pings| && now[..|before|] == before
    && forall i :: 0 <= i < |pings| ==> IsSent(now[|before| + i], PONG, pings[i])
  }

  /** `bytes.decode()`: strict UTF-8. */
  function TextOf(message: Bytes): Result<Text, Error>
  {
    var text := Decode(message);
    if text.Some? then Ok(text.value) else Err(NotUtf8)
  }

  function Joined(parts: seq<Bytes>): Bytes
  {
    if parts == [] then [] else parts[0] + Joined(parts[1..])
  }

  lemma {:induction false} JoinedSnoc(parts: seq<Bytes>, last: Bytes)
    ensures Joined(parts + [last]) == Joined(parts) + last
  {
    if parts == [] {
      assert parts + [last] == [last] && [last][1..] == [];
      assert last + [] == last && [] + last == last;
    } else {
      JoinedSnoc(parts[1..], last);
      assert (parts + [last])[1..] == parts[1..] + [last];
      Assoc(parts[0], Joined(parts[1..]), last);
    }
  }

  lemma PongedSnoc(before: seq<Bytes>, mid: seq<Bytes>, now: seq<Bytes>, pings: seq<Bytes>, payload: Bytes)
    requires Ponged(before, mid, pings)
    requires |now| == |mid| + 1 && now[..|mid|] == mid && IsSent(now[|mid|], PONG, payload)
    ensures Ponged(before, now, pings + [payload])
  {
    hide IsSent;
    assert now[..|before|] == now[..|mid|][..|before|];
    forall i | 0 <= i < |pings + [payload]|
      ensures IsSent(now[|before| + i], PONG, (pings + [payload])[i])
    {
      assert i < |pings| ==> now[|before| + i] == now[..|mid|][|before| + i];
    }
  }

  /** Every answer is a pong frame, opcode 10, with the payload of its ping. */
  lemma PongFrames(before: seq<Bytes>, now: seq<Bytes>, pings: seq<Bytes>)
    requires Ponged(before, now, pings)
    ensures forall i :: 0 <= i < |pings| ==> IsClientFrame(now[|before| + i], 10, pings[i])
  {
    hide IsSent, IsClientFrame;
    forall i | 0 <= i < |pings|
      ensures IsClientFrame(now[|before| + i], 10, pings[i])
    {
      SentBytes(now[|before| + i], 10, pings[i]);
    }
  }

  lemma AnsweringTwice(pings: seq<Bytes>, payload: Bytes, r: Received)
    ensures Answering(pings, Answering([payload], r)) == Answering(pings + [payload], r)
  {
    Assoc(pings, [payload], r.pings);
  }

  class WebSocket {
    const sock: Transport
    var buf: Bytes

    /** All that was or will be delivered and is not yet consumed. */
    ghost function Unread(): Bytes
      reads this, sock
    {
      buf + sock.incoming
    }

    /** A connection whose handshake response was followed by `early` bytes of the stream. */
    constructor (sock: Transport, early: Bytes)
      ensures this.sock == sock && buf == early
    {
      this.sock := sock;
      buf := early;
    }

    method RecvExact(n: nat) returns (r: Option<Bytes>)
      modifies this`buf, sock`incoming
      ensures r.Some? <==> n <= |old(Unread())|
      ensures r.Some? ==> r.value == old(Unread())[..n] && Unread() == old(Unread())[n..]
      ensures r.None? ==> Unread() == old(Unread())
    {
      while |buf| < n
        invariant Unread() == old(Unread())
        decreases |sock.incoming|
      {
        ghost var before, waiting := buf, sock.incoming;
        var chunk := sock.Recv(if RECV_SIZE >= n - |buf| then RECV_SIZE else n - |buf|);
        if chunk == [] {
          assert waiting == [] && sock.incoming == [];
          return None;
        }
        Assoc(before, chunk, sock.incoming);
        buf := buf + chunk;
      }
      r := Some(buf[..n]);
      assert Unread()[..n] == buf[..n] && Unread()[n..] == buf[n..] + sock.incoming;
      buf := buf[n..];
    }

    method SendFrame(opcode: nat, payload: Bytes) returns (ok: bool)
      requires opcode < 16
      modifies sock`sent
      ensures ok <==> |payload| < Pow256(8)
      ensures ok ==> |sock.sent| == |old(sock.sent)| + 1 && sock.sent[..|old(sock.sent)|] == old(sock.sent)
      ensures ok ==> IsSent(sock.sent[|old(sock.sent)|], opcode, payload)
      ensures ok ==> IsClientFrame(sock.sent[|old(sock.sent)|], opcode, payload)
      ensures !ok ==> sock.sent == old(sock.sent)
    {
      assert Pow256(2) == 65536 && Pow256(8) == 0x1_0000_0000_0000_0000;
      var n := |payload|;
      var header: Bytes := [128 + opcode];
      if n < 126 {
        header := header + [128 + n];
      } else if n < 65536 {
        header := header + [128 + 126] + ToBigEndian(n, 2);
      } else if n < 0x1_0000_0000_0000_0000 {
        header := header + [128 + 127] + ToBigEndian(n, 8);
      } else {
        return false;
      }
      var m0: Byte, m1: Byte, m2: Byte, m3: Byte := *, *, *, *;
      var mask := [m0, m1, m2, m3];
      assert header ==
        [128 + opcode, SecondByte(SentFrame(opcode, payload, mask))] + ToBigEndian(n, Extra(ShortestForm(n)));
      assert Sends(header + mask + Masked(mask, payload), opcode, payload, mask);
      SentBytes(header + mask + Masked(mask, payload), opcode, payload);
      hide IsClientFrame;
      sock.SendAll(header + mask + Masked(mask, payload));
      return true;
    }

    /** The next frame header. */
    method RecvHeader() returns (r: Option<Header>)
      modifies this`buf, sock`incoming
      ensures r.Some? <==> ParseHeader(old(Unread())).Some?
      ensures r.Some? ==> ParseHeader(old(Unread())) == Some((r.value, Unread()))
    {
      hide BigEndian, FinOf, ReservedOf, OpcodeOf, IsMasked;
      ghost var u := Unread();
      var first := RecvExact(2);
      if first.None? {
        return None;
      }
      var b0, b1 := first.value[0], first.value[1];
      assert b0 == u[0] && b1 == u[1];
      ghost var k := 2 + Extra(FormOf(b1));
      var n: nat := ShortLength(b1);
      if n == 126 {
        var ext := RecvExact(2);
        if ext.None? {
          return None;
        }
        assert ext.value == u[2..k];
        n := BigEndian(ext.value);
      } else if n == 127 {
        var ext := RecvExact(8);
        if ext.None? {
          return None;
        }
        assert ext.value == u[2..k];
        n := BigEndian(ext.value);
      }
      assert Unread() == u[k..] && (k > 2 ==> n == BigEndian(u[2..k]));
      var mask: Option<Bytes> := None;
      if IsMasked(b1) {
        mask := RecvExact(4);
        if mask.None? {
          return None;
        }
        assert mask.value == u[k..k + 4];
      }
      assert Unread() == u[HeaderSize(b1)..] && (IsMasked(b1) ==> mask == Some(u[k..k + 4]));
      r := Some(Header(FinOf(b0), ReservedOf(b0), OpcodeOf(b0), FormOf(b1), n, mask));
    }

    /**
     One message: the joined data payloads of the run of frames that comes next, decoded. Every ping on the way is
     answered; whatever follows the message stays unread.
     */
    method RecvMessage() returns (r: Result<Text, Error>, ghost pings: seq<Bytes>)
      modifies this`buf, sock
      ensures Ponged(old(sock.sent), sock.sent, pings)
      ensures match Receive(old(Unread()), [], 0)
        case Failed(error, answered) => r == Err(error) && pings == answered
        case Got(message, answered, rest) =>
          r == TextOf(message) && pings == answered && Unread() == rest
    {
      hide Receive, ParseHeader, Masked, TextOf, Ponged, IsSent, Answering, Pow256;
      var parts: seq<Bytes> := [];
      var total: nat := 0;
      pings := [];
      StartReading(sock.sent, Receive(Unread(), [], 0));
      while true
        invariant Ponged(old(sock.sent), sock.sent, pings)
        invariant Receive(old(Unread()), [], 0) == Answering(pings, Receive(Unread(), Joined(parts), total))
        decreases |Unread()|
      {
        ReceiveStep(Unread(), Joined(parts), total, pings);
        var header := RecvHeader();
        if header.None? {
          return Err(ClosedByBrowser), pings;
        }
        var h := header.value;
        total := total + h.length;
        if total > MAX_MESSAGE_BYTES {
          return Err(TooLarge), pings;
        }
        var carried := RecvExact(h.length);
        if carried.None? {
          return Err(ClosedByBrowser), pings;
        }
        var payload := if h.mask.Some? then Masked(h.mask.value, carried.value) else carried.value;
        if h.opcode == CLOSE {
          return Err(ClosedByBrowser), pings;
        }
        if h.opcode == PING {
          ghost var mid := sock.sent;
          PongFits(payload);
          var ok := SendFrame(PONG, payload);
          PongedSnoc(old(sock.sent), mid, sock.sent, pings, payload);
          pings := pings + [payload];
          continue;
        }
        if h.opcode == PONG {
          continue;
        }
        JoinedSnoc(parts, payload);
        parts := parts + [payload];
        if h.fin {
          return TextOf(Joined(parts)), pings;
        }
      }
    }
  }

  lemma StartReading(sent: seq<Bytes>, r: Received)
    ensures Ponged(sent, sent, []) && Joined([]) == [] && Answering([], r) == r
  {
  }

  lemma PongFits(payload: Bytes)
    requires |payload| <= MAX_MESSAGE_BYTES
    ensures |payload| < Pow256(8)
  {
    assert Pow256(4) == 65536 * 65536 && Pow256(8) == Pow256(4) * 65536 * 65536;
  }

  /** One frame of `Receive`, under the pings answered so far. */
  lemma ReceiveStep(u: Bytes, parts: Bytes, total: nat, pings: seq<Bytes>)
    ensures Answering(pings, Receive(u, parts, total)) ==
      var parsed := ParseHeader(u);
      if parsed.None? then Failed(ClosedByBrowser, pings)
      else
        var (h, t) := parsed.value;
        if total + h.length > MAX_MESSAGE_BYTES then Failed(TooLarge, pings)
        else if h.length > |t| || h.opcode == CLOSE then Failed(ClosedByBrowser, pings)
        else
          var payload, rest := Unmasked(h.mask, t[..h.length]), t[h.length..];
          if h.opcode == PING then Answering(pings + [payload], Receive(rest, parts, total + h.length))
          else if h.opcode == PONG then Answering(pings, Receive(rest, parts, total + h.length))
          else if h.fin then Got(parts + payload, pings, rest)
          else Answering(pings, Receive(rest, parts + payload, total + h.length))
  {
    hide ParseHeader, Unmasked;
    if ParseHeader(u).Some? {
      var (h, t) := ParseHeader(u).value;
      if total + h.length <= MAX_MESSAGE_BYTES && h.length <= |t| {
        AnsweringTwice(pings, Unmasked(h.mask, t[..h.length]), Receive(t[h.length..], parts, total + h.length));
      }
    }
  }

  /** What the reader does with a short unmasked frame, by its first byte: how a server's frames are told apart. */
  lemma ServerFrame(b0: Byte, payload: Bytes, tail: Bytes, parts: Bytes, total: nat)
    requires |payload| < 126 && total + |payload| <= MAX_MESSAGE_BYTES
    ensures var r, now := Receive([b0, |payload|] + (payload + tail), parts, total), total + |payload|;
      && (b0 in {0x80, 0x81, 0x82} ==> r == Got(parts + payload, [], tail))
      && (b0 in {0x00, 0x01, 0x02} ==> r == Receive(tail, parts + payload, now))
      && (b0 == 0x88 ==> r == Failed(ClosedByBrowser, []))
      && (b0 == 0x89 ==> r == Answering([payload], Receive(tail, parts, now)))
      && (b0 == 0x8A ==> r == Receive(tail, parts, now))
  {
    hide Receive;
    if b0 in {0x80, 0x81, 0x82, 0x00, 0x01, 0x02, 0x88, 0x89, 0x8A} {
      var f := Frame(b0 >= 128, 0, b0 % 128, Short, None, payload);
      ReceiveFrame(f, tail, parts, total);
      assert Wire(f) == [b0, |payload|] + payload by { assert ToBigEndian(|payload|, 0) == []; }
      Assoc([b0, |payload|], payload, tail);
    }
  }

  /** A text sent by one side is the text the other side's reader returns, with nothing after it consumed. */
  lemma TextRoundTrip(text: Text, mask: Bytes, tail: Bytes)
    requires |mask| == 4 && |Encode(text)| <= MAX_MESSAGE_BYTES
    ensures ValidFrame(SentFrame(1, Encode(text), mask))
    ensures Receive(Wire(SentFrame(1, Encode(text), mask)) + tail, [], 0) == Got(Encode(text), [], tail)
    ensures TextOf(Encode(text)) == Ok(text)
  {
    hide Receive, Wire, Encode, Decode;
    SentIsReceived(1, Encode(text), mask, tail);
    DecodeEncode(text);
  }

  /** A message is refused as text exactly when it is no encoding of one. */
  lemma TextOfMeaning(message: Bytes, text: Text)
    ensures TextOf(message) == Ok(text) <==> message == Encode(text)
  {
    hide Encode, Decode;
    DecodeEncode(text);
    if Decode(message).Some? {
      EncodeDecode(message);
    }
  }
}
