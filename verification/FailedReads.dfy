/**
 What a read that yields no message has seen: a run of frames without an end, and then bytes that no frame can continue
 within the limit.
 */
module FailedReads {
  import opened Wrappers
  import opened Sequences
  import opened Utf8
  import opened Frames

  /** Frames that a message may begin with and not end: controls and data frames that are not final. */
  predicate OpenRun(fs: seq<Frame>)
  {
    forall i :: 0 <= i < |fs| ==> ValidFrame(fs[i]) && fs[i].opcode != CLOSE && (Control(fs[i]) || !fs[i].fin)
  }

  // ---------- how a read breaks off ----------

  /** The bytes begin with the header of a frame that is too long after `total` payload bytes. */
  ghost predicate TooMuch(t: Bytes, total: nat)
  {
    exists f :: ValidFrame(f) && total + |f.payload| > MAX_MESSAGE_BYTES && HeaderBytes(f) <= t
  }

  /** The bytes begin with a whole frame within the limit. */
  ghost predicate WithinLimit(f: Frame, t: Bytes, total: nat)
  {
    ValidFrame(f) && total + |f.payload| <= MAX_MESSAGE_BYTES && Wire(f) <= t
  }

  ghost predicate Whole(t: Bytes, total: nat)
  {
    exists f :: WithinLimit(f, t, total)
  }

  ghost predicate Closes(t: Bytes, total: nat)
  {
    exists f :: WithinLimit(f, t, total) && f.opcode == CLOSE
  }

  /** A frame that is too long; or else a close frame, or bytes that end before their frame does. */
  ghost predicate Breaks(t: Bytes, total: nat, error: Error)
  {
    match error
    case TooLarge => TooMuch(t, total)
    case ClosedByBrowser => !TooMuch(t, total) && (Closes(t, total) || !Whole(t, total))
    case NotUtf8 => false
  }

  /** `u` is an open run and then bytes that break the read off. */
  ghost predicate BreaksOff(fs: seq<Frame>, t: Bytes, u: Bytes, total: nat, r: Received)
  {
    && r.Failed? && OpenRun(fs) && total + Load(fs) <= MAX_MESSAGE_BYTES
    && u == Wires(fs) + t && r.pings == Pings(fs) && Breaks(t, total + Load(fs), r.error)
  }

  // ---------- the same, read off the header ----------

  lemma TooMuchMeaning(t: Bytes, total: nat)
    ensures var h := ParseHeader(t);
      TooMuch(t, total) <==> h.Some? && total + h.value.0.length > MAX_MESSAGE_BYTES
  {
    hide ParseHeader, ValidFrame, HeaderBytes;
    if f :| ValidFrame(f) && total + |f.payload| > MAX_MESSAGE_BYTES && HeaderBytes(f) <= t {
      HeaderInverts(f, t[|HeaderBytes(f)|..]);
      assert t == HeaderBytes(f) + t[|HeaderBytes(f)|..];
    }
    if ParseHeader(t).Some? && total + ParseHeader(t).value.0.length > MAX_MESSAGE_BYTES {
      var f := SomeFrame(t);
      assert ValidFrame(f) && HeaderBytes(f) <= t;
    }
  }

  /** Every header that can be read is the header of some frame. */
  lemma SomeFrame(t: Bytes) returns (f: Frame)
    requires ParseHeader(t).Some?
    ensures ValidFrame(f) && |f.payload| == ParseHeader(t).value.0.length && HeaderBytes(f) <= t
  {
    hide ParseHeader, HeaderBytes, ValidFrame, BigEndian, Unmasked, FormOf, Extra;
    hide FinOf, ReservedOf, OpcodeOf, IsMasked, ShortLength;
    var (h, rest) := ParseHeader(t).value;
    var length, mask := HeaderShape(t);
    var payload: Bytes := seq(h.length, _ => 0);
    HeaderPrints(t[0], t[1], length, mask, payload);
    f := FrameOf(h, payload);
    FrameFields(h, payload);
    Assoc([t[0], t[1]], length, mask);
    Assoc([t[0], t[1]], length + mask, rest);
    Assoc(length, mask, rest);
    assert t == HeaderBytes(f) + rest;
  }

  lemma FrameAhead(f: Frame, t: Bytes, total: nat)
    requires WithinLimit(f, t, total)
    ensures var h := ParseHeader(t);
      h.Some? && h.value.0 == HeaderOf(f) && |f.payload| <= |h.value.1|
  {
    hide ParseHeader, ValidFrame, Wire;
    var tail := t[|Wire(f)|..];
    assert t == Wire(f) + tail;
    WireInverts(f, tail);
  }

  lemma WholeMeaning(t: Bytes, total: nat)
    ensures var h := ParseHeader(t);
      && (Whole(t, total) <==>
          h.Some? && h.value.0.length <= |h.value.1| && total + h.value.0.length <= MAX_MESSAGE_BYTES)
      && (Closes(t, total) <==> Whole(t, total) && h.value.0.opcode == CLOSE)
  {
    hide ParseHeader, ValidFrame, Wire, WithinLimit;
    forall f | WithinLimit(f, t, total)
      ensures var h := ParseHeader(t);
        h.Some? && h.value.0 == HeaderOf(f) && |f.payload| <= |h.value.1| && total + |f.payload| <= MAX_MESSAGE_BYTES
    {
      FrameAhead(f, t, total);
      InLimit(f, t, total);
    }
    var h := ParseHeader(t);
    if h.Some? && h.value.0.length <= |h.value.1| && total + h.value.0.length <= MAX_MESSAGE_BYTES {
      var f := WholeFrame(t, total);
      assert WithinLimit(f, t, total);
    }
  }

  lemma InLimit(f: Frame, t: Bytes, total: nat)
    requires WithinLimit(f, t, total)
    ensures total + |f.payload| <= MAX_MESSAGE_BYTES
  {
  }

  lemma WholeFrame(t: Bytes, total: nat) returns (f: Frame)
    requires var h := ParseHeader(t);
      h.Some? && h.value.0.length <= |h.value.1| && total + h.value.0.length <= MAX_MESSAGE_BYTES
    ensures WithinLimit(f, t, total) && HeaderOf(f) == ParseHeader(t).value.0
  {
    hide ParseHeader, ValidFrame, Wire;
    HeaderSound(t);
    var (h, rest) := ParseHeader(t).value;
    f := FrameOf(h, rest[..h.length]);
  }

  /** The read fails at once exactly where the bytes break off. */
  lemma FailsAtOnce(t: Bytes, parts: Bytes, total: nat, error: Error)
    requires total <= MAX_MESSAGE_BYTES
    ensures Breaks(t, total, error) ==> Receive(t, parts, total) == Failed(error, [])
    ensures Receive(t, parts, total).Failed? ==>
      (Breaks(t, total, Receive(t, parts, total).error) && Receive(t, parts, total).pings == [])
      || (Whole(t, total) && !Closes(t, total))
  {
    hide ParseHeader, TooMuch, Whole, Closes;
    TooMuchMeaning(t, total);
    WholeMeaning(t, total);
  }

  // ---------- whole runs ----------

  lemma {:induction false} OpenRunFails(fs: seq<Frame>, t: Bytes, u: Bytes, parts: Bytes, total: nat, r: Received)
    requires BreaksOff(fs, t, u, total, r)
    ensures Receive(u, parts, total) == r
    decreases |fs|
  {
    hide ValidFrame, Wire, Receive, Breaks;
    if fs == [] {
      assert u == t;
      FailsAtOnce(t, parts, total, r.error);
    } else {
      var f, rest := fs[0], fs[1..];
      var now := total + |f.payload|;
      Assoc(Wire(f), Wires(rest), t);
      ReceiveFrame(f, Wires(rest) + t, parts, total);
      var inner := Failed(r.error, Pings(rest));
      OpenRunFails(rest, t, Wires(rest) + t, if Control(f) then parts else parts + f.payload, now, inner);
    }
  }

  lemma {:induction false} FailedRun(u: Bytes, parts: Bytes, total: nat) returns (fs: seq<Frame>, t: Bytes)
    requires total <= MAX_MESSAGE_BYTES && Receive(u, parts, total).Failed?
    ensures BreaksOff(fs, t, u, total, Receive(u, parts, total))
    decreases |u|
  {
    hide ValidFrame, Wire, Receive, Breaks, Whole, Closes, ParseHeader, TooMuch;
    var r := Receive(u, parts, total);
    FailsAtOnce(u, parts, total, r.error);
    if Breaks(u, total, r.error) && r.pings == [] {
      fs, t := [], u;
      assert [] + u == u;
    } else {
      WholeMeaning(u, total);
      var f := WholeFrame(u, total);
      var tail := u[|Wire(f)|..];
      assert u == Wire(f) + tail;
      WireInverts(f, tail);
      WireNotEmpty(f);
      var now := total + |f.payload|;
      ReceiveFrame(f, tail, parts, total);
      var next := if Control(f) then parts else parts + f.payload;
      var rest;
      rest, t := FailedRun(tail, next, now);
      fs := [f] + rest;
      OneMore(f, rest, t, tail, total, Receive(tail, next, now));
    }
  }

  lemma WireNotEmpty(f: Frame)
    requires ValidFrame(f)
    ensures Wire(f) != []
  {
  }

  lemma OneMore(f: Frame, rest: seq<Frame>, t: Bytes, tail: Bytes, total: nat, r: Received)
    requires ValidFrame(f) && f.opcode != CLOSE && (Control(f) || !f.fin)
    requires BreaksOff(rest, t, tail, total + |f.payload|, r)
    ensures BreaksOff([f] + rest, t, Wire(f) + tail, total, if f.opcode == PING then Answering([f.payload], r) else r)
  {
    hide ValidFrame, Wire, Breaks;
    assert ([f] + rest)[1..] == rest;
    Assoc(Wire(f), Wires(rest), t);
    Assoc([], [], Pings(rest));
  }

  /**
   A read fails exactly on an open run and then a frame over the limit, a close frame, or the end of the stream; the
   error and the pings answered by then follow from where it broke off.
   */
  lemma FailureMeaning(u: Bytes, r: Received)
    requires r.Failed?
    ensures Receive(u, [], 0) == r <==> exists fs, t :: BreaksOff(fs, t, u, 0, r)
  {
    hide Receive, BreaksOff;
    if Receive(u, [], 0) == r {
      var fs, t := FailedRun(u, [], 0);
    }
    forall fs, t | BreaksOff(fs, t, u, 0, r)
      ensures Receive(u, [], 0) == r
    {
      OpenRunFails(fs, t, u, [], 0, r);
    }
  }
}
