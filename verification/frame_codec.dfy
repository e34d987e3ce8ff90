/** The length-prefixed frame protocol shared by Client.py and Server.py. A frame
    on the wire is a four-character, zero-padded decimal count of the payload's
    characters followed immediately by the payload; there is no delimiter. */
module FrameCodec {
  import opened Wrappers
  import opened Digits
  import opened PyStr

  const HeaderWidth: nat := 4

  /** The longest payload whose count fits a four-digit header. */
  const MaxPayload: nat := 9999

  /** A header the receiver accepts: exactly four ASCII digits. */
  predicate IsHeader(h: string) {
    |h| == HeaderWidth && AllDigits(h)
  }

  /** `encode_message`: the zero-padded character count, then the payload. Up to
      `MaxPayload` characters the header is exactly four digits that read back as
      the payload's length; past it the header silently grows. */
  function Encode(payload: string): (wire: string)
    ensures |wire| == HeaderWidth + |payload| <==> |payload| <= MaxPayload
    ensures |payload| <= MaxPayload ==>
              && IsHeader(wire[..HeaderWidth])
              && Value(wire[..HeaderWidth]) == |payload|
              && wire[HeaderWidth..] == payload
    ensures |wire| >= HeaderWidth + |payload| && wire[|wire| - |payload|..] == payload
  {
    PaddedRoundTrip(|payload|, HeaderWidth);
    Padded(|payload|, HeaderWidth) + payload
  }

  /** What one call of `decode_message` returns: the payload of the leading frame
      (None when there is none) and the buffer that replaces the input. */
  datatype Step = Step(payload: Option<string>, remaining: string)

  /** The buffer starts with a valid header and holds the whole payload it declares. */
  predicate Complete(buffer: string) {
    && |buffer| >= HeaderWidth
    && IsHeader(buffer[..HeaderWidth])
    && |buffer| >= HeaderWidth + Value(buffer[..HeaderWidth])
  }

  /** The buffer waits for more data: it is shorter than a header, or its valid
      header declares more payload than has arrived. */
  predicate Settled(buffer: string) {
    || |buffer| < HeaderWidth
    || (IsHeader(buffer[..HeaderWidth]) && |buffer| < HeaderWidth + Value(buffer[..HeaderWidth]))
  }

  /** `decode_message`: pull the leading frame out of an accumulated buffer. A
      buffer that is waiting for data comes back unchanged; a header that does
      not parse throws the whole buffer away; a complete frame is split off. */
  function Decode(buffer: string): (r: Step)
    ensures r.payload.Some? <==> Complete(buffer)
    ensures r.payload.Some? ==>
              && buffer == buffer[..HeaderWidth] + r.payload.value + r.remaining
              && |r.payload.value| == Value(buffer[..HeaderWidth])
              && |r.remaining| < |buffer|
    ensures Settled(buffer) ==> r == Step(None, buffer)
    ensures |buffer| >= HeaderWidth && !IsHeader(buffer[..HeaderWidth]) ==> r == Step(None, [])
  {
    if |buffer| < HeaderWidth then Step(None, buffer)
    else
      var header := buffer[..HeaderWidth];
      if !IsHeader(header) then Step(None, [])
      else
        var n := Value(header);
        if |buffer| < HeaderWidth + n then Step(None, buffer)
        else
          assert buffer == header + buffer[HeaderWidth..HeaderWidth + n] + buffer[HeaderWidth + n..];
          Step(Some(buffer[HeaderWidth..HeaderWidth + n]), buffer[HeaderWidth + n..])
  }

  /** A decode never both fails to find a frame and leaves data it could still use:
      after a None the buffer is settled (possibly emptied by a bad header). */
  lemma DecodeNoneSettles(buffer: string)
    requires Decode(buffer).payload.None?
    ensures Settled(Decode(buffer).remaining)
    ensures Decode(buffer).remaining == buffer || Decode(buffer).remaining == []
  {
  }

  /** Round trip: decoding an encoded payload, whatever follows it, returns the
      payload and exactly what follows. */
  lemma DecodeEncode(p: string, rest: string)
    requires |p| <= MaxPayload
    ensures Decode(Encode(p) + rest) == Step(Some(p), rest)
  {
    var buffer := Encode(p) + rest;
    assert buffer[..HeaderWidth] == Encode(p)[..HeaderWidth];
    assert buffer[HeaderWidth..HeaderWidth + |p|] == Encode(p)[HeaderWidth..];
    assert buffer[HeaderWidth + |p|..] == rest;
  }

  /** The empty payload encodes to the bare header "0000". */
  lemma EncodeEmpty()
    ensures Encode("") == "0000"
  {
    assert Decimal(0) == "0";
    assert Zeros(3) == "000" by {
      assert Zeros(1) == "0";
      assert Zeros(2) == "00";
    }
  }

  /** Python's `int(h)` on a four-character header, for the two forms that can
      occur here: four digits, or a sign followed by three digits. Whitespace and
      underscores, which `int()` also tolerates, are not part of this model. */
  function PyIntHeader(h: string): (r: Option<int>)
    requires |h| == HeaderWidth
    ensures AllDigits(h) ==> r == Some(Value(h))
    ensures r.Some? && r.value < 0 ==> h[0] == '-'
  {
    if AllDigits(h) then Some(Value(h))
    else if (h[0] == '-' || h[0] == '+') && AllDigits(h[1..]) then
      var magnitude: int := Value(h[1..]);
      Some(if h[0] == '-' then -magnitude else magnitude)
    else None
  }

  /** `decode_message` as written, for headers of four digits or a sign and three
      digits: the header goes through `int()`, so a signed header is accepted,
      and the payload and remainder are cut with Python slices, where a negative
      bound counts from the end. On every buffer that does not start with a sign
      it agrees with `Decode`. */
  function DecodeAsWritten(buffer: string): (r: Step)
    ensures |buffer| < HeaderWidth || (buffer[0] != '-' && buffer[0] != '+') ==> r == Decode(buffer)
  {
    if |buffer| < HeaderWidth then Step(None, buffer)
    else
      match PyIntHeader(buffer[..HeaderWidth])
      case None => Step(None, [])
      case Some(n) =>
        if |buffer| < HeaderWidth + n then Step(None, buffer)
        else Step(Some(PySlice(buffer, HeaderWidth, HeaderWidth + n)), PySlice(buffer, HeaderWidth + n, |buffer|))
  }

  /** The header "-999" followed by at most 991 characters decodes, as written,
      to an empty payload and the very same buffer, so the drain loop in
      Server.py decodes it again forever. The corrected `Decode` discards it. */
  lemma NegativeHeaderStalls(t: string)
    requires |t| <= 991
    ensures DecodeAsWritten("-999" + t) == Step(Some(""), "-999" + t)
    ensures Decode("-999" + t) == Step(None, [])
  {
    var buffer := "-999" + t;
    var h := buffer[..HeaderWidth];
    assert h == "-999";
    assert !IsDigit(h[0]);
    assert h[1..] == "999";
    assert Value("999") == 999 by {
      assert "999"[..2] == "99";
      assert "99"[..1] == "9";
      assert "9"[..0] == "";
    }
    assert PyIntHeader(h) == Some(-999);
  }
}
