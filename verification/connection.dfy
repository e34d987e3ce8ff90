/** The receiving side of the server: one connection's text
    buffer, which accumulates every read and then drains each complete frame
    out of it, and the read loop that stops at the first empty read. */
module Connection {
  import opened Wrappers
  import opened Digits
  import opened FrameCodec

  /** The frames drained from a buffer, in order, and the buffer left behind. */
  datatype Drained = Drained(frames: seq<string>, residual: string)

  /** The inner `while True` loop: decode until no frame comes out. The buffer
      left behind always waits for more data. */
  function DrainAll(buffer: string): (r: Drained)
    ensures Settled(r.residual)
    decreases |buffer|
  {
    var step := Decode(buffer);
    match step.payload
    case None =>
      DecodeNoneSettles(buffer);
      Drained([], step.remaining)
    case Some(p) =>
      var rest := DrainAll(step.remaining);
      Drained([p] + rest.frames, rest.residual)
  }

  /** The drain loop as the server runs it: each pass replaces the buffer with
      what `decode_message` returns, and the loop ends on the first None. */
  method Drain(buffer: string) returns (frames: seq<string>, residual: string)
    ensures Drained(frames, residual) == DrainAll(buffer)
    ensures Settled(residual)
  {
    frames := [];
    residual := buffer;
    var step := Decode(residual);
    while step.payload.Some?
      invariant step == Decode(residual)
      invariant DrainAll(buffer) == Drained(frames + DrainAll(residual).frames, DrainAll(residual).residual)
      decreases |residual|
    {
      frames := frames + [step.payload.value];
      residual := step.remaining;
      step := Decode(residual);
    }
    residual := step.remaining;
  }

  /** The concatenation of the chunks, in order. */
  function Flatten(chunks: seq<string>): string {
    if chunks == [] then [] else Flatten(chunks[..|chunks| - 1]) + chunks[|chunks| - 1]
  }

  /** The chunks of one connection, each appended to the buffer and followed by a
      full drain. */
  function ReceiveAll(chunks: seq<string>): (r: Drained)
    ensures Settled(r.residual)
  {
    if chunks == [] then Drained([], [])
    else
      var before := ReceiveAll(chunks[..|chunks| - 1]);
      var d := DrainAll(before.residual + chunks[|chunks| - 1]);
      Drained(before.frames + d.frames, d.residual)
  }

  /** The per-connection read loop. Reads are consumed in order up to the first
      empty one, the peer's orderly shutdown, which ends the loop; nothing after
      it is looked at. When the given chunks run out first, the loop would block
      on the next read, and the state reached so far is returned. */
  method Serve(chunks: seq<string>) returns (frames: seq<string>, buffer: string, consumed: nat)
    ensures consumed <= |chunks|
    ensures forall j :: 0 <= j < consumed ==> chunks[j] != []
    ensures consumed < |chunks| ==> chunks[consumed] == []
    ensures Drained(frames, buffer) == ReceiveAll(chunks[..consumed])
    ensures Settled(buffer)
  {
    frames := [];
    buffer := [];
    consumed := 0;
    while consumed < |chunks| && chunks[consumed] != []
      invariant consumed <= |chunks|
      invariant forall j :: 0 <= j < consumed ==> chunks[j] != []
      invariant Drained(frames, buffer) == ReceiveAll(chunks[..consumed])
    {
      assert chunks[..consumed + 1][..consumed] == chunks[..consumed];
      var drained, rest := Drain(buffer + chunks[consumed]);
      frames := frames + drained;
      buffer := rest;
      consumed := consumed + 1;
    }
  }

  /** Every payload fits a four-digit header. */
  predicate Encodable(payloads: seq<string>) {
    forall i :: 0 <= i < |payloads| ==> |payloads[i]| <= MaxPayload
  }

  /** The stream a sender produces for these payloads. */
  function Wire(payloads: seq<string>): string {
    if payloads == [] then [] else Encode(payloads[0]) + Wire(payloads[1..])
  }

  lemma SplitConcat(b: string, t: string, e: string, w: string)
    requires b + t == e + w
    requires |e| <= |b|
    ensures b[..|e|] == e
    ensures b[|e|..] + t == w
  {
    assert (b + t)[..|e|] == b[..|e|];
    assert (b + t)[|e|..] == b[|e|..] + t;
  }

  /** A well-formed stream that starts with a frame has that frame complete. */
  lemma WireStartsComplete(qs: seq<string>)
    requires Encodable(qs) && qs != []
    ensures Complete(Wire(qs))
    ensures Decode(Wire(qs)) == Step(Some(qs[0]), Wire(qs[1..]))
  {
    DecodeEncode(qs[0], Wire(qs[1..]));
  }

  /** A well-formed stream is settled only when it is empty. */
  lemma SettledWire(qs: seq<string>)
    requires Encodable(qs)
    ensures Settled(Wire(qs)) <==> qs == []
  {
    if qs != [] {
      WireStartsComplete(qs);
    }
  }

  /** A settled buffer drains to nothing and stays as it is. */
  lemma DrainSettled(b: string)
    requires Settled(b)
    ensures DrainAll(b) == Drained([], b)
  {
  }

  /** A buffer that starts with a whole frame delivers it first. */
  lemma DrainFrame(q: string, rest: string)
    requires |q| <= MaxPayload
    ensures DrainAll(Encode(q) + rest) == Drained([q] + DrainAll(rest).frames, DrainAll(rest).residual)
  {
    DecodeEncode(q, rest);
  }

  /** A proper prefix of a frame (whatever follows the frame) is settled. */
  lemma FramePrefixSettled(b: string, t: string, q: string, w: string)
    requires |q| <= MaxPayload
    requires b + t == Encode(q) + w
    requires |b| < |Encode(q)|
    ensures Settled(b)
  {
    var e := Encode(q);
    if |b| >= HeaderWidth {
      assert b[..HeaderWidth] == e[..HeaderWidth] by {
        assert (b + t)[..HeaderWidth] == b[..HeaderWidth];
        assert (e + w)[..HeaderWidth] == e[..HeaderWidth];
      }
    }
  }

  /** Delivering `k` payloads and then `j` more of the remaining ones delivers
      the first `k + j`. */
  lemma ExtendDelivered<T>(ps: seq<T>, k: nat, j: nat)
    requires k + j <= |ps|
    ensures ps[..k] + ps[k..][..j] == ps[..k + j]
    ensures ps[k..][j..] == ps[k + j..]
  {
  }

  /** Draining any prefix `b` of a well-formed stream yields the frames wholly
      inside it, in order, and leaves exactly the unfinished part: the leftover
      continued by the rest of the stream `t` is the wire form of the payloads
      not yet delivered. */
  lemma {:induction false} DrainWire(b: string, t: string, qs: seq<string>)
    requires Encodable(qs)
    requires b + t == Wire(qs)
    ensures Delivers(DrainAll(b), t, qs)
    decreases |b|
  {
    if qs == [] {
      assert b == [];
      DrainSettled(b);
      assert qs[0..] == qs;
    } else {
      var e := Encode(qs[0]);
      var w := Wire(qs[1..]);
      assert b + t == e + w;
      if |b| < |e| {
        FramePrefixSettled(b, t, qs[0], w);
        DrainSettled(b);
        assert qs[0..] == qs;
      } else {
        SplitConcat(b, t, e, w);
        var rest := b[|e|..];
        assert b == e + rest;
        DrainWire(rest, t, qs[1..]);
        FrameThenDelivered(rest, t, qs);
      }
    }
  }

  /** A whole first frame followed by a buffer that delivers the later payloads
      delivers them all. */
  lemma FrameThenDelivered(rest: string, t: string, qs: seq<string>)
    requires Encodable(qs) && qs != []
    requires Delivers(DrainAll(rest), t, qs[1..])
    ensures Delivers(DrainAll(Encode(qs[0]) + rest), t, qs)
  {
    DrainFrame(qs[0], rest);
    var d := DrainAll(rest);
    var k := |d.frames|;
    ExtendDelivered(qs, 1, k);
    assert qs[..1] == [qs[0]];
  }

  /** `r` has delivered a prefix of the payloads `ps`, in order, and what it
      holds back, continued by the unread text `t`, is the wire form of the
      payloads still to come. */
  predicate Delivers(r: Drained, t: string, ps: seq<string>) {
    && |r.frames| <= |ps| && r.frames == ps[..|r.frames|]
    && r.residual + t == Wire(ps[|r.frames|..])
  }

  /** A prefix of `ps` followed by a prefix of the rest is a prefix of `ps`. */
  lemma PrefixThenPrefix<T>(ps: seq<T>, a: seq<T>, b: seq<T>)
    requires |a| <= |ps| && a == ps[..|a|]
    requires |b| <= |ps| - |a| && b == ps[|a|..][..|b|]
    ensures |a + b| <= |ps| && a + b == ps[..|a + b|]
    ensures ps[|a|..][|b|..] == ps[|a + b|..]
  {
    ExtendDelivered(ps, |a|, |b|);
  }

  /** One more chunk: after the payloads delivered so far, appending a chunk
      and draining delivers the next payloads of the stream, in order. */
  lemma ReceiveStep(before: Drained, chunk: string, t: string, ps: seq<string>)
    requires Encodable(ps)
    requires Delivers(before, chunk + t, ps)
    ensures var d := DrainAll(before.residual + chunk);
            Delivers(Drained(before.frames + d.frames, d.residual), t, ps)
  {
    var k := |before.frames|;
    var rest := ps[k..];
    assert Encodable(rest) by {
      assert forall i :: 0 <= i < |rest| ==> rest[i] == ps[k + i];
    }
    assert (before.residual + chunk) + t == Wire(rest) by {
      assert (before.residual + chunk) + t == before.residual + (chunk + t);
    }
    var d := DrainAll(before.residual + chunk);
    assert |d.frames| <= |rest| && d.frames == rest[..|d.frames|] && d.residual + t == Wire(rest[|d.frames|..]) by {
      DrainWire(before.residual + chunk, t, rest);
    }
    PrefixThenPrefix(ps, before.frames, d.frames);
  }

  /** Receiving any chunking of a prefix of a well-formed stream delivers the
      frames wholly inside the prefix, in order, each exactly once. */
  lemma {:induction false} ReceivePrefix(chunks: seq<string>, t: string, ps: seq<string>)
    requires Encodable(ps)
    requires Flatten(chunks) + t == Wire(ps)
    ensures Delivers(ReceiveAll(chunks), t, ps)
    decreases |chunks|
  {
    if chunks != [] {
      var init := chunks[..|chunks| - 1];
      var last := chunks[|chunks| - 1];
      assert Flatten(init) + (last + t) == Wire(ps) by {
        assert Flatten(chunks) == Flatten(init) + last;
      }
      ReceivePrefix(init, last + t, ps);
      ReceiveStep(ReceiveAll(init), last, t, ps);
    } else {
      assert ps[0..] == ps;
    }
  }

  /** However a well-formed stream is cut into chunks, the receiver delivers
      exactly its payloads, once each and in wire order, and ends with an empty
      buffer. */
  lemma ChunkingIrrelevant(chunks: seq<string>, ps: seq<string>)
    requires Encodable(ps)
    requires Flatten(chunks) == Wire(ps)
    ensures ReceiveAll(chunks) == Drained(ps, [])
  {
    assert Flatten(chunks) + [] == Wire(ps);
    ReceivePrefix(chunks, [], ps);
    var r := ReceiveAll(chunks);
    assert r.residual == Wire(ps[|r.frames|..]);
    SettledWire(ps[|r.frames|..]);
    assert ps[|r.frames|..] == [];
  }
}
