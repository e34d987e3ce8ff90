/** The sending side of the client: fifty numbered messages of
    sixty characters each, every one framed with `encode_message`. */
module Sender {
  import opened Digits
  import opened PyStr
  import opened FrameCodec
  import opened Connection

  const MessageCount: nat := 50

  /** The payload of message `i`: `f"Message {i:02}: " + "-" * 48`. */
  function Payload(i: nat): string {
    "Message " + Padded(i, 2) + ": " + Repeat('-', 48)
  }

  /** Every message number the client uses has two digits, so its payload is
      sixty characters, carries the number readably at offset 8, and is framed
      under the header "0060" into sixty-four characters. */
  lemma PayloadShape(i: nat)
    requires 1 <= i < 100
    ensures |Payload(i)| == 60
    ensures AllDigits(Payload(i)[8..10]) && Value(Payload(i)[8..10]) == i
    ensures |Encode(Payload(i))| == 64
    ensures Encode(Payload(i))[..HeaderWidth] == "0060"
  {
    PaddedRoundTrip(i, 2);
    var p := Payload(i);
    assert p[8..10] == Padded(i, 2);
    assert Padded(60, HeaderWidth) == "0060" by {
      assert Decimal(6) == "6";
      assert Decimal(60) == "60";
      assert Zeros(2) == "00" by {
        assert Zeros(1) == "0";
      }
    }
  }

  /** The send loop `for i in range(1, 51)`: the frames written, in order. */
  method SendAll() returns (frames: seq<string>)
    ensures |frames| == MessageCount
    ensures forall k :: 0 <= k < |frames| ==> frames[k] == Encode(Payload(k + 1))
    ensures forall k :: 0 <= k < |frames| ==> |frames[k]| == 64 && frames[k][..HeaderWidth] == "0060"
  {
    frames := [];
    var i := 1;
    while i < MessageCount + 1
      invariant 1 <= i <= MessageCount + 1
      invariant |frames| == i - 1
      invariant forall k :: 0 <= k < |frames| ==> frames[k] == Encode(Payload(k + 1))
    {
      var frame := Encode(Payload(i));
      assert forall k :: 0 <= k < |frames| ==> (frames + [frame])[k] == frames[k];
      assert (frames + [frame])[i - 1] == frame;
      frames := frames + [frame];
      i := i + 1;
    }
    FramesShape(frames);
  }

  /** Frames of the numbered payloads are sixty-four characters under "0060". */
  lemma FramesShape(frames: seq<string>)
    requires |frames| < 100
    requires forall k :: 0 <= k < |frames| ==> frames[k] == Encode(Payload(k + 1))
    ensures forall k :: 0 <= k < |frames| ==> |frames[k]| == 64 && frames[k][..HeaderWidth] == "0060"
  {
    forall k | 0 <= k < |frames|
      ensures |frames[k]| == 64 && frames[k][..HeaderWidth] == "0060"
    {
      PayloadShape(k + 1);
    }
  }

  /** The payloads the client sends, in sending order. */
  function SentPayloads(): (ps: seq<string>)
    ensures |ps| == MessageCount
  {
    seq(MessageCount, k requires 0 <= k < MessageCount => Payload(k + 1))
  }

  /** The messages are numbered 01 to 50 in increasing order. */
  lemma SentInOrder()
    ensures forall k :: 0 <= k < MessageCount ==> Value(SentPayloads()[k][8..10]) == k + 1
  {
    forall k | 0 <= k < MessageCount
      ensures Value(SentPayloads()[k][8..10]) == k + 1
    {
      PayloadShape(k + 1);
    }
  }

  /** End to end: however the network cuts the client's stream into reads, the
      server delivers the fifty payloads, once each and in order, and is left
      with an empty buffer. */
  lemma ClientToServer(chunks: seq<string>)
    requires Flatten(chunks) == Wire(SentPayloads())
    ensures ReceiveAll(chunks) == Drained(SentPayloads(), [])
  {
    var ps := SentPayloads();
    forall i | 0 <= i < |ps|
      ensures |ps[i]| <= MaxPayload
    {
      PayloadShape(i + 1);
    }
    ChunkingIrrelevant(chunks, ps);
  }
}
