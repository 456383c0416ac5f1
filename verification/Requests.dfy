/**
 What a worker reads from its socket (Store.cpp, FrameDecoder.cpp): of each client message the
 identity and then its parts, one after the other. The decoder takes them two by two.
 */
module Requests {
  import opened Wrappers
  import opened Wire
  import opened Transport
  import opened FrameDecoding

  /** A client's message: ZeroMQ puts its identity before its parts, of which there is at least one. */
  datatype Request = Request(identity: Bytes, parts: seq<Bytes>)

  predicate IsOneFrame(r: Request) { |r.parts| == 1 }

  predicate AreOneFrame(rs: seq<Request>) { forall r :: r in rs ==> IsOneFrame(r) }

  function RawParts(rs: seq<Request>): seq<Bytes> {
    if rs == [] then []
    else
      var last := |rs| - 1;
      RawParts(rs[..last]) + [rs[last].identity] + rs[last].parts
  }

  /** The pairs of identity and frame the worker makes of the parts. */
  function PairsOf(rs: seq<Request>): seq<Envelope> { EnvelopesOf(RawParts(rs)) }

  /** Whether it reads past the last part. */
  predicate IsMisread(rs: seq<Request>) { |RawParts(rs)| % 2 == 1 }

  /** What the clients meant: each message's own identity, and its first part as the frame. */
  function MeantEnvelopes(rs: seq<Request>): (es: seq<Envelope>)
    ensures |es| == |rs|
  {
    seq(|rs|, i requires 0 <= i < |rs| =>
      Envelope(rs[i].identity, if rs[i].parts == [] then [] else rs[i].parts[0]))
  }

  lemma TwoMoreParts(parts: seq<Bytes>, identity: Bytes, frame: Bytes)
    requires |parts| % 2 == 0
    ensures EnvelopesOf(parts + [identity] + [frame]) == EnvelopesOf(parts) + [Envelope(identity, frame)]
  {
    var n, longer := |parts| / 2, parts + [identity] + [frame];
    assert |longer| / 2 == n + 1;
    forall k | 0 <= k < n
      ensures EnvelopesOf(longer)[k] == EnvelopesOf(parts)[k]
    {
      assert 2 * k + 1 < |parts|;
    }
  }

  lemma NoParts()
    ensures EnvelopesOf([]) == []
  {
  }

  lemma OneMoreRequest(rs: seq<Request>, r: Request)
    requires |RawParts(rs)| % 2 == 0 && IsOneFrame(r)
    ensures |RawParts(rs + [r])| == |RawParts(rs)| + 2
    ensures PairsOf(rs + [r]) == PairsOf(rs) + [Envelope(r.identity, r.parts[0])]
  {
    hide EnvelopesOf;
    assert (rs + [r])[..|rs|] == rs && r.parts == [r.parts[0]];
    TwoMoreParts(RawParts(rs), r.identity, r.parts[0]);
  }

  lemma {:induction false} OneFrameRequestsArePairs(rs: seq<Request>)
    requires AreOneFrame(rs)
    ensures |RawParts(rs)| == 2 * |rs| && PairsOf(rs) == MeantEnvelopes(rs)
  {
    if rs == [] {
      NoParts();
    } else {
      hide RawParts;
      hide EnvelopesOf;
      var last := |rs| - 1;
      assert rs[last] in rs && IsOneFrame(rs[last]) && forall r :: r in rs[..last] ==> r in rs;
      OneFrameRequestsArePairs(rs[..last]);
      OneMoreRequest(rs[..last], rs[last]);
      assert rs == rs[..last] + [rs[last]];
      assert MeantEnvelopes(rs)[..last] == MeantEnvelopes(rs[..last]);
    }
  }

  lemma {:induction false} EnoughParts(rs: seq<Request>)
    requires forall r :: r in rs ==> r.parts != []
    ensures |RawParts(rs)| >= 2 * |rs| && (|RawParts(rs)| == 2 * |rs| ==> AreOneFrame(rs))
  {
    if rs != [] {
      var last := |rs| - 1;
      assert rs[last] in rs && forall r :: r in rs[..last] ==> r in rs;
      EnoughParts(rs[..last]);
      assert rs == rs[..last] + [rs[last]];
    }
  }

  /** The worker reads what the clients meant exactly when every message is one frame. */
  lemma PairsAreMeantExactlyWhen(rs: seq<Request>)
    requires forall r :: r in rs ==> r.parts != []
    ensures !IsMisread(rs) && PairsOf(rs) == MeantEnvelopes(rs) <==> AreOneFrame(rs)
  {
    if AreOneFrame(rs) {
      OneFrameRequestsArePairs(rs);
    }
    EnoughParts(rs);
  }

  /** A message of three parts makes two pairs; the second is decoded as if the second part had sent it. */
  lemma ThreePartsAreTwoPairs(identity: Bytes, a: Bytes, b: Bytes, c: Bytes)
    ensures var rs := [Request(identity, [a, b, c])];
            !IsMisread(rs) && PairsOf(rs) == [Envelope(identity, a), Envelope(b, c)]
  {
    var rs := [Request(identity, [a, b, c])];
    assert rs[..0] == [] && RawParts(rs) == [identity, a, b, c];
  }
}
