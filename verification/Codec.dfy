/** The length-prefixed codec over the ring buffer, and its independence of how the bytes are cut up on the way. */
module Codec {

  import opened Bytes
  import RingBuffer

  const HEADER := 4

  /** A message on the wire: its length in network byte order, then its bytes. */
  function Frame(msg: seq<byte>): (f: seq<byte>)
    ensures |f| == HEADER + |msg|
  {
    Be(|msg|, HEADER) + msg
  }

  /** The message at the front of the queue and what is left, or nothing and the whole queue. */
  function DecodeOne(q: seq<byte>): (seq<byte>, seq<byte>) {
    if |q| < HEADER then ([], q)
    else
      var n := FromBe(q[..HEADER]);
      if |q| < HEADER + n then ([], q) else (q[HEADER..HEADER + n], q[HEADER + n..])
  }

  /** The header on the wire, byte by byte. */
  lemma HeaderBytes(n: nat)
    requires n < 0x1_0000_0000
    ensures Be(n, HEADER) == [n / 0x100_0000, n / 0x1_0000 % 256, n / 0x100 % 256, n % 256]
  {
    Widths();
    BeDigits(n, HEADER, 0);
    BeDigits(n, HEADER, 1);
    BeDigits(n, HEADER, 2);
    BeDigits(n, HEADER, 3);
  }

  class DefaultCodeC {
    constructor () {}

    method Encode(buffer: RingBuffer.RingBuffer, data: seq<byte>)
      requires buffer.Valid() && |data| < 0x1_0000_0000
      modifies buffer, buffer.buffer
      ensures buffer.Valid() && (buffer.buffer == old(buffer.buffer) || fresh(buffer.buffer))
      ensures buffer.Contents() == old(buffer.Contents()) + Frame(data)
      ensures var n := |data|;
        Frame(data) == [n / 0x100_0000, n / 0x1_0000 % 256, n / 0x100 % 256, n % 256] + data
    {
      HeaderBytes(|data|);
      ghost var q := buffer.Contents();
      var _ := buffer.Write(Be(|data|, HEADER));
      var _ := buffer.Write(data);
      assert q + Be(|data|, HEADER) + data == q + Frame(data);
    }

    /** The next message, or nothing when it is not all there yet: then the buffer is left as it was. */
    method Decode(buffer: RingBuffer.RingBuffer) returns (msg: seq<byte>)
      requires buffer.Valid()
      modifies buffer
      ensures buffer.Valid() && buffer.buffer == old(buffer.buffer)
      ensures (msg, buffer.Contents()) == DecodeOne(old(buffer.Contents()))
    {
      hide RingBuffer.Queue, RingBuffer.Shape, FromBe;
      ghost var q := buffer.Contents();
      if buffer.size < HEADER {
        return [];
      }
      var peek := buffer.Peek(HEADER);
      var packageSize := FromBe(peek);
      if buffer.size < HEADER + packageSize {
        return [];
      }
      var header := buffer.Read(HEADER);
      ghost var rest := buffer.Contents();
      msg := buffer.Read(packageSize);
      DecodeParts(q, header, rest, msg, buffer.Contents());
    }
  }

  lemma DecodeParts(q: seq<byte>, header: seq<byte>, rest: seq<byte>, msg: seq<byte>, left: seq<byte>)
    requires q == header + rest && |header| == HEADER && rest == msg + left && |msg| == FromBe(q[..HEADER])
    ensures DecodeOne(q) == (msg, left)
  {
    assert q[HEADER..] == rest;
    assert q[HEADER..HEADER + |msg|] == rest[..|msg|] == msg;
    assert q[HEADER + |msg|..] == rest[|msg|..] == left;
  }

  // ---------------------------------------------------------------- chunking

  function Stream(msgs: seq<seq<byte>>): seq<byte> {
    if msgs == [] then [] else Frame(msgs[0]) + Stream(msgs[1..])
  }

  predicate Sendable(msgs: seq<seq<byte>>) {
    forall i :: 0 <= i < |msgs| ==> |msgs[i]| < Pow256(HEADER)
  }

  datatype Event = Arrive(piece: seq<byte>) | Poll

  /** The results of the polls, in order, and the bytes left at the end. */
  function Run(q: seq<byte>, events: seq<Event>): (seq<seq<byte>>, seq<byte>)
    decreases |events|
  {
    if events == [] then ([], q)
    else match events[0]
      case Arrive(piece) => Run(q + piece, events[1..])
      case Poll =>
        var (msg, rest) := DecodeOne(q);
        var (msgs, left) := Run(rest, events[1..]);
        ([msg] + msgs, left)
  }

  function Arrived(events: seq<Event>): seq<byte> {
    if events == [] then []
    else (match events[0] case Arrive(piece) => piece case Poll => []) + Arrived(events[1..])
  }

  function NonEmpty(msgs: seq<seq<byte>>): seq<seq<byte>> {
    if msgs == [] then []
    else (if msgs[0] == [] then [] else [msgs[0]]) + NonEmpty(msgs[1..])
  }

  /** Decoding a stream from its start gives its first message, as soon as that is all there. */
  lemma DecodeStream(q: seq<byte>, msgs: seq<seq<byte>>)
    requires Sendable(msgs) && q <= Stream(msgs)
    ensures if msgs != [] && |Frame(msgs[0])| <= |q| then DecodeOne(q) == (msgs[0], q[|Frame(msgs[0])|..])
            else DecodeOne(q) == ([], q)
  {
    if |q| >= HEADER && msgs != [] {
      var m := msgs[0];
      assert q[..HEADER] == Stream(msgs)[..HEADER] == Frame(m)[..HEADER] == Be(|m|, HEADER);
      BeRoundTrip(|m|, HEADER);
      if HEADER + |m| <= |q| {
        assert q[HEADER..HEADER + |m|] == Stream(msgs)[HEADER..HEADER + |m|] == m;
      }
    }
  }

  /**
   However the stream is cut up and whenever it is polled: the non-empty results are those of the first `k` messages,
   and these and the bytes still buffered are what has arrived.
   */
  lemma {:induction false} ChunksDoNotMatter(msgs: seq<seq<byte>>, q: seq<byte>, events: seq<Event>) returns (k: nat)
    requires Sendable(msgs) && q + Arrived(events) <= Stream(msgs)
    ensures k <= |msgs|
    ensures var (results, left) := Run(q, events);
      NonEmpty(results) == NonEmpty(msgs[..k]) && Stream(msgs[..k]) + left == q + Arrived(events)
    decreases |events|, 1
  {
    if events == [] {
      k := 0;
    } else if events[0].Arrive? {
      var piece := events[0].piece;
      assert q + Arrived(events) == q + piece + Arrived(events[1..]);
      k := ChunksDoNotMatter(msgs, q + piece, events[1..]);
    } else {
      assert q + Arrived(events) == q + Arrived(events[1..]);
      k := AfterPoll(msgs, q, events);
    }
  }

  lemma {:induction false} AfterPoll(msgs: seq<seq<byte>>, q: seq<byte>, events: seq<Event>) returns (k: nat)
    requires Sendable(msgs) && events != [] && events[0].Poll? && q + Arrived(events[1..]) <= Stream(msgs)
    ensures k <= |msgs|
    ensures var (results, left) := Run(q, events);
      NonEmpty(results) == NonEmpty(msgs[..k]) && Stream(msgs[..k]) + left == q + Arrived(events[1..])
    decreases |events|, 0
  {
    var more := Arrived(events[1..]);
    PrefixOfPrefix(q, more, Stream(msgs));
    DecodeStream(q, msgs);
    if msgs != [] && |Frame(msgs[0])| <= |q| {
      var f := Frame(msgs[0]);
      var rest := q[|f|..];
      DropFrame(f, Stream(msgs[1..]), q, more);
      var (later, left) := Run(rest, events[1..]);
      var k1 := ChunksDoNotMatter(msgs[1..], rest, events[1..]);
      k := k1 + 1;
      assert Run(q, events) == ([msgs[0]] + later, left);
      assert ([msgs[0]] + later)[1..] == later;
      assert msgs[..k][1..] == msgs[1..][..k1];
      assert f + Stream(msgs[1..][..k1]) + left == f + (Stream(msgs[1..][..k1]) + left);
      assert f + (rest + more) == q + more;
    } else {
      var (later, left) := Run(q, events[1..]);
      k := ChunksDoNotMatter(msgs, q, events[1..]);
      assert Run(q, events) == ([[]] + later, left);
      assert ([[]] + later)[1..] == later;
    }
  }

  lemma PrefixOfPrefix(q: seq<byte>, more: seq<byte>, s: seq<byte>)
    requires q + more <= s
    ensures q <= s
  {
    assert q == (q + more)[..|q|];
  }

  /** Both sides without the frame they start with. */
  lemma DropFrame(f: seq<byte>, tail: seq<byte>, q: seq<byte>, more: seq<byte>)
    requires q + more <= f + tail && |f| <= |q|
    ensures q == f + q[|f|..] && q[|f|..] + more <= tail
  {
    assert q[..|f|] == (q + more)[..|f|] == (f + tail)[..|f|] == f;
    assert (q + more)[|f|..] == q[|f|..] + more;
    assert (f + tail)[|f|..] == tail;
    assert (f + tail)[..|q + more|][|f|..] == tail[..|q + more| - |f|];
  }

  lemma {:induction false} RunAppend(q: seq<byte>, es: seq<Event>, fs: seq<Event>)
    ensures var (r1, q1) := Run(q, es); var (r2, q2) := Run(q1, fs);
      Run(q, es + fs) == (r1 + r2, q2)
    decreases |es|
  {
    if es == [] {
      assert es + fs == fs;
      var r := Run(q, fs).0;
      assert [] + r == r;
    } else {
      assert (es + fs)[1..] == es[1..] + fs;
      match es[0]
      case Arrive(piece) => RunAppend(q + piece, es[1..], fs);
      case Poll =>
        var (msg, rest) := DecodeOne(q);
        RunAppend(rest, es[1..], fs);
        var (r1, q1) := Run(rest, es[1..]);
        var (r2, q2) := Run(q1, fs);
        assert [msg] + (r1 + r2) == [msg] + r1 + r2;
    }
  }

  lemma {:induction false} NonEmptyAppend(a: seq<seq<byte>>, b: seq<seq<byte>>)
    ensures NonEmpty(a + b) == NonEmpty(a) + NonEmpty(b)
  {
    if a == [] {
      assert a + b == b;
    } else {
      assert (a + b)[1..] == a[1..] + b;
      NonEmptyAppend(a[1..], b);
    }
  }

  lemma {:induction false} StreamAppend(a: seq<seq<byte>>, b: seq<seq<byte>>)
    ensures Stream(a + b) == Stream(a) + Stream(b)
  {
    if a == [] {
      assert a + b == b;
    } else {
      assert (a + b)[1..] == a[1..] + b;
      StreamAppend(a[1..], b);
      assert Frame(a[0]) + (Stream(a[1..]) + Stream(b)) == Stream(a) + Stream(b);
    }
  }

  function Polls(n: nat): seq<Event> {
    if n == 0 then [] else [Poll] + Polls(n - 1)
  }

  /** With a whole stream in the buffer, enough polls deliver it and leave nothing. */
  lemma {:induction false} PollsDeliver(msgs: seq<seq<byte>>, n: nat)
    requires Sendable(msgs) && n >= |msgs|
    ensures var (results, left) := Run(Stream(msgs), Polls(n)); NonEmpty(results) == NonEmpty(msgs) && left == []
    decreases n
  {
    if n > 0 {
      var s := Stream(msgs);
      DecodeStream(s, msgs);
      assert Polls(n)[1..] == Polls(n - 1);
      var tail := if msgs == [] then [] else msgs[1..];
      var first: seq<byte> := if msgs == [] then [] else msgs[0];
      assert DecodeOne(s) == (first, Stream(tail)) by {
        if msgs != [] { assert s[|Frame(first)|..] == Stream(tail); }
      }
      PollsDeliver(tail, n - 1);
      var (later, left) := Run(Stream(tail), Polls(n - 1));
      assert ([first] + later)[1..] == later;
    }
  }

  /** Once the whole stream has arrived, in whatever pieces, as many polls as messages deliver all that is missing. */
  lemma EverythingArrives(msgs: seq<seq<byte>>, events: seq<Event>, n: nat)
    requires Sendable(msgs) && Arrived(events) == Stream(msgs) && n >= |msgs|
    ensures var (results, left) := Run([], events + Polls(n));
      left == [] && NonEmpty(results) == NonEmpty(msgs)
      && ((forall i :: 0 <= i < |msgs| ==> msgs[i] != []) ==> NonEmpty(results) == msgs)
  {
    var (results, left) := Run([], events);
    assert [] + Arrived(events) == Stream(msgs);
    var k := ChunksDoNotMatter(msgs, [], events);
    assert msgs[..k] + msgs[k..] == msgs;
    StreamAppend(msgs[..k], msgs[k..]);
    SameRest(Stream(msgs[..k]), left, Stream(msgs[k..]));
    PollsDeliver(msgs[k..], n);
    RunAppend([], events, Polls(n));
    var (later, end) := Run(left, Polls(n));
    NonEmptyAppend(results, later);
    NonEmptyAppend(msgs[..k], msgs[k..]);
    AllNonEmpty(msgs);
  }

  lemma SameRest(a: seq<byte>, b: seq<byte>, c: seq<byte>)
    requires a + b == a + c
    ensures b == c
  {
    assert (a + b)[|a|..] == b && (a + c)[|a|..] == c;
  }

  lemma {:induction false} AllNonEmpty(msgs: seq<seq<byte>>)
    ensures (forall i :: 0 <= i < |msgs| ==> msgs[i] != []) ==> NonEmpty(msgs) == msgs
  {
    if msgs != [] {
      AllNonEmpty(msgs[1..]);
      assert msgs == [msgs[0]] + msgs[1..];
    }
  }

  /** The non-empty results so far are a prefix of the non-empty messages sent. */
  lemma DeliveredIsPrefix(msgs: seq<seq<byte>>, events: seq<Event>)
    requires Sendable(msgs) && Arrived(events) <= Stream(msgs)
    ensures NonEmpty(Run([], events).0) <= NonEmpty(msgs)
  {
    hide Run, NonEmpty, Stream, Frame, Sendable, Arrived;
    assert [] + Arrived(events) == Arrived(events);
    var k := ChunksDoNotMatter(msgs, [], events);
    assert msgs[..k] + msgs[k..] == msgs;
    NonEmptyAppend(msgs[..k], msgs[k..]);
  }

  lemma RunOneMore(q0: seq<byte>, es: seq<Event>, e: Event, results: seq<seq<byte>>, q: seq<byte>)
    requires Run(q0, es) == (results, q)
    ensures Run(q0, es + [e]) ==
      if e.Arrive? then (results, q + e.piece) else var (msg, rest) := DecodeOne(q); (results + [msg], rest)
  {
    RunAppend(q0, es, [e]);
    assert [e][1..] == [];
    if e.Arrive? {
      assert Run(q, [e]) == ([], q + e.piece) && results + [] == results;
    } else {
      var (msg, rest) := DecodeOne(q);
      assert Run(q, [e]) == ([msg] + [], rest) && [msg] + [] == [msg];
    }
  }

  /** A run on a real buffer. */
  method RunOn(codec: DefaultCodeC, buffer: RingBuffer.RingBuffer, events: seq<Event>) returns (results: seq<seq<byte>>)
    requires buffer.Valid()
    modifies buffer, buffer.buffer
    ensures buffer.Valid() && (results, buffer.Contents()) == Run(old(buffer.Contents()), events)
  {
    results := [];
    var i := 0;
    while i < |events|
      invariant i <= |events| && buffer.Valid() && (buffer.buffer == old(buffer.buffer) || fresh(buffer.buffer))
      invariant (results, buffer.Contents()) == Run(old(buffer.Contents()), events[..i])
    {
      ghost var q := buffer.Contents();
      assert events[..i + 1] == events[..i] + [events[i]];
      RunOneMore(old(buffer.Contents()), events[..i], events[i], results, q);
      match events[i] {
        case Arrive(piece) =>
          var _ := buffer.Write(piece);
        case Poll =>
          var msg := codec.Decode(buffer);
          results := results + [msg];
      }
      i := i + 1;
    }
    assert events[..i] == events;
  }

  /** Sending a list of messages. */
  method EncodeAll(codec: DefaultCodeC, buffer: RingBuffer.RingBuffer, msgs: seq<seq<byte>>)
    requires buffer.Valid() && Sendable(msgs)
    modifies buffer, buffer.buffer
    ensures buffer.Valid() && buffer.Contents() == old(buffer.Contents()) + Stream(msgs)
  {
    var i := 0;
    while i < |msgs|
      invariant i <= |msgs| && buffer.Valid() && (buffer.buffer == old(buffer.buffer) || fresh(buffer.buffer))
      invariant buffer.Contents() == old(buffer.Contents()) + Stream(msgs[..i])
    {
      codec.Encode(buffer, msgs[i]);
      StreamOneMore(msgs, i, old(buffer.Contents()));
      i := i + 1;
    }
    assert msgs[..i] == msgs;
  }

  lemma StreamOneMore(msgs: seq<seq<byte>>, i: nat, q: seq<byte>)
    requires i < |msgs|
    ensures q + Stream(msgs[..i]) + Frame(msgs[i]) == q + Stream(msgs[..i + 1])
  {
    assert msgs[..i + 1] == msgs[..i] + [msgs[i]];
    StreamAppend(msgs[..i], [msgs[i]]);
    var none: seq<seq<byte>> := [];
    assert [msgs[i]][1..] == none;
    assert Stream([msgs[i]]) == Frame(msgs[i]) + [] == Frame(msgs[i]);
    assert q + Stream(msgs[..i]) + Frame(msgs[i]) == q + (Stream(msgs[..i]) + Frame(msgs[i]));
  }
}
