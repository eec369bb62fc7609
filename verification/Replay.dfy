/** The read-handle-write loop (app/gcs_replay.c:82-108): the objects of `StackCode` run
    through a capture exactly as the folds of `Runs` say. */
module Replay {
  import opened Types
  import opened Runs
  import opened StackCode
  import opened Responder
  import opened Stream
  import opened Generator
  import opened Session

  /** The captured frames with the one reply buffer that serves them all. */
  function Turns(frames: seq<Bytes>, cap: nat): (evs: seq<Event>)
    ensures |evs| == |frames|
    ensures forall i :: 0 <= i < |frames| ==> evs[i] == Event(frames[i], cap)
  {
    seq(|frames|, i requires 0 <= i < |frames| => Event(frames[i], cap))
  }

  /** Each frame is read into the same buffer and each reply is written to the same
      buffer; `replies` is what is passed on, empty where nothing is written. */
  method ReplayCapture(stack: Stack, frames: seq<Bytes>, frame: array<uint8>, reply: array<uint8>)
    returns (replies: seq<Bytes>)
    requires frame != reply
    requires forall i :: 0 <= i < |frames| ==> |frames[i]| <= frame.Length
    modifies stack`ipId, stack.conn, frame, reply
    ensures stack.View() == Run(old(stack.View()), Turns(frames, reply.Length))
    ensures replies == RepliesOf(old(stack.View()), Turns(frames, reply.Length))
    ensures forall i :: 0 <= i < |frames| ==>
              replies[i] == Step(Run(old(stack.View()), Turns(frames[..i], reply.Length)), frames[i], reply.Length).reply
  {
    replies := [];
    ghost var s0 := stack.View();
    ghost var evs := Turns(frames, reply.Length);
    var i := 0;
    while i < |frames|
      invariant 0 <= i <= |frames|
      invariant stack.View() == Run(s0, evs[..i])
      invariant replies == RepliesOf(s0, evs[..i])
    {
      Copy(frame, 0, frames[i]);
      assert frame[..|frames[i]|] == frames[i];
      var n := stack.HandleFrame(frame, |frames[i]|, reply);
      assert reply[..n] == reply[..][..n];
      replies := replies + [reply[..n]];
      assert Front(evs[..i + 1]) == evs[..i] && Last(evs[..i + 1]) == evs[i];
      i := i + 1;
    }
    assert evs[..i] == evs;
    InCaptureOrder(s0, frames, reply.Length);
  }

  /** The i-th reply answers the i-th frame, in the state that the frames before it have led to. */
  lemma InCaptureOrder(s: State, frames: seq<Bytes>, cap: nat)
    ensures forall i :: 0 <= i < |frames| ==>
              RepliesOf(s, Turns(frames, cap))[i] == Step(Run(s, Turns(frames[..i], cap)), frames[i], cap).reply
  {
    hide Step, Run, RepliesOf;
    forall i | 0 <= i < |frames|
      ensures RepliesOf(s, Turns(frames, cap))[i] == Step(Run(s, Turns(frames[..i], cap)), frames[i], cap).reply
    {
      ReplyAt(s, Turns(frames, cap), i);
      assert Turns(frames, cap)[..i] == Turns(frames[..i], cap);
    }
  }

  /** The documented demonstration: the sample capture replayed by a fresh stack. The
      data comes back exactly, and the connection waits for its last ACK. */
  method ReplaySample(data: Bytes, frame: array<uint8>, reply: array<uint8>) returns (stack: Stack, replies: seq<Bytes>)
    requires 0 < |data| <= 0xFFFF - 40 && frame != reply
    requires frame.Length >= 60 && frame.Length >= 54 + |data| && reply.Length >= 60 && reply.Length >= 54 + |data|
    modifies frame, reply
    ensures stack.conn.state == LastAck && stack.conn.bytesReceived == |data|
    ensures |replies| == 8 && WireStream(replies) == data
  {
    hide Run, RepliesOf, WireStream, Sample;
    SampleLengths(data);
    stack := new Stack(STACK_MAC, STACK_ADDR, 8080);
    SampleIsEchoed(Turns(Sample(data), reply.Length), data);
    replies := ReplayCapture(stack, Sample(data), frame, reply);
  }

  lemma SampleLengths(data: Bytes)
    requires |data| <= 0xFFFF - 40
    ensures |Sample(data)| == 8
    ensures forall i :: 0 <= i < 8 ==> |Sample(data)[i]| <= if 54 + |data| < 60 then 60 else 54 + |data|
  {
    hide TcpFrame, ArpRequest, IcmpEcho;
    TcpFrameLength(40001, 8080, 1000, 0, SYN, [], 0x2001);
    TcpFrameLength(40001, 8080, 1001, 0x00C0_FFEF, ACK, [], 0x2002);
    TcpFrameLength(40001, 8080, 1001, 0x00C0_FFEF, PSH + ACK, data, 0x2003);
    TcpFrameLength(40001, 8080, 1001 + |data|, 0x00C0_FFEF, FIN + ACK, [], 0x2004);
    TcpFrameLength(40002, 9999, 500, 0, SYN, [], 0x2005);
    OtherLengths();
  }

  lemma TcpFrameLength(sport: uint16, dport: uint16, seqNo: uint32, ack: uint32, flags: uint8, data: Bytes, ident: uint16)
    requires |data| <= 0xFFFF - 40
    ensures |TcpFrame(sport, dport, seqNo, ack, flags, data, ident)| == if 54 + |data| < 60 then 60 else 54 + |data|
  {
    hide Be16, Generator.Segment;
  }

  lemma OtherLengths()
    ensures |ArpRequest()| == 60 && |IcmpEcho(0x1234, 1, PING_DATA)| == 60 == |IcmpEcho(0x1234, 2, PING_DATA)|
  {
    hide Be16;
  }
}
