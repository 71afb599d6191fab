/** The frames of the binary protocol: four bytes of message id, two bytes of total size, and the rest. */
module Frames {
  import opened LittleEndian
  import opened Texts

  const HEADER: nat := 6

  function Token(frame: string): nat
    requires 4 <= |frame|
  {
    Unsigned(frame[..4])
  }

  function SizeField(data: string): nat
    requires HEADER <= |data|
  {
    Unsigned(data[4..6])
  }

  predicate IsFrame(frame: string) { HEADER <= |frame| && SizeField(frame) == |frame| }

  /** A frame with nothing in it. */
  function Empty(): (frame: string)
    ensures IsFrame(frame)
  {
    var frame := ['\0', '\0', '\0', '\0', 6 as char, '\0'];
    assert frame[4..6] == [6 as char, '\0'];
    assert frame[4..6][1..] == ['\0'] && Unsigned(['\0']) == 0;
    frame
  }

  type Frame = f: string | IsFrame(f) witness Empty()

  /** A complete frame is at the front. */
  predicate HasFrame(data: string) { HEADER <= |data| && HEADER <= SizeField(data) <= |data| }

  /** Every size that has arrived is at least that of the header; the other side never sends less. */
  predicate Framed(data: string)
    decreases |data|
  {
    |data| < HEADER || (HEADER <= SizeField(data) && (SizeField(data) <= |data| ==> Framed(data[SizeField(data)..])))
  }

  /** The complete frames at the front. */
  function Complete(data: string): seq<Frame>
    decreases |data|
  {
    if HasFrame(data) then [First(data)] + Complete(data[SizeField(data)..]) else []
  }

  function First(data: string): Frame
    requires HasFrame(data)
  {
    assert data[..SizeField(data)][4..6] == data[4..6];
    data[..SizeField(data)]
  }

  /** What is left behind the complete frames. */
  function Rest(data: string): string
    decreases |data|
  {
    if HasFrame(data) then Rest(data[SizeField(data)..]) else data
  }

  lemma FrontStays(data: string, more: string)
    requires HEADER <= |data|
    ensures SizeField(data + more) == SizeField(data)
    ensures Token(data + more) == Token(data)
    ensures HasFrame(data) ==> HasFrame(data + more)
                               && (data + more)[..SizeField(data)] == data[..SizeField(data)]
                               && (data + more)[SizeField(data)..] == data[SizeField(data)..] + more
  {
    assert (data + more)[4..6] == data[4..6];
    assert (data + more)[..4] == data[..4];
  }

  /** The front of a stream is made of frames, and its frames have the sizes they say. */
  lemma {:induction false} FramesAndRest(data: string)
    ensures data == Join(Complete(data)) + Rest(data)
    ensures Complete(Rest(data)) == []
    decreases |data|
  {
    if HasFrame(data) {
      var size := SizeField(data);
      var front, tail := First(data), data[size..];
      FramesAndRest(tail);
      assert data == front + tail;
      assert front + (Join(Complete(tail)) + Rest(tail)) == front + Join(Complete(tail)) + Rest(tail);
      assert Complete(data)[1..] == Complete(tail);
    }
  }

  /** More bytes only add frames behind the ones there are. */
  lemma {:induction false} MoreBytes(data: string, more: string)
    ensures Complete(data + more) == Complete(data) + Complete(Rest(data) + more)
    ensures Rest(data + more) == Rest(Rest(data) + more)
    decreases |data|
  {
    if HasFrame(data) {
      FrontStays(data, more);
      var size := SizeField(data);
      MoreBytes(data[size..], more);
      assert First(data + more) == First(data);
      assert [First(data)] + (Complete(data[size..]) + Complete(Rest(data) + more))
          == [First(data)] + Complete(data[size..]) + Complete(Rest(data) + more);
    }
  }

  lemma {:induction false} FramedSplits(data: string, more: string)
    requires Framed(data + more)
    ensures Framed(data)
    ensures Framed(Rest(data) + more)
    decreases |data|
  {
    if HEADER <= |data| {
      FrontStays(data, more);
      if HasFrame(data) { FramedSplits(data[SizeField(data)..], more); }
    }
  }

  /** A frame at the front is the first one. */
  lemma FirstFrame(frame: Frame, tail: string)
    ensures HasFrame(frame + tail) && SizeField(frame + tail) == |frame| && Token(frame + tail) == Token(frame)
    ensures (frame + tail)[|frame|..] == tail
    ensures Complete(frame + tail) == [frame] + Complete(tail)
    ensures Rest(frame + tail) == Rest(tail)
  {
    hide Unsigned;
    FrontStays(frame, tail);
    assert (frame + tail)[|frame|..] == tail && (frame + tail)[..|frame|] == frame;
  }

  /** Frames in a row are read as those frames. */
  lemma {:induction false} JoinedFrames(frames: seq<Frame>, rest: string)
    requires Complete(rest) == []
    ensures Complete(Join(frames) + rest) == frames
    ensures Rest(Join(frames) + rest) == rest
    decreases |frames|
  {
    hide Complete, Rest, IsFrame;
    if frames == [] {
      assert Join(frames) + rest == rest;
      NoFrames(rest);
    } else {
      var tail := Join(frames[1..]) + rest;
      FirstFrame(frames[0], tail);
      assert Join(frames) + rest == frames[0] + tail;
      JoinedFrames(frames[1..], rest);
      assert [frames[0]] + frames[1..] == frames;
    }
  }

  lemma NoFrames(data: string)
    requires Complete(data) == []
    ensures !HasFrame(data) && Rest(data) == data
  {
  }

  /** A piece cut off the front of a frame holds no frame. */
  lemma PieceOfFrame(frame: Frame, n: nat)
    requires n < |frame|
    ensures Complete(frame[..n]) == [] && Rest(frame[..n]) == frame[..n]
  {
    if HEADER <= n { FrontStays(frame[..n], frame[n..]); assert frame[..n] + frame[n..] == frame; }
  }
}
