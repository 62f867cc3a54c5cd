/** From the byte stream to frames (omnicomm/protocol.cpp, recive_impl): the scan of the
    un-escaped buffer as a pure parser, and its independence of how the stream is cut. */
module Receiver {
  import opened Bytes
  import Crc
  import opened Frames
  import opened Escape

  /** std::find for the frame marker: its first position, or the length. */
  function FindMarker(s: seq<byte>): (at: nat)
    ensures at <= |s|
    ensures at < |s| ==> s[at] == PREFIX
    ensures forall i :: 0 <= i < at ==> s[i] != PREFIX
  {
    if s == [] || s[0] == PREFIX then 0 else 1 + FindMarker(s[1..])
  }

  /** What the scan meets first: too few bytes, a bad checksum, or a frame ending at `end`. */
  datatype Next = Wait | Corrupt | Frame(at: nat, end: nat)

  function NextFrame(s: seq<byte>): (r: Next)
    ensures r.Frame? ==> r.at == FindMarker(s) && r.at + 6 <= r.end <= |s|
  {
    FrameAt(s, FindMarker(s))
  }

  function FrameAt(s: seq<byte>, at: nat): (r: Next)
    requires at <= |s|
    ensures r.Frame? ==> r.at == at && at + 6 <= r.end <= |s|
  {
    if |s| - at < HEADER_SIZE then Wait
    else
      var end := at + HEADER_SIZE + Le16(s[at + 2], s[at + 3]) + 2;
      if |s| < end then Wait
      else if Accepted(s[at..end]) then Frame(at, end)
      else Corrupt
  }

  predicate Accepted(f: seq<byte>) {
    Complete(f) && CheckCrc(f)
  }

  /** The checks look only at the frame itself. */
  lemma FrameAlone(s: seq<byte>)
    requires Complete(s)
    ensures var f := s[..FullLength(s)];
            Complete(f) && FullLength(f) == FullLength(s) && CheckCrc(f) == CheckCrc(s)
  {
    var n := FullLength(s);
    assert s[..n][1..n - 2] == s[1..n - 2];
  }

  /** The frames to hand over, the bytes to keep, and whether a bad checksum stopped the scan. */
  datatype Scanned = Scanned(frames: seq<seq<byte>>, rest: seq<byte>, corrupt: bool)

  function Scan(s: seq<byte>): (r: Scanned)
    ensures |r.rest| <= |s|
    decreases |s|
  {
    match NextFrame(s)
    case Wait => Scanned([], s, false)
    case Corrupt => Scanned([], s, true)
    case Frame(at, end) =>
      var more := Scan(s[end..]);
      Scanned([s[at..end]] + more.frames, more.rest, more.corrupt)
  }

  // ----- More input never changes a decision already taken -----

  lemma {:induction false} FindMarkerAppend(a: seq<byte>, b: seq<byte>)
    requires FindMarker(a) < |a|
    ensures FindMarker(a + b) == FindMarker(a)
  {
    if a[0] != PREFIX {
      assert (a + b)[1..] == a[1..] + b;
      FindMarkerAppend(a[1..], b);
    }
  }

  lemma NextFrameAppend(a: seq<byte>, b: seq<byte>)
    requires !NextFrame(a).Wait?
    ensures NextFrame(a + b) == NextFrame(a)
  {
    FindMarkerAppend(a, b);
    FrameAtAppend(a, b, FindMarker(a));
  }

  lemma FrameAtAppend(a: seq<byte>, b: seq<byte>, at: nat)
    requires at <= |a| && !FrameAt(a, at).Wait?
    ensures FrameAt(a + b, at) == FrameAt(a, at)
  {
    hide CheckCrc;
    var end := at + HEADER_SIZE + Le16(a[at + 2], a[at + 3]) + 2;
    assert (a + b)[at..end] == a[at..end];
  }

  /** Going on from an earlier scan when more bytes arrive. */
  function Resume(x: Scanned, b: seq<byte>): Scanned {
    if x.corrupt then x.(rest := x.rest + b)
    else
      var more := Scan(x.rest + b);
      more.(frames := x.frames + more.frames)
  }

  lemma ResumeLater(f: seq<byte>, x: Scanned, b: seq<byte>)
    ensures Resume(x.(frames := [f] + x.frames), b) ==
            Resume(x, b).(frames := [f] + Resume(x, b).frames)
  {
    hide Scan;
    var more := Scan(x.rest + b);
    assert [f] + (x.frames + more.frames) == [f] + x.frames + more.frames;
  }

  /** Scanning a longer buffer is scanning the first part, then what it left with the rest. */
  lemma {:induction false} ScanAppend(a: seq<byte>, b: seq<byte>)
    ensures Scan(a + b) == Resume(Scan(a), b)
    decreases |a|
  {
    hide NextFrame, Resume;
    match NextFrame(a)
    case Wait =>
      ResumeNothing(a, b);
    case Corrupt =>
      NextFrameAppend(a, b);
      ResumeNothing(a, b);
    case Frame(at, end) =>
      NextFrameAppend(a, b);
      UnfoldAppend(a, b, at, end);
      ScanAppend(a[end..], b);
      ResumeLater(a[at..end], Scan(a[end..]), b);
  }

  lemma ResumeNothing(a: seq<byte>, b: seq<byte>)
    ensures Resume(Scanned([], a, false), b) == Scan(a + b)
    ensures Resume(Scanned([], a, true), b) == Scanned([], a + b, true)
  {
    hide Scan;
    var more := Scan(a + b);
    assert [] + more.frames == more.frames;
  }

  lemma UnfoldAppend(a: seq<byte>, b: seq<byte>, at: nat, end: nat)
    requires NextFrame(a) == NextFrame(a + b) == Frame(at, end)
    ensures Scan(a + b) == Scan(a[end..] + b).(frames := [a[at..end]] + Scan(a[end..] + b).frames)
  {
    hide NextFrame;
    assert (a + b)[at..end] == a[at..end];
    assert (a + b)[end..] == a[end..] + b;
  }

  /** What is kept holds no whole frame any more. */
  lemma {:induction false} ScanSettles(s: seq<byte>)
    ensures !Scan(s).corrupt ==> NextFrame(Scan(s).rest).Wait?
    ensures Scan(s).corrupt ==> NextFrame(Scan(s).rest).Corrupt?
    decreases |s|
  {
    hide NextFrame;
    match NextFrame(s)
    case Wait =>
    case Corrupt =>
    case Frame(at, end) => ScanSettles(s[end..]);
  }

  /** Shape of the bytes kept after an undisturbed scan: no marker, then nothing or the
      beginning of one frame, at most 65540 bytes of it. */
  lemma RetainedShape(s: seq<byte>)
    requires !Scan(s).corrupt
    ensures var rest := Scan(s).rest;
            var at := FindMarker(rest);
            && PREFIX !in rest[..at]
            && (at < |rest| ==> rest[at] == PREFIX && !Complete(rest[at..]) && |rest| - at <= 65540)
  {
    hide CheckCrc, Scan;
    ScanSettles(s);
  }

  /** Every frame handed over is complete, starts with the marker and passes the check. */
  lemma {:induction false} ScanFrames(s: seq<byte>)
    ensures forall f :: f in Scan(s).frames ==> IsFrame(f) && CheckCrc(f)
    decreases |s|
  {
    hide CheckCrc;
    match NextFrame(s)
    case Wait =>
    case Corrupt =>
    case Frame(at, end) => ScanFrames(s[end..]);
  }

  /** Nothing is lost or invented: the scanned bytes are the frames, each after a gap
      without a marker, and then what is kept. */
  predicate Tiles(s: seq<byte>, frames: seq<seq<byte>>, rest: seq<byte>)
    decreases |frames|
  {
    if frames == [] then s == rest
    else
      var at := FindMarker(s);
      && at + |frames[0]| <= |s|
      && s[at..at + |frames[0]|] == frames[0]
      && Tiles(s[at + |frames[0]|..], frames[1..], rest)
  }

  lemma {:induction false} ScanTiles(s: seq<byte>)
    ensures Tiles(s, Scan(s).frames, Scan(s).rest)
    decreases |s|
  {
    hide NextFrame, Tiles;
    match NextFrame(s)
    case Wait => NoTiles(s);
    case Corrupt => NoTiles(s);
    case Frame(at, end) =>
      ScanTiles(s[end..]);
      OneTile(s, at, end, Scan(s[end..]).frames, Scan(s[end..]).rest);
  }

  lemma NoTiles(s: seq<byte>)
    ensures Tiles(s, [], s)
  {
  }

  lemma OneTile(s: seq<byte>, at: nat, end: nat, frames: seq<seq<byte>>, rest: seq<byte>)
    requires at == FindMarker(s) && at <= end <= |s| && Tiles(s[end..], frames, rest)
    ensures Tiles(s, [s[at..end]] + frames, rest)
  {
    hide FindMarker;
    var all := [s[at..end]] + frames;
    assert all[0] == s[at..end] && all[1..] == frames;
  }

  // ----- The resumable receiver -----

  datatype Rx = Rx(buffer: seq<byte>, pending: bool, corrupt: bool)

  /** One network read: the receiver afterwards and the frames handed over. A receiver
      stopped by a bad checksum hands over nothing more. */
  function Receive(rx: Rx, data: seq<byte>): (r: (Rx, seq<seq<byte>>)) {
    if rx.corrupt then (rx, [])
    else
      var stored := Store(rx.pending, data);
      var scanned := Scan(rx.buffer + stored.out);
      (Rx(scanned.rest, stored.pending, scanned.corrupt), scanned.frames)
  }

  function ReceiveAll(rx: Rx, chunks: seq<seq<byte>>): (r: (Rx, seq<seq<byte>>))
    decreases |chunks|
  {
    if chunks == [] then (rx, [])
    else
      var first := Receive(rx, chunks[0]);
      var more := ReceiveAll(first.0, chunks[1..]);
      (more.0, first.1 + more.1)
  }

  /** A receiver between reads: everything that could be handed over has been. */
  predicate Settled(rx: Rx) {
    !rx.corrupt ==> NextFrame(rx.buffer).Wait?
  }

  const FRESH := Rx([], false, false)

  lemma FreshSettled()
    ensures Settled(FRESH)
  {
  }

  lemma ReceiveSettles(rx: Rx, data: seq<byte>)
    ensures rx.corrupt || Settled(Receive(rx, data).0)
  {
    if !rx.corrupt {
      ScanSettles(rx.buffer + Store(rx.pending, data).out);
    }
  }

  /** Two reads in a row are one read of both parts. */
  lemma ReceiveAppend(rx: Rx, a: seq<byte>, b: seq<byte>)
    requires !rx.corrupt
    ensures var first := Receive(rx, a);
            var second := Receive(first.0, b);
            var whole := Receive(rx, a + b);
            && whole.1 == first.1 + second.1
            && whole.0.corrupt == second.0.corrupt
            && (!whole.0.corrupt ==> whole.0 == second.0)
  {
    hide Store, Scan;
    StoreAppend(rx.pending, a, b);
    var x := Store(rx.pending, a);
    var y := Store(x.pending, b);
    ScanAppend(rx.buffer + x.out, y.out);
    assert rx.buffer + (x.out + y.out) == rx.buffer + x.out + y.out;
  }

  /** Chunking independence: the frames handed over, whether the scan stopped on a bad
      checksum, and, if it did not, the final buffer and un-escaper depend only on the
      concatenation of everything received. */
  lemma {:induction false} ChunkingIndependence(rx: Rx, chunks: seq<seq<byte>>)
    requires !rx.corrupt && Settled(rx)
    ensures var cut := ReceiveAll(rx, chunks);
            var whole := Receive(rx, Concat(chunks));
            && cut.1 == whole.1
            && cut.0.corrupt == whole.0.corrupt
            && (!whole.0.corrupt ==> cut.0 == whole.0)
    decreases |chunks|
  {
    hide NextFrame;
    if chunks == [] {
      assert rx.buffer + [] == rx.buffer;
    } else {
      var first := Receive(rx, chunks[0]);
      ReceiveSettles(rx, chunks[0]);
      ReceiveAppend(rx, chunks[0], Concat(chunks[1..]));
      if first.0.corrupt {
        StoppedForGood(first.0, chunks[1..]);
      } else {
        ChunkingIndependence(first.0, chunks[1..]);
      }
    }
  }

  lemma {:induction false} StoppedForGood(rx: Rx, chunks: seq<seq<byte>>)
    requires rx.corrupt
    ensures ReceiveAll(rx, chunks) == (rx, [])
    decreases |chunks|
  {
    if chunks != [] {
      StoppedForGood(rx, chunks[1..]);
      var none: seq<seq<byte>> := [];
      assert Receive(rx, chunks[0]) == (rx, none) && none + none == none;
    }
  }

  /** From a new connection, the reference is one pass of the pure parser over the stream. */
  lemma ParsesTheStream(chunks: seq<seq<byte>>)
    ensures var parsed := Scan(Store(false, Concat(chunks)).out);
            && ReceiveAll(FRESH, chunks).1 == parsed.frames
            && ReceiveAll(FRESH, chunks).0.corrupt == parsed.corrupt
            && (!parsed.corrupt ==>
                  ReceiveAll(FRESH, chunks).0 == Rx(parsed.rest, Store(false, Concat(chunks)).pending, false))
  {
    hide Scan;
    FreshSettled();
    ChunkingIndependence(FRESH, chunks);
    assert [] + Store(false, Concat(chunks)).out == Store(false, Concat(chunks)).out;
  }

  // ----- Round trip -----

  datatype Message = Message(cmd: byte, data: Payload)

  /** A message on the wire with its CRC in the order the receiver reads it. */
  function Encode(m: Message): (s: seq<byte>)
  {
    var body := Body(m.cmd, m.data);
    Wire([PREFIX] + body, HighByte(Crc.Crc16(body)), LowByte(Crc.Crc16(body)))
  }

  /** Bytes between frames: un-escaped they hold no marker, and no escape is left pending. */
  predicate Gap(g: seq<byte>) {
    !Store(false, g).pending && PREFIX !in Store(false, g).out
  }

  /** Messages on the wire, each after its gap. */
  function Stream(ms: seq<Message>, gaps: seq<seq<byte>>): (s: seq<byte>)
    requires |gaps| == |ms|
  {
    if ms == [] then [] else gaps[0] + Encode(ms[0]) + Stream(ms[1..], gaps[1..])
  }

  function FramesOf(ms: seq<Message>): (fs: seq<seq<byte>>)
  {
    if ms == [] then [] else [MakeFrame(ms[0].cmd, ms[0].data)] + FramesOf(ms[1..])
  }

  lemma EncodeRecovered(m: Message)
    ensures Store(false, Encode(m)) == Stored(false, MakeFrame(m.cmd, m.data))
  {
    var body := Body(m.cmd, m.data);
    WireRecovered([PREFIX] + body, HighByte(Crc.Crc16(body)), LowByte(Crc.Crc16(body)));
  }

  lemma {:induction false} FindMarkerAfter(gap: seq<byte>, s: seq<byte>)
    requires PREFIX !in gap
    ensures FindMarker(gap + s) == |gap| + FindMarker(s)
  {
    if gap == [] {
      assert gap + s == s;
    } else {
      assert gap[0] != PREFIX;
      assert (gap + s)[1..] == gap[1..] + s;
      FindMarkerAfter(gap[1..], s);
    }
  }

  lemma NextIsFrame(gap: seq<byte>, f: seq<byte>, s: seq<byte>)
    requires PREFIX !in gap && IsFrame(f) && CheckCrc(f)
    ensures NextFrame(gap + f + s) == Frame(|gap|, |gap| + |f|)
  {
    hide CheckCrc;
    assert gap + f + s == gap + (f + s);
    FindMarkerAfter(gap, f + s);
    assert FindMarker(f + s) == 0;
    assert (gap + f + s)[|gap|..] == f + s;
    assert (f + s)[..|f|] == f;
    FrameAlone(f + s);
  }

  /** A marker-free gap and an accepted frame contribute exactly that frame. */
  lemma ScanOneFrame(gap: seq<byte>, f: seq<byte>, s: seq<byte>)
    requires PREFIX !in gap && IsFrame(f) && CheckCrc(f)
    ensures Scan(gap + (f + s)) == Scan(s).(frames := [f] + Scan(s).frames)
  {
    hide NextFrame, IsFrame, CheckCrc;
    NextIsFrame(gap, f, s);
    var t := gap + f + s;
    assert t == gap + (f + s);
    assert t[|gap|..|gap| + |f|] == f && t[|gap| + |f|..] == s;
  }

  /** Un-escaping a stream leaves each gap and frame in its place. */
  lemma StreamStored(m: Message, gap: seq<byte>, tail: seq<byte>)
    requires Gap(gap)
    ensures var more := Store(false, tail);
            Store(false, gap + Encode(m) + tail) ==
            Stored(more.pending, Store(false, gap).out + (MakeFrame(m.cmd, m.data) + more.out))
  {
    hide Store, Encode, MakeFrame;
    assert gap + Encode(m) + tail == gap + (Encode(m) + tail);
    StoreAppend(false, gap, Encode(m) + tail);
    StoreAppend(false, Encode(m), tail);
    EncodeRecovered(m);
  }

  lemma {:induction false} StreamScanned(ms: seq<Message>, gaps: seq<seq<byte>>, last: seq<byte>)
    requires |gaps| == |ms|
    requires Gap(last) && forall g :: g in gaps ==> Gap(g)
    ensures var stored := Store(false, Stream(ms, gaps) + last);
            !stored.pending && Scan(stored.out) == Scanned(FramesOf(ms), Store(false, last).out, false)
    decreases |ms|
  {
    hide Store, Encode, MakeFrame, NextFrame, IsFrame, CheckCrc;
    if ms == [] {
      assert Stream(ms, gaps) + last == last;
      NoMarker(Store(false, last).out);
    } else {
      var m, tail := ms[0], Stream(ms[1..], gaps[1..]) + last;
      StreamScanned(ms[1..], gaps[1..], last);
      assert Gap(gaps[0]);
      assert Stream(ms, gaps) + last == gaps[0] + Encode(m) + tail;
      StreamStored(m, gaps[0], tail);
      MakeFrameAccepted(m.cmd, m.data);
      ScanOneFrame(Store(false, gaps[0]).out, MakeFrame(m.cmd, m.data), Store(false, tail).out);
    }
  }

  lemma NoMarker(s: seq<byte>)
    requires PREFIX !in s
    ensures NextFrame(s).Wait?
  {
    FindMarkerAfter(s, []);
    assert s + [] == s;
    assert s[|s|..] == [];
  }

  /** Transport round trip: however the stream is cut, exactly the encoded frames come
      out, in order; what is kept is the un-escaped trailing gap, nothing if there is none. */
  lemma StreamRoundTrip(ms: seq<Message>, gaps: seq<seq<byte>>, last: seq<byte>, chunks: seq<seq<byte>>)
    requires |gaps| == |ms|
    requires Gap(last) && forall g :: g in gaps ==> Gap(g)
    requires Concat(chunks) == Stream(ms, gaps) + last
    ensures ReceiveAll(FRESH, chunks) == (Rx(Store(false, last).out, false, false), FramesOf(ms))
    ensures last == [] ==> ReceiveAll(FRESH, chunks).0 == FRESH
  {
    StreamScanned(ms, gaps, last);
    ParsesTheStream(chunks);
  }
}
