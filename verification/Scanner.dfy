/**
 * The scanning discipline of RtcmStreamParser.feed in src/rtcm.py, for any way of judging the head of
 * the buffer: skip one byte, wait for more, reject one byte, or take a frame.
 */
module Scanner {
  import opened ByteStrings

  datatype RtcmFrame = RtcmFrame(msgType: nat, raw: Bytes)

  datatype Head = Noise | Incomplete | Rejected | Accepted(frame: RtcmFrame)

  /** An accepted frame is a non-empty prefix of the buffer. */
  ghost predicate Shaped(judge: Bytes -> Head)
  {
    forall buf: Bytes :: buf != [] && judge(buf).Accepted? ==>
      var raw := judge(buf).frame.raw;
      1 <= |raw| <= |buf| && raw == buf[..|raw|]
  }

  /** More bytes never change a verdict other than `Incomplete`. */
  ghost predicate Stable(judge: Bytes -> Head)
  {
    forall a: Bytes, b: Bytes {:trigger judge(a + b)} :: a != [] && !judge(a).Incomplete? ==> judge(a + b) == judge(a)
  }

  /** A frame cut off at its end is accepted just the same, and cut short it is waited for. */
  ghost predicate Prompt(judge: Bytes -> Head)
  {
    forall buf: Bytes :: buf != [] && judge(buf).Accepted? ==> WholeBy(judge, judge(buf).frame)
  }

  ghost predicate WholeBy(judge: Bytes -> Head, f: RtcmFrame)
  {
    && f.raw != []
    && judge(f.raw) == Accepted(f)
    && forall k :: 0 < k < |f.raw| ==> judge(f.raw[..k]) == Incomplete
  }

  ghost predicate Lawful(judge: Bytes -> Head)
  {
    Shaped(judge) && Stable(judge) && Prompt(judge)
  }

  datatype Scanned = Scanned(frames: seq<RtcmFrame>, errors: nat, rest: Bytes)

  /** A scan preceded by what was already found. */
  function Join(frames: seq<RtcmFrame>, errors: nat, s: Scanned): Scanned
  {
    Scanned(frames + s.frames, errors + s.errors, s.rest)
  }

  /** Bytes taken, frames emitted and errors counted by one decision at the head of the buffer. */
  function Taken(h: Head): nat
  {
    if h.Accepted? then |h.frame.raw| else 1
  }

  function Emitted(h: Head): seq<RtcmFrame>
  {
    if h.Accepted? then [h.frame] else []
  }

  function Errors(h: Head): nat
  {
    if h.Rejected? then 1 else 0
  }

  /** One left-to-right scan. */
  ghost function Scan(judge: Bytes -> Head, buf: Bytes): Scanned
    requires Shaped(judge)
    decreases |buf|
  {
    if buf == [] || judge(buf).Incomplete? then Scanned([], 0, buf)
    else
      var h := judge(buf);
      Join(Emitted(h), Errors(h), Scan(judge, buf[Taken(h)..]))
  }

  lemma JoinJoin(a: seq<RtcmFrame>, d: nat, b: seq<RtcmFrame>, e: nat, s: Scanned)
    ensures Join(a, d, Join(b, e, s)) == Join(a + b, d + e, s)
    ensures Join([], 0, s) == s
  {
    assert a + (b + s.frames) == (a + b) + s.frames;
    assert [] + s.frames == s.frames;
  }

  /** Scanning a stream in two parts, carrying the residual over, is scanning it whole. */
  lemma {:induction false} ScanAppend(judge: Bytes -> Head, a: Bytes, b: Bytes)
    requires Shaped(judge) && Stable(judge)
    ensures Scan(judge, a + b) ==
      Join(Scan(judge, a).frames, Scan(judge, a).errors, Scan(judge, Scan(judge, a).rest + b))
    decreases |a|
  {
    JoinJoin([], 0, [], 0, Scan(judge, a + b));
    if a == [] {
      assert a + b == b;
    } else if !judge(a).Incomplete? {
      var h := judge(a);
      var t := a[Taken(h)..];
      assert judge(a + b) == h && (a + b)[Taken(h)..] == t + b;
      ScanAppend(judge, t, b);
      JoinJoin(Emitted(h), Errors(h), Scan(judge, t).frames, Scan(judge, t).errors,
               Scan(judge, Scan(judge, t).rest + b));
    }
  }

  /** What a scan leaves is a suffix that is empty or waiting, and gives nothing when scanned again. */
  lemma {:induction false} ScanRest(judge: Bytes -> Head, buf: Bytes)
    requires Shaped(judge)
    ensures var s := Scan(judge, buf);
      && |s.rest| <= |buf| && s.rest == buf[|buf| - |s.rest|..]
      && (s.rest == [] || judge(s.rest).Incomplete?)
      && Scan(judge, s.rest) == Scanned([], 0, s.rest)
    decreases |buf|
  {
    if buf != [] && !judge(buf).Incomplete? {
      ScanRest(judge, buf[Taken(judge(buf))..]);
    }
  }

  // ----- chunking independence -----

  /** Feeding chunks one by one to a parser that holds `buf`: all frames, all errors, the last residual. */
  ghost function FeedRun(judge: Bytes -> Head, buf: Bytes, chunks: seq<Bytes>): Scanned
    requires Shaped(judge)
    decreases |chunks|
  {
    if chunks == [] then Scanned([], 0, buf)
    else
      var s := Scan(judge, buf + chunks[0]);
      Join(s.frames, s.errors, FeedRun(judge, s.rest, chunks[1..]))
  }

  /** A parser that has scanned `buf` and is then fed `chunks` has scanned all of it. */
  lemma {:induction false} FeedRunAfter(judge: Bytes -> Head, buf: Bytes, chunks: seq<Bytes>)
    requires Shaped(judge) && Stable(judge)
    ensures var s := Scan(judge, buf);
      Join(s.frames, s.errors, FeedRun(judge, s.rest, chunks)) == Scan(judge, buf + Concat(chunks))
    decreases |chunks|
  {
    if chunks == [] {
      FeedNothing(judge, buf);
    } else {
      var c, tail := chunks[0], chunks[1..];
      FirstChunk(buf, c, tail);
      assert chunks == [c] + tail;
      FeedRunAfter(judge, buf + c, tail);
      FeedOneMore(judge, buf, c, tail);
    }
  }

  lemma FirstChunk(buf: Bytes, c: Bytes, tail: seq<Bytes>)
    ensures buf + Concat([c] + tail) == (buf + c) + Concat(tail)
  {
    assert ([c] + tail)[1..] == tail;
  }

  lemma FeedNothing(judge: Bytes -> Head, buf: Bytes)
    requires Shaped(judge)
    ensures var s := Scan(judge, buf); Join(s.frames, s.errors, FeedRun(judge, s.rest, [])) == Scan(judge, buf + [])
  {
    assert buf + [] == buf;
    assert Scan(judge, buf).frames + [] == Scan(judge, buf).frames;
  }

  /** Scanning one more chunk first, or leaving it to the run, makes no difference. */
  lemma FeedOneMore(judge: Bytes -> Head, buf: Bytes, c: Bytes, tail: seq<Bytes>)
    requires Shaped(judge) && Stable(judge)
    ensures var s, u := Scan(judge, buf), Scan(judge, buf + c);
      Join(s.frames, s.errors, FeedRun(judge, s.rest, [c] + tail)) ==
      Join(u.frames, u.errors, FeedRun(judge, u.rest, tail))
  {
    var s := Scan(judge, buf);
    var t := Scan(judge, s.rest + c);
    ScanAppend(judge, buf, c);
    assert ([c] + tail)[1..] == tail;
    JoinJoin(s.frames, s.errors, t.frames, t.errors, FeedRun(judge, t.rest, tail));
  }

  /** However a stream is cut into chunks, feeding them gives what one scan of the whole stream gives. */
  lemma ChunkingIndependence(judge: Bytes -> Head, chunks: seq<Bytes>)
    requires Shaped(judge) && Stable(judge)
    ensures FeedRun(judge, [], chunks) == Scan(judge, Concat(chunks))
  {
    FeedRunAfter(judge, [], chunks);
    JoinJoin([], 0, [], 0, FeedRun(judge, [], chunks));
    assert [] + Concat(chunks) == Concat(chunks);
  }

  // ----- frames and their bytes -----

  function RawBytes(frames: seq<RtcmFrame>): Bytes
  {
    if frames == [] then [] else frames[0].raw + RawBytes(frames[1..])
  }

  lemma {:induction false} RawBytesAppend(a: seq<RtcmFrame>, b: seq<RtcmFrame>)
    ensures RawBytes(a + b) == RawBytes(a) + RawBytes(b)
  {
    if a == [] {
      assert a + b == b;
    } else {
      assert (a + b)[1..] == a[1..] + b;
      RawBytesAppend(a[1..], b);
    }
  }

  /** Frames, rejected heads and residual take disjoint parts of the input. */
  lemma {:induction false} ScanLength(judge: Bytes -> Head, buf: Bytes)
    requires Shaped(judge)
    ensures var s := Scan(judge, buf); |RawBytes(s.frames)| + s.errors + |s.rest| <= |buf|
    decreases |buf|
  {
    if buf != [] && !judge(buf).Incomplete? {
      var h := judge(buf);
      var s := Scan(judge, buf[Taken(h)..]);
      ScanLength(judge, buf[Taken(h)..]);
      RawBytesAppend(Emitted(h), s.frames);
      RawBytesOne(h);
    }
  }

  lemma RawBytesOne(h: Head)
    ensures RawBytes(Emitted(h)) == if h.Accepted? then h.frame.raw else []
  {
    if h.Accepted? {
      assert Emitted(h)[1..] == [];
    }
  }

  // ----- streams made of whole frames -----

  ghost predicate AllWhole(judge: Bytes -> Head, frames: seq<RtcmFrame>)
  {
    forall k :: 0 <= k < |frames| ==> WholeBy(judge, frames[k])
  }

  lemma {:induction false} ScanEmitsWhole(judge: Bytes -> Head, buf: Bytes)
    requires Shaped(judge) && Prompt(judge)
    ensures AllWhole(judge, Scan(judge, buf).frames)
    decreases |buf|
  {
    if buf != [] && !judge(buf).Incomplete? {
      ScanEmitsWhole(judge, buf[Taken(judge(buf))..]);
    }
  }

  lemma WholeThenRest(judge: Bytes -> Head, f: RtcmFrame, rest: Bytes)
    requires Shaped(judge) && Stable(judge) && WholeBy(judge, f)
    ensures Scan(judge, f.raw + rest) == Join([f], 0, Scan(judge, rest))
  {
    assert judge(f.raw + rest) == Accepted(f);
    assert (f.raw + rest)[|f.raw|..] == rest;
  }

  /** Scanning whole frames gives exactly those frames, then whatever follows them. */
  lemma {:induction false} ScanWhole(judge: Bytes -> Head, frames: seq<RtcmFrame>, tail: Bytes)
    requires Shaped(judge) && Stable(judge) && AllWhole(judge, frames)
    ensures Scan(judge, RawBytes(frames) + tail) == Join(frames, 0, Scan(judge, tail))
    decreases |frames|
  {
    if frames == [] {
      assert RawBytes(frames) + tail == tail;
      JoinJoin([], 0, [], 0, Scan(judge, tail));
    } else {
      var f, rest := frames[0], RawBytes(frames[1..]) + tail;
      assert RawBytes(frames) + tail == f.raw + rest;
      WholeThenRest(judge, f, rest);
      ScanWhole(judge, frames[1..], tail);
      JoinJoin([f], 0, frames[1..], 0, Scan(judge, tail));
      assert [f] + frames[1..] == frames;
    }
  }

  /** A scan without error into some of the frames, from the first on, and the bytes after them. */
  predicate CleanScan(s: Scanned, frames: seq<RtcmFrame>, bytes: Bytes)
  {
    s.errors == 0 && s.frames <= frames && RawBytes(s.frames) + s.rest == bytes
  }

  /**
   * Any cut through a stream of whole frames: the frames before the cut, no error, and the bytes of
   * the frame it goes through kept back.
   */
  lemma {:induction false} ScanCut(judge: Bytes -> Head, frames: seq<RtcmFrame>, k: nat)
    requires Shaped(judge) && Stable(judge) && AllWhole(judge, frames) && k <= |RawBytes(frames)|
    ensures CleanScan(Scan(judge, RawBytes(frames)[..k]), frames, RawBytes(frames)[..k])
    decreases |frames|
  {
    if frames != [] {
      var f, later := frames[0], frames[1..];
      CutBytes(frames, k);
      if k < |f.raw| {
        CutInFirst(judge, f, later, k);
      } else {
        ScanCut(judge, later, k - |f.raw|);
        CutLater(judge, f, later, RawBytes(later)[..k - |f.raw|]);
      }
    }
  }

  lemma CutBytes(frames: seq<RtcmFrame>, k: nat)
    requires frames != [] && k <= |RawBytes(frames)|
    ensures frames == [frames[0]] + frames[1..]
    ensures var n := |frames[0].raw|;
      RawBytes(frames)[..k] ==
      if k < n then frames[0].raw[..k] else frames[0].raw + RawBytes(frames[1..])[..k - n]
  {
  }

  lemma CutInFirst(judge: Bytes -> Head, f: RtcmFrame, later: seq<RtcmFrame>, k: nat)
    requires Shaped(judge) && WholeBy(judge, f) && k < |f.raw|
    ensures CleanScan(Scan(judge, f.raw[..k]), [f] + later, f.raw[..k])
  {
    assert RawBytes([]) + f.raw[..k] == f.raw[..k];
  }

  lemma CutLater(judge: Bytes -> Head, f: RtcmFrame, later: seq<RtcmFrame>, c: Bytes)
    requires Shaped(judge) && Stable(judge) && WholeBy(judge, f) && CleanScan(Scan(judge, c), later, c)
    ensures CleanScan(Scan(judge, f.raw + c), [f] + later, f.raw + c)
  {
    WholeThenRest(judge, f, c);
    CutStep(f, later, Scan(judge, c), c);
  }

  lemma CutStep(f: RtcmFrame, later: seq<RtcmFrame>, s: Scanned, c: Bytes)
    requires s.frames <= later && RawBytes(s.frames) + s.rest == c
    ensures [f] + s.frames <= [f] + later && RawBytes([f] + s.frames) + s.rest == f.raw + c
  {
    assert ([f] + s.frames)[1..] == s.frames;
    assert (f.raw + RawBytes(s.frames)) + s.rest == f.raw + (RawBytes(s.frames) + s.rest);
  }

  // ----- the greedy leftmost parse, declaratively -----

  /** A whole frame starts at position `p` of the stream. */
  ghost predicate FrameAt(judge: Bytes -> Head, stream: Bytes, p: int)
  {
    0 <= p < |stream| && judge(stream[p..]).Accepted?
  }

  ghost function FrameOf(judge: Bytes -> Head, stream: Bytes, p: int): RtcmFrame
    requires FrameAt(judge, stream, p)
  {
    judge(stream[p..]).frame
  }

  ghost function EndOf(judge: Bytes -> Head, stream: Bytes, p: int): int
    requires FrameAt(judge, stream, p)
  {
    p + |FrameOf(judge, stream, p).raw|
  }

  /** The stream holds enough bytes to tell that no frame starts at `p`. */
  ghost predicate NoFrameAt(judge: Bytes -> Head, stream: Bytes, p: int)
  {
    0 <= p < |stream| && (judge(stream[p..]).Noise? || judge(stream[p..]).Rejected?)
  }

  /** A frame seemed to start at `p`, and the judge rejected it. */
  ghost predicate RejectedAt(judge: Bytes -> Head, stream: Bytes, p: int)
  {
    0 <= p < |stream| && judge(stream[p..]).Rejected?
  }

  /** The stream ends at `p`, or what starts there is still incomplete. */
  ghost predicate StopsAt(judge: Bytes -> Head, stream: Bytes, p: int)
  {
    p == |stream| || (0 <= p < |stream| && judge(stream[p..]).Incomplete?)
  }

  ghost predicate Inside(judge: Bytes -> Head, stream: Bytes, start: int, p: int)
  {
    FrameAt(judge, stream, start) && start <= p < EndOf(judge, stream, start)
  }

  ghost predicate Covered(judge: Bytes -> Head, stream: Bytes, starts: seq<int>, p: int)
  {
    exists k :: 0 <= k < |starts| && Inside(judge, stream, starts[k], p)
  }

  /** Disjoint frames, in order, between `from` and `to`. */
  ghost predicate InOrder(judge: Bytes -> Head, stream: Bytes, starts: seq<int>, from: int, to: int)
  {
    && (forall k :: 0 <= k < |starts| ==>
          from <= starts[k] && FrameAt(judge, stream, starts[k]) && EndOf(judge, stream, starts[k]) <= to)
    && (forall j, k :: 0 <= j < k < |starts| ==> EndOf(judge, stream, starts[j]) <= starts[k])
  }

  /**
   * The frames at `starts` are disjoint and in order and end by `r`; before `r` no frame starts at any
   * position they do not cover; and at `r` the stream ends or more bytes are needed.
   */
  ghost predicate GreedyParse(judge: Bytes -> Head, stream: Bytes, starts: seq<int>, r: int)
  {
    && 0 <= r <= |stream|
    && InOrder(judge, stream, starts, 0, r)
    && (forall p :: 0 <= p < r && !Covered(judge, stream, starts, p) ==> NoFrameAt(judge, stream, p))
    && StopsAt(judge, stream, r)
  }

  ghost function Rejections(judge: Bytes -> Head, stream: Bytes, starts: seq<int>, from: int, r: int): set<int>
  {
    set p | from <= p < r && !Covered(judge, stream, starts, p) && RejectedAt(judge, stream, p)
  }

  ghost function FramesAt(judge: Bytes -> Head, stream: Bytes, starts: seq<int>): (r: seq<RtcmFrame>)
    requires forall k :: 0 <= k < |starts| ==> FrameAt(judge, stream, starts[k])
    ensures |r| == |starts|
  {
    if starts == [] then [] else [FrameOf(judge, stream, starts[0])] + FramesAt(judge, stream, starts[1..])
  }

  /** A frame lying wholly before the stop but not emitted overlaps an emitted frame that starts earlier. */
  lemma MissedFrameOverlaps(judge: Bytes -> Head, stream: Bytes, starts: seq<int>, r: int, p: int)
    requires GreedyParse(judge, stream, starts, r)
    requires FrameAt(judge, stream, p) && EndOf(judge, stream, p) <= r && p !in starts && p < r
    ensures exists k :: 0 <= k < |starts| && starts[k] < p && Inside(judge, stream, starts[k], p)
  {
    assert Covered(judge, stream, starts, p);
    var k :| 0 <= k < |starts| && Inside(judge, stream, starts[k], p);
    assert starts[k] < p;
  }

  /** After `k` common frames, neither parse can go on to a position before the other's next. */
  lemma NoEarlierNext(judge: Bytes -> Head, stream: Bytes, s1: seq<int>, r1: int, s2: seq<int>, r2: int, k: nat)
    requires GreedyParse(judge, stream, s1, r1) && GreedyParse(judge, stream, s2, r2)
    requires k <= |s1| && k <= |s2| && s1[..k] == s2[..k]
    ensures (if k < |s1| then s1[k] else r1) >= (if k < |s2| then s2[k] else r2)
  {
    var a, b := if k < |s1| then s1[k] else r1, if k < |s2| then s2[k] else r2;
    assert forall j :: 0 <= j < k ==> s1[j] == s1[..k][j] == s2[..k][j] == s2[j];
    if a < b && Covered(judge, stream, s2, a) {
      var j :| 0 <= j < |s2| && Inside(judge, stream, s2[j], a);
    }
  }

  /** Two greedy parses of one stream are the same. */
  lemma {:induction false} GreedyUnique(judge: Bytes -> Head, stream: Bytes, s1: seq<int>, r1: int, s2: seq<int>,
                                        r2: int, k: nat)
    requires GreedyParse(judge, stream, s1, r1) && GreedyParse(judge, stream, s2, r2)
    requires k <= |s1| && k <= |s2| && s1[..k] == s2[..k]
    ensures s1 == s2 && r1 == r2
    decreases |s1| - k
  {
    NoEarlierNext(judge, stream, s1, r1, s2, r2, k);
    NoEarlierNext(judge, stream, s2, r2, s1, r1, k);
    if k < |s1| && k < |s2| {
      assert s1[..k + 1] == s1[..k] + [s1[k]] && s2[..k + 1] == s2[..k] + [s2[k]];
      GreedyUnique(judge, stream, s1, r1, s2, r2, k + 1);
    } else {
      assert k == |s1| == |s2|;
      assert s1[..k] == s1 && s2[..k] == s2;
    }
  }

  // ----- the scan is the greedy parse -----

  /** Where the frames of a scan from position `at` start. */
  ghost function Starts(judge: Bytes -> Head, stream: Bytes, at: int): seq<int>
    requires Shaped(judge) && 0 <= at <= |stream|
    decreases |stream| - at
  {
    if StopsAt(judge, stream, at) then []
    else
      var h := judge(stream[at..]);
      (if h.Accepted? then [at] else []) + Starts(judge, stream, at + Taken(h))
  }

  /** Where a scan from position `at` stops. */
  ghost function Stop(judge: Bytes -> Head, stream: Bytes, at: int): (r: int)
    requires Shaped(judge) && 0 <= at <= |stream|
    ensures at <= r <= |stream| && StopsAt(judge, stream, r)
    decreases |stream| - at
  {
    if StopsAt(judge, stream, at) then at else Stop(judge, stream, at + Taken(judge(stream[at..])))
  }

  lemma SuffixOfSuffix(stream: Bytes, at: nat, n: nat)
    requires at + n <= |stream|
    ensures stream[at..][n..] == stream[at + n..]
  {
  }

  lemma {:induction false} StartsInOrder(judge: Bytes -> Head, stream: Bytes, at: nat)
    requires Shaped(judge) && at <= |stream|
    ensures InOrder(judge, stream, Starts(judge, stream, at), at, Stop(judge, stream, at))
    decreases |stream| - at
  {
    if !StopsAt(judge, stream, at) {
      var next := at + Taken(judge(stream[at..]));
      StartsInOrder(judge, stream, next);
      assert FrameAt(judge, stream, at) ==> EndOf(judge, stream, at) == next;
    }
  }

  /** The frames found from position `at` on. */
  ghost function FramesFrom(judge: Bytes -> Head, stream: Bytes, at: nat): seq<RtcmFrame>
    requires Shaped(judge) && at <= |stream|
  {
    StartsInOrder(judge, stream, at);
    FramesAt(judge, stream, Starts(judge, stream, at))
  }

  lemma FramesFromStep(judge: Bytes -> Head, stream: Bytes, at: nat)
    requires Shaped(judge) && at <= |stream| && !StopsAt(judge, stream, at)
    ensures var h := judge(stream[at..]);
      FramesFrom(judge, stream, at) == Emitted(h) + FramesFrom(judge, stream, at + Taken(h))
  {
    var h := judge(stream[at..]);
    StartsInOrder(judge, stream, at);
    var starts, later := Starts(judge, stream, at), Starts(judge, stream, at + Taken(h));
    if h.Accepted? {
      assert starts == [at] + later && starts[1..] == later;
    } else {
      assert starts == later;
      assert Emitted(h) + FramesFrom(judge, stream, at + Taken(h)) == FramesFrom(judge, stream, at + Taken(h));
    }
  }

  lemma {:induction false} ScanByPosition(judge: Bytes -> Head, stream: Bytes, at: nat)
    requires Shaped(judge) && at <= |stream|
    ensures Scan(judge, stream[at..]).frames == FramesFrom(judge, stream, at)
    ensures Scan(judge, stream[at..]).rest == stream[Stop(judge, stream, at)..]
    decreases |stream| - at
  {
    if !StopsAt(judge, stream, at) {
      var h := judge(stream[at..]);
      SuffixOfSuffix(stream, at, Taken(h));
      ScanByPosition(judge, stream, at + Taken(h));
      FramesFromStep(judge, stream, at);
    }
  }

  /** What one decision covers: its own bytes when it takes a frame, otherwise nothing. */
  lemma CoverStep(judge: Bytes -> Head, stream: Bytes, at: nat, p: int)
    requires Shaped(judge) && at < |stream| && !StopsAt(judge, stream, at)
    ensures var next := at + Taken(judge(stream[at..]));
      Covered(judge, stream, Starts(judge, stream, at), p) <==>
        (FrameAt(judge, stream, at) && at <= p < next) || Covered(judge, stream, Starts(judge, stream, next), p)
  {
    var next := at + Taken(judge(stream[at..]));
    var starts, later := Starts(judge, stream, at), Starts(judge, stream, next);
    if FrameAt(judge, stream, at) {
      assert starts == [at] + later;
      if at <= p < next {
        assert Inside(judge, stream, starts[0], p);
      }
      if Covered(judge, stream, later, p) {
        var k :| 0 <= k < |later| && Inside(judge, stream, later[k], p);
        assert starts[k + 1] == later[k];
      }
    } else {
      assert starts == later;
    }
  }

  lemma NotCoveredBefore(judge: Bytes -> Head, stream: Bytes, at: nat, p: int)
    requires Shaped(judge) && at <= |stream| && p < at
    ensures !Covered(judge, stream, Starts(judge, stream, at), p)
  {
    StartsInOrder(judge, stream, at);
  }

  /** Every position between the frames was looked at, and no frame starts there. */
  lemma {:induction false} SkippedAreNoFrames(judge: Bytes -> Head, stream: Bytes, at: nat, p: int)
    requires Shaped(judge) && at <= |stream|
    requires at <= p < Stop(judge, stream, at) && !Covered(judge, stream, Starts(judge, stream, at), p)
    ensures NoFrameAt(judge, stream, p)
    decreases |stream| - at
  {
    if !StopsAt(judge, stream, at) {
      CoverStep(judge, stream, at, p);
      var next := at + Taken(judge(stream[at..]));
      if next <= p {
        SkippedAreNoFrames(judge, stream, next, p);
      }
    }
  }

  lemma RejectionsStep(judge: Bytes -> Head, stream: Bytes, at: nat)
    requires Shaped(judge) && at <= |stream| && !StopsAt(judge, stream, at)
    ensures var next, r := at + Taken(judge(stream[at..])), Stop(judge, stream, at);
      Rejections(judge, stream, Starts(judge, stream, at), at, r) ==
        (if judge(stream[at..]).Rejected? then {at} else {}) +
        Rejections(judge, stream, Starts(judge, stream, next), next, r)
  {
    var h := judge(stream[at..]);
    var next, r := at + Taken(h), Stop(judge, stream, at);
    var now := Rejections(judge, stream, Starts(judge, stream, at), at, r);
    var later := Rejections(judge, stream, Starts(judge, stream, next), next, r);
    var here: set<int> := if h.Rejected? then {at} else {};
    forall p
      ensures p in now <==> p in here + later
    {
      CoverStep(judge, stream, at, p);
      if p < next {
        NotCoveredBefore(judge, stream, next, p);
      }
    }
  }

  lemma RejectionsCount(judge: Bytes -> Head, stream: Bytes, at: nat)
    requires Shaped(judge) && at <= |stream| && !StopsAt(judge, stream, at)
    ensures var next, r := at + Taken(judge(stream[at..])), Stop(judge, stream, at);
      |Rejections(judge, stream, Starts(judge, stream, at), at, r)| ==
        Errors(judge(stream[at..])) + |Rejections(judge, stream, Starts(judge, stream, next), next, r)|
  {
    var next, r := at + Taken(judge(stream[at..])), Stop(judge, stream, at);
    RejectionsStep(judge, stream, at);
    assert at !in Rejections(judge, stream, Starts(judge, stream, next), next, r);
  }

  lemma ErrorsStep(judge: Bytes -> Head, stream: Bytes, at: nat)
    requires Shaped(judge) && at <= |stream| && !StopsAt(judge, stream, at)
    ensures var next := at + Taken(judge(stream[at..]));
      && next <= |stream| && Stop(judge, stream, at) == Stop(judge, stream, next)
      && Scan(judge, stream[at..]).errors == Errors(judge(stream[at..])) + Scan(judge, stream[next..]).errors
  {
    SuffixOfSuffix(stream, at, Taken(judge(stream[at..])));
  }

  /** The error count is the number of positions, outside the frames, where a frame was rejected. */
  lemma {:induction false} ErrorsAreRejections(judge: Bytes -> Head, stream: Bytes, at: nat)
    requires Shaped(judge) && at <= |stream|
    ensures Scan(judge, stream[at..]).errors ==
      |Rejections(judge, stream, Starts(judge, stream, at), at, Stop(judge, stream, at))|
    decreases |stream| - at
  {
    if StopsAt(judge, stream, at) {
      assert Rejections(judge, stream, Starts(judge, stream, at), at, Stop(judge, stream, at)) == {};
    } else {
      ErrorsStep(judge, stream, at);
      RejectionsCount(judge, stream, at);
      ErrorsAreRejections(judge, stream, at + Taken(judge(stream[at..])));
    }
  }

  /** The scan is the greedy parse of its input: positions, frames, error count and residual. */
  lemma ScanIsGreedy(judge: Bytes -> Head, stream: Bytes)
    requires Shaped(judge)
    ensures var s, starts, r := Scan(judge, stream), Starts(judge, stream, 0), Stop(judge, stream, 0);
      && GreedyParse(judge, stream, starts, r)
      && s.frames == FramesAt(judge, stream, starts)
      && s.errors == |Rejections(judge, stream, starts, 0, r)|
      && s.rest == stream[r..]
  {
    assert stream[0..] == stream;
    StartsInOrder(judge, stream, 0);
    ScanByPosition(judge, stream, 0);
    ErrorsAreRejections(judge, stream, 0);
    var starts, r := Starts(judge, stream, 0), Stop(judge, stream, 0);
    forall p | 0 <= p < r && !Covered(judge, stream, starts, p)
      ensures NoFrameAt(judge, stream, p)
    {
      SkippedAreNoFrames(judge, stream, 0, p);
    }
  }
}
