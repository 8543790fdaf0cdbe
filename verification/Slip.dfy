/** The framing of RFC 1055 as tools/tunslip.c writes and reads it. */
module Slip {
  import opened Checksum

  const SLIP_END: Byte := 192
  const SLIP_ESC: Byte := 219
  const SLIP_ESC_END: Byte := 220
  const SLIP_ESC_ESC: Byte := 221

  const BUFFER_SIZE := 2000

  // ---------------------------------------------------------------- writing

  function EscapeByte(c: Byte): (e: seq<Byte>)
    ensures 1 <= |e| <= 2
  {
    if c == SLIP_END then [SLIP_ESC, SLIP_ESC_END] else if c == SLIP_ESC then [SLIP_ESC, SLIP_ESC_ESC] else [c]
  }

  function Escape(p: seq<Byte>): seq<Byte> {
    if p == [] then [] else EscapeByte(p[0]) + Escape(p[1..])
  }

  function Frame(p: seq<Byte>): seq<Byte> {
    Escape(p) + [SLIP_END]
  }

  function Stream(ps: seq<seq<Byte>>): seq<Byte> {
    if ps == [] then [] else Frame(ps[0]) + Stream(ps[1..])
  }

  // ---------------------------------------------------------------- reading

  /** What the reader has after some bytes: the frames that have ended, the bytes of the one that has not,
    * and an escape byte that waits for the next one. */
  datatype State = State(frames: seq<seq<Byte>>, buffer: seq<Byte>, left: seq<Byte>)

  /** A buffer that is full is emptied before the next byte is read. */
  function Room(buffer: seq<Byte>): (r: seq<Byte>)
    ensures |r| < BUFFER_SIZE
  {
    if |buffer| >= BUFFER_SIZE then [] else buffer
  }

  function Unescape(c: Byte): Byte {
    if c == SLIP_ESC_END then SLIP_END else if c == SLIP_ESC_ESC then SLIP_ESC else c
  }

  /** The frame that ends here, if it is not empty. */
  function Ended(buffer: seq<Byte>): seq<seq<Byte>> {
    if buffer == [] then [] else [buffer]
  }

  function Run(buffer: seq<Byte>, s: seq<Byte>): (r: State)
    decreases |s|
  {
    var b := Room(buffer);
    if s == [] then State([], b, [])
    else if s[0] == SLIP_END then
      var r := Run([], s[1..]);
      r.(frames := Ended(b) + r.frames)
    else if s[0] == SLIP_ESC then
      if |s| == 1 then State([], b, s) else Run(b + [Unescape(s[1])], s[2..])
    else Run(b + [s[0]], s[1..])
  }

  // ---------------------------------------------------------------- round trip

  /** Reading on after a cut gives what reading without it gives. */
  lemma {:induction false} RunCut(buffer: seq<Byte>, a: seq<Byte>, b: seq<Byte>)
    ensures var r := Run(buffer, a); var q := Run(r.buffer, r.left + b);
            Run(buffer, a + b) == q.(frames := r.frames + q.frames)
    decreases |a|
  {
    var room := Room(buffer);
    var r := Run(buffer, a);
    if a == [] {
      assert a + b == b && r.left + b == b;
      RunRoom(buffer, b);
    } else if a[0] == SLIP_ESC && |a| == 1 {
      assert r.left + b == a + b;
      RunRoom(buffer, a + b);
    } else if a[0] == SLIP_END {
      assert (a + b)[1..] == a[1..] + b;
      RunCut([], a[1..], b);
    } else if a[0] == SLIP_ESC {
      assert (a + b)[2..] == a[2..] + b && (a + b)[1] == a[1];
      RunCut(room + [Unescape(a[1])], a[2..], b);
    } else {
      assert (a + b)[1..] == a[1..] + b;
      RunCut(room + [a[0]], a[1..], b);
    }
  }

  lemma RunRoom(buffer: seq<Byte>, s: seq<Byte>)
    ensures Run(Room(buffer), s) == Run(buffer, s)
  {
  }

  /** No frame has the end byte inside. */
  lemma {:induction false} EndOnlyAtEnd(p: seq<Byte>)
    ensures SLIP_END !in Escape(p) && |Escape(p)| <= 2 * |p|
    decreases |p|
  {
    if p != [] {
      EndOnlyAtEnd(p[1..]);
    }
  }

  /** An escape byte before any other byte than the two substitutes is dropped, and the byte is kept. */
  lemma UnknownEscape(buffer: seq<Byte>, c: Byte, s: seq<Byte>)
    requires |buffer| < BUFFER_SIZE && c != SLIP_ESC_END && c != SLIP_ESC_ESC
    ensures Run(buffer, [SLIP_ESC, c] + s) == Run(buffer + [c], s)
  {
    var t := [SLIP_ESC, c] + s;
    assert t[0] == SLIP_ESC && t[1] == c && t[2..] == s;
  }

  /** An escaped byte is read as the byte. */
  lemma EscapedByte(buffer: seq<Byte>, c: Byte, s: seq<Byte>)
    requires |buffer| < BUFFER_SIZE
    ensures Run(buffer, EscapeByte(c) + s) == Run(buffer + [c], s)
  {
    var e := EscapeByte(c);
    if |e| == 2 {
      assert (e + s)[0] == SLIP_ESC && (e + s)[1] == e[1] && (e + s)[2..] == s;
    } else {
      assert (e + s)[1..] == s;
    }
  }

  lemma {:induction false} EscapedBytes(buffer: seq<Byte>, p: seq<Byte>, s: seq<Byte>)
    requires |buffer| + |p| < BUFFER_SIZE
    ensures Run(buffer, Escape(p) + s) == Run(buffer + p, s)
    decreases |p|
  {
    if p == [] {
      assert Escape(p) + s == s && buffer + p == buffer;
    } else {
      assert Escape(p) + s == EscapeByte(p[0]) + (Escape(p[1..]) + s);
      EscapedByte(buffer, p[0], Escape(p[1..]) + s);
      EscapedBytes(buffer + [p[0]], p[1..], s);
      assert buffer + p == (buffer + [p[0]]) + p[1..];
    }
  }

  /** A frame that fits the buffer is read as its packet. */
  lemma FrameRead(p: seq<Byte>, s: seq<Byte>)
    requires 0 < |p| < BUFFER_SIZE
    ensures Run([], Frame(p) + s) == Run([], s).(frames := [p] + Run([], s).frames)
  {
    assert Frame(p) + s == Escape(p) + ([SLIP_END] + s);
    EscapedBytes([], p, [SLIP_END] + s);
    assert [] + p == p;
    assert ([SLIP_END] + s)[1..] == s;
  }

  predicate Fit(ps: seq<seq<Byte>>) {
    forall i | 0 <= i < |ps| :: 0 < |ps[i]| < BUFFER_SIZE
  }

  /** The frames of non-empty packets that fit the buffer are read as the packets. */
  lemma {:induction false} StreamRead(ps: seq<seq<Byte>>)
    requires Fit(ps)
    ensures Run([], Stream(ps)) == State(ps, [], [])
    decreases |ps|
  {
    if ps != [] {
      StreamRead(ps[1..]);
      FrameRead(ps[0], Stream(ps[1..]));
      assert ps == [ps[0]] + ps[1..];
    }
  }

  lemma {:induction false} FramesFit(buffer: seq<Byte>, s: seq<Byte>)
    ensures Fit(Run(buffer, s).frames)
    decreases |s|
  {
    var b := Room(buffer);
    if s != [] {
      if s[0] == SLIP_END {
        FramesFit([], s[1..]);
      } else if s[0] == SLIP_ESC {
        if |s| > 1 {
          FramesFit(b + [Unescape(s[1])], s[2..]);
        }
      } else {
        FramesFit(b + [s[0]], s[1..]);
      }
    }
  }

  /** Packets are read back if and only if none is empty or as long as the buffer. */
  lemma StreamReadIff(ps: seq<seq<Byte>>)
    ensures Run([], Stream(ps)).frames == ps <==> Fit(ps)
  {
    FramesFit([], Stream(ps));
    if Fit(ps) {
      StreamRead(ps);
    }
  }

  // ---------------------------------------------------------------- any number of cuts

  function Concat(chunks: seq<seq<Byte>>): seq<Byte> {
    if chunks == [] then [] else chunks[0] + Concat(chunks[1..])
  }

  /** The chunks one after another; an escape byte at the end of one is read again with the next. */
  function Feed(buffer: seq<Byte>, left: seq<Byte>, chunks: seq<seq<Byte>>): (r: State)
    decreases |chunks|
  {
    if chunks == [] then State([], buffer, left)
    else
      var q := Run(buffer, left + chunks[0]);
      var r := Feed(q.buffer, q.left, chunks[1..]);
      r.(frames := q.frames + r.frames)
  }

  lemma {:induction false} FeedIsRun(buffer: seq<Byte>, left: seq<Byte>, chunks: seq<seq<Byte>>)
    requires chunks != []
    ensures Feed(buffer, left, chunks) == Run(buffer, left + Concat(chunks))
    decreases |chunks|
  {
    var q := Run(buffer, left + chunks[0]);
    if |chunks| == 1 {
      assert chunks[1..] == [];
      assert Concat(chunks) == chunks[0] + [] == chunks[0];
      assert q.frames + [] == q.frames;
    } else {
      FeedIsRun(q.buffer, q.left, chunks[1..]);
      RunCut(buffer, left + chunks[0], Concat(chunks[1..]));
      assert left + Concat(chunks) == (left + chunks[0]) + Concat(chunks[1..]);
    }
  }

  /** However the stream is cut, also right after an escape byte, the reader finds the same packets. */
  lemma CutStreamRead(ps: seq<seq<Byte>>, chunks: seq<seq<Byte>>)
    requires Fit(ps) && Concat(chunks) == Stream(ps)
    ensures Feed([], [], chunks) == State(ps, [], [])
  {
    StreamRead(ps);
    if chunks != [] {
      FeedIsRun([], [], chunks);
      assert [] + Concat(chunks) == Concat(chunks);
    }
  }
}
