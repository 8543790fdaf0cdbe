/** The two ends of the serial line in tools/tunslip.c: the writer with its output buffer, and the reader
  * with its input buffer. */
module SlipLine {
  import opened Checksum
  import opened Slip

  datatype Outcome = Dropped | Sent | Overflow

  // ---------------------------------------------------------------- the writer

  class SlipWriter {
    const slipBuf: array<Byte>
    const bigEndian: bool
    var begin: nat
    var end: nat
    var ipId: nat
    var device: seq<Byte>

    ghost predicate Valid()
      reads this
    {
      slipBuf.Length == BUFFER_SIZE && begin <= end <= BUFFER_SIZE && ipId < 0x1_0000
    }

    /** What has been handed to the device, and what is still in the buffer. */
    ghost function Output(): seq<Byte>
      requires Valid()
      reads this, slipBuf
    {
      device + slipBuf[begin..end]
    }

    constructor (bigEndian: bool, ipId: nat)
      requires ipId < 0x1_0000
      ensures Valid() && Output() == [] && fresh(slipBuf) && this.bigEndian == bigEndian && this.ipId == ipId
    {
      slipBuf := new Byte[BUFFER_SIZE](_ => 0);
      this.bigEndian, this.ipId := bigEndian, ipId;
      begin, end, device := 0, 0, [];
    }

    /** slip_send; the program stops when the buffer is full. */
    method Send(c: Byte) returns (ok: bool)
      requires Valid()
      modifies this`end, slipBuf
      ensures Valid() && ok == (old(end) < BUFFER_SIZE)
      ensures Output() == old(Output()) + if ok then [c] else []
    {
      ok := end < BUFFER_SIZE;
      if ok {
        slipBuf[end] := c;
        end := end + 1;
      }
    }

    /** slip_flushbuf: the device takes some of the bytes, or none. */
    method Flush()
      requires Valid()
      modifies this`begin, this`end, this`device
      ensures Valid() && Output() == old(Output())
    {
      var n: int := *;
      if end != 0 && 0 < n <= end - begin {
        assert slipBuf[begin..end] == slipBuf[begin..begin + n] + slipBuf[begin + n..end];
        device := device + slipBuf[begin..begin + n];
        begin := begin + n;
        if begin == end {
          begin, end := 0, 0;
        }
      }
    }

    method SendEscaped(c: Byte) returns (ok: bool)
      requires Valid()
      modifies this`end, slipBuf
      ensures Valid() && (ok ==> Output() == old(Output()) + EscapeByte(c))
    {
      if c == SLIP_END || c == SLIP_ESC {
        ok := Send(SLIP_ESC);
        if ok {
          ok := Send(if c == SLIP_END then SLIP_ESC_END else SLIP_ESC_ESC);
        }
      } else {
        ok := Send(c);
      }
    }

    /** The loop over the bytes of a packet, and the end mark. */
    method SendFrame(p: array<Byte>, len: nat) returns (ok: bool)
      requires Valid() && p != slipBuf && len <= p.Length
      modifies this`end, slipBuf
      ensures Valid() && (ok ==> Output() == old(Output()) + Frame(p[..len]))
    {
      hide Escape;
      ghost var before := Output();
      ok := true;
      NothingEscaped();
      for i := 0 to len
        invariant Valid() && Output() == before + Escape(p[..i])
      {
        EscapeMore(p[..i], p[i]);
        assert p[..i + 1] == p[..i] + [p[i]];
        ok := SendEscaped(p[i]);
        if !ok {
          return;
        }
      }
      ok := Send(SLIP_END);
    }

    /** The packet gets an identification if it has none and must not be fragmented. */
    method Renumber(m: array<Byte>) returns (done: bool)
      requires Valid() && m.Length >= 60
      modifies m, this`ipId
      ensures Valid()
      ensures done == (old(m[4]) == old(m[5]) == 0 && Load(bigEndian, old(m[6]), old(m[7])) / 0x4000 % 2 == 1)
      ensures m[..] == if done then Renumbered(old(m[..]), bigEndian, old(ipId)) else old(m[..])
      ensures ipId == if done then (old(ipId) + 1) % 0x1_0000 else old(ipId)
    {
      done := Load(bigEndian, m[4], m[5]) == 0 && Load(bigEndian, m[6], m[7]) / 0x4000 % 2 == 1;
      if done {
        m[4], m[5] := ipId / 256, ipId % 256;
        var nid := 0xFFFF - Load(bigEndian, m[4], m[5]);
        var sum := AddWord(Load(bigEndian, m[10], m[11]), nid);
        var bytes := Store(bigEndian, sum);
        m[10], m[11] := bytes.0, bytes.1;
        ipId := (ipId + 1) % 0x1_0000;
      }
    }

    /** write_to_serial: a packet that is accepted and has a regular header is sent, with an
      * identification; the second check never drops it. */
    method WriteToSerial(m: array<Byte>, len: nat) returns (r: Outcome)
      requires Valid() && m != slipBuf && m.Length >= 60 && len <= m.Length
      modifies m, this`ipId, this`end, slipBuf
      ensures Valid()
      ensures Check(old(m[..]), len) != Ok ==> r == Dropped && m[..] == old(m[..]) && Output() == old(Output())
      ensures Check(old(m[..]), len) == Ok && HeaderLength(old(m[0])) >= 20 ==> r != Dropped
      ensures r == Sent ==> Check(m[..], len) == Ok && Output() == old(Output()) + Frame(m[..len])
    {
      hide Check, Renumbered, Frame;
      ghost var before := m[..];
      var v := CheckIp(m, len);
      if v != Ok {
        return Dropped;
      }
      var first := m[0];
      var renumbered := Renumber(m);
      if renumbered {
        v := CheckIp(m, len);
        if HeaderLength(first) >= 20 {
          RenumberedAccepted(before, len, bigEndian, old(ipId));
        }
        if v != Ok {
          return Dropped;
        }
      }
      var ok := SendFrame(m, len);
      r := if ok then Sent else Overflow;
    }
  }

  lemma NothingEscaped()
    ensures Escape([]) == []
  {
  }

  lemma {:induction false} EscapeMore(p: seq<Byte>, c: Byte)
    ensures Escape(p + [c]) == Escape(p) + EscapeByte(c)
    decreases |p|
  {
    if p == [] {
      assert p + [c] == [c] && [c][1..] == [];
    } else {
      assert (p + [c])[1..] == p[1..] + [c];
      EscapeMore(p[1..], c);
    }
  }

  // ---------------------------------------------------------------- the reader

  /** The check looks at no byte beyond the packet. */
  predicate SelfContained(p: seq<Byte>) {
    28 <= |p| < BUFFER_SIZE && HeaderLength(p[0]) <= |p|
  }

  /** The verdict on a packet that is followed by zeros. */
  function CheckPacket(p: seq<Byte>): Verdict
    requires |p| < BUFFER_SIZE
  {
    Check(p + seq(BUFFER_SIZE - |p|, _ => 0), |p|)
  }

  lemma VerdictOnPacket(m: seq<Byte>, len: nat)
    requires |m| == BUFFER_SIZE && len < BUFFER_SIZE && SelfContained(m[..len])
    ensures Check(m, len) == CheckPacket(m[..len])
  {
    var z := m[..len] + seq(BUFFER_SIZE - len, _ => 0);
    var hl := HeaderLength(m[0]);
    hide OnesSum, Passes, HeaderLength;
    assert forall i | 0 <= i < len :: z[i] == m[i];
    assert z[..hl] == m[..hl] && z[12..20] == m[12..20] && z[hl..len] == m[hl..len];
    assert Rest(len, hl) == len - hl;
  }

  /** The packets that were written out are the frames without some of them; of the frames that the check
    * can judge by themselves, exactly the accepted ones were written. */
  predicate Sifted(frames: seq<seq<Byte>>, written: seq<seq<Byte>>)
    decreases |frames|
  {
    if frames == [] then written == []
    else
      var n := |frames| - 1;
      var f := frames[n];
      var k := |written| - 1;
      || (Sifted(frames[..n], written) && !(SelfContained(f) && CheckPacket(f) == Ok))
      || (written != [] && written[k] == f && Sifted(frames[..n], written[..k]) && (SelfContained(f) ==> CheckPacket(f) == Ok))
  }

  lemma {:induction false} AllWritten(frames: seq<seq<Byte>>, written: seq<seq<Byte>>)
    requires Sifted(frames, written) && forall i | 0 <= i < |frames| :: SelfContained(frames[i]) && CheckPacket(frames[i]) == Ok
    ensures written == frames
    decreases |frames|
  {
    if frames != [] {
      hide SelfContained, CheckPacket;
      AllWritten(frames[..|frames| - 1], written[..|written| - 1]);
    }
  }

  class SlipReader {
    const inbuf: array<Byte>
    var inbufptr: nat
    var file: seq<Byte>
    var written: seq<seq<Byte>>
    ghost var frames: seq<seq<Byte>>

    ghost predicate Valid()
      reads this
    {
      inbuf.Length == BUFFER_SIZE && inbufptr <= BUFFER_SIZE && Sifted(frames, written)
    }

    constructor ()
      ensures Valid() && inbufptr == 0 && file == [] && frames == [] && fresh(inbuf)
    {
      inbuf := new Byte[BUFFER_SIZE](_ => 0);
      inbufptr, file, written, frames := 0, [], [], [];
    }

    /** A frame has ended: it is written out if it is accepted. */
    method EndFrame()
      requires Valid() && inbufptr < BUFFER_SIZE
      modifies this`inbufptr, this`written, this`frames
      ensures Valid() && inbufptr == 0
      ensures frames == old(frames) + Ended(inbuf[..old(inbufptr)])
    {
      if inbufptr > 0 {
        hide Check, CheckPacket, SelfContained;
        ghost var f := inbuf[..inbufptr];
        var verdict := CheckIp(inbuf, inbufptr);
        JudgedByItself(inbuf[..], inbufptr);
        SiftOne(frames, written, f, verdict == Ok);
        if verdict == Ok {
          written := written + [inbuf[..inbufptr]];
        }
        frames := frames + [f];
        inbufptr := 0;
      }
    }

    method Store(c: Byte)
      requires Valid() && inbufptr < BUFFER_SIZE
      modifies this`inbufptr, inbuf
      ensures Valid() && inbufptr == old(inbufptr) + 1 && inbuf[..inbufptr] == old(inbuf[..inbufptr]) + [c]
    {
      inbuf[inbufptr] := c;
      inbufptr := inbufptr + 1;
    }

    /** serial_to_tun, when some bytes have arrived: it reads until the file is empty; an escape byte at
      * the end is put back. */
    method SerialToTun(arrived: seq<Byte>)
      requires Valid()
      modifies this`inbufptr, this`written, this`frames, this`file, inbuf
      ensures Valid()
      ensures var r := Run(old(inbuf[..inbufptr]), old(file) + arrived);
              frames == old(frames) + r.frames && inbuf[..inbufptr] == r.buffer && file == r.left
    {
      hide Sifted;
      file := file + arrived;
      ghost var all := Run(inbuf[..inbufptr], file);
      ghost var first := frames;
      while true
        invariant Valid()
        invariant first + all.frames == frames + Run(inbuf[..inbufptr], file).frames
        invariant var r := Run(inbuf[..inbufptr], file); all.buffer == r.buffer && all.left == r.left
        decreases |file|
      {
        RunRoom(inbuf[..inbufptr], file);
        if inbufptr >= BUFFER_SIZE {
          inbufptr := 0;
        }
        assert inbuf[..inbufptr] == Room(inbuf[..inbufptr]);
        if file == [] {
          return;
        }
        var c := file[0];
        file := file[1..];
        if c == SLIP_END {
          EndFrame();
        } else if c == SLIP_ESC {
          if file == [] {
            file := [SLIP_ESC];
            return;
          }
          c := file[0];
          file := file[1..];
          if c == SLIP_ESC_END {
            c := SLIP_END;
          } else if c == SLIP_ESC_ESC {
            c := SLIP_ESC;
          }
          Store(c);
        } else {
          Store(c);
        }
      }
    }
  }

  lemma JudgedByItself(m: seq<Byte>, len: nat)
    requires |m| == BUFFER_SIZE && len < BUFFER_SIZE
    ensures SelfContained(m[..len]) ==> (Check(m, len) == Ok <==> CheckPacket(m[..len]) == Ok)
  {
    hide Check, CheckPacket;
    if SelfContained(m[..len]) {
      VerdictOnPacket(m, len);
    }
  }

  lemma SiftOne(frames: seq<seq<Byte>>, written: seq<seq<Byte>>, f: seq<Byte>, accepted: bool)
    requires Sifted(frames, written) && (SelfContained(f) ==> (accepted <==> CheckPacket(f) == Ok))
    ensures Sifted(frames + [f], if accepted then written + [f] else written)
  {
    hide SelfContained, CheckPacket;
    assert (frames + [f])[..|frames|] == frames;
    assert (written + [f])[..|written|] == written;
  }

  /** Accepted packets, framed one after another and read in any pieces, are written out unchanged and in
    * order. */
  lemma LineDelivers(ps: seq<seq<Byte>>, chunks: seq<seq<Byte>>, written: seq<seq<Byte>>)
    requires forall i | 0 <= i < |ps| :: SelfContained(ps[i]) && CheckPacket(ps[i]) == Ok
    requires Concat(chunks) == Stream(ps) && Sifted(Feed([], [], chunks).frames, written)
    ensures written == ps
  {
    hide CheckPacket, Feed;
    CutStreamRead(ps, chunks);
    AllWritten(ps, written);
  }
}
