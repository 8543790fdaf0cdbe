/** The serializer of CoAP messages (apps/er-coap-12/er-coap-12.c), which writes options, strings cut into
  * segments, and the whole message into a byte buffer.  Each method is proved against the bytes that
  * CoapOptions and CoapMessage define. */
module CoapSerializer {
  import opened CoapText
  import opened CoapOptions
  import opened CoapFields
  import opened CoapReceive
  import opened CoapMessage

  /** The buffer after some bytes have been written at a position. */
  function Written(before: seq<Byte>, at: nat, bytes: seq<Byte>): (after: seq<Byte>)
    requires at + |bytes| <= |before|
    ensures |after| == |before|
  {
    before[..at] + bytes + before[at + |bytes|..]
  }

  lemma WrittenTwice(before: seq<Byte>, at: nat, a: seq<Byte>, b: seq<Byte>)
    requires at + |a| + |b| <= |before|
    ensures Written(Written(before, at, a), at + |a|, b) == Written(before, at, a + b)
  {
  }

  method Put(buffer: array<Byte>, at: nat, x: Byte)
    requires at < buffer.Length
    modifies buffer
    ensures buffer[..] == Written(old(buffer[..]), at, [x])
  {
    buffer[at] := x;
  }

  /** memcpy */
  method Copy(buffer: array<Byte>, at: nat, bytes: seq<Byte>)
    requires at + |bytes| <= buffer.Length
    modifies buffer
    ensures buffer[..] == Written(old(buffer[..]), at, bytes)
  {
    forall i | 0 <= i < |bytes| {
      buffer[at + i] := bytes[i];
    }
  }

  lemma ExtensionStep(done: seq<Byte>, n: nat)
    requires n > 254
    ensures |Extension(n)| == 1 + |Extension(n - 255)|
    ensures (done + [255]) + Extension(n - 255) == done + Extension(n)
  {
    assert Extension(n) == [255] + Extension(n - 255);
    hide Extension;
    assert (done + [255]) + Extension(n - 255) == done + ([255] + Extension(n - 255));
  }

  lemma ExtensionEnd(done: seq<Byte>, n: nat)
    requires n <= 254
    ensures done + Extension(n) == done + [n]
  {
  }

  method WriteExtension(length: nat, buffer: array<Byte>, at: nat) returns (size: nat)
    requires at + |Extension(length)| <= buffer.Length
    modifies buffer
    ensures size == |Extension(length)| && buffer[..] == Written(old(buffer[..]), at, Extension(length))
  {
    hide Written, Extension;
    ghost var before := buffer[..];
    ghost var done: seq<Byte> := [];
    size := 0;
    var rest := length;
    assert done + Extension(rest) == Extension(length);
    NothingWritten(before, at);
    while rest > 254
      invariant size == |done| && done + Extension(rest) == Extension(length)
      invariant buffer[..] == Written(before, at, done)
    {
      ExtensionStep(done, rest);
      WrittenTwice(before, at, done, [255]);
      Put(buffer, at + size, 255);
      done := done + [255];
      size, rest := size + 1, rest - 255;
    }
    ExtensionEnd(done, rest);
    WrittenTwice(before, at, done, [rest]);
    Put(buffer, at + size, rest);
    size := size + 1;
  }

  lemma NothingWritten(before: seq<Byte>, at: nat)
    requires at <= |before|
    ensures Written(before, at, []) == before
  {
  }

  method SetOptionHeader(delta: nat, length: nat, buffer: array<Byte>, at: nat) returns (size: nat)
    requires at + |Header(delta, length)| <= buffer.Length
    modifies buffer
    ensures size == |Header(delta, length)| && buffer[..] == Written(old(buffer[..]), at, Header(delta, length))
  {
    hide Written, Extension;
    if length < 15 {
      Put(buffer, at, (delta % 16) * 16 + length);
      return 1;
    }
    WrittenTwice(buffer[..], at, [(delta % 16) * 16 + 15], Extension(length - 15));
    Put(buffer, at, (delta % 16) * 16 + 15);
    size := WriteExtension(length - 15, buffer, at + 1);
    size := size + 1;
  }

  method InsertOptionJump(number: nat, current: nat, buffer: array<Byte>, at: nat) returns (size: nat, next: nat)
    requires current <= number && at + |Jump(number, current).0| <= buffer.Length
    modifies buffer
    ensures size == |Jump(number, current).0| && next == Jump(number, current).1
    ensures buffer[..] == Written(old(buffer[..]), at, Jump(number, current).0)
  {
    var delta := number - current;
    if delta < 15 {
      return 0, current;
    } else if delta < 30 {
      buffer[at] := 0xF1;
      return 1, current + 15;
    } else if delta < 2064 {
      buffer[at] := 0xF2;
      buffer[at + 1] := delta / 8 - 2;
      return 2, current + buffer[at + 1];
    } else {
      delta := delta / 8 - 258;
      buffer[at] := 0xF3;
      buffer[at + 1] := delta / 256 % 256;
      buffer[at + 2] := delta % 256;
      return 3, current + delta;
    }
  }

  // ---------------------------------------------------------------- integers

  lemma IntBytesAre(v: nat)
    requires v < WORD
    ensures IntBytes(v) ==
            if v >= 0x100_0000 then [v / 0x100_0000, v / 0x1_0000 % 256, v / 256 % 256, v % 256]
            else if v >= 0x1_0000 then [v / 0x1_0000, v / 256 % 256, v % 256]
            else if v >= 0x100 then [v / 256, v % 256]
            else if v > 0 then [v]
            else []
  {
    if v > 0 {
      var q := v / 256;
      Quotients(v);
      IntBytesBelow(q);
      assert IntBytes(v) == IntBytes(q) + [v % 256];
      hide IntBytes;
    }
  }

  lemma Quotients(v: nat)
    ensures v / 256 / 256 == v / 0x1_0000 && v / 256 / 0x1_0000 == v / 0x100_0000
    ensures v / 256 >= 0x1_0000 <==> v >= 0x100_0000
    ensures v / 256 >= 0x100 <==> v >= 0x1_0000
    ensures v / 256 > 0 <==> v >= 0x100
  {
  }

  lemma IntBytesBelow(v: nat)
    requires v < 0x100_0000
    ensures IntBytes(v) ==
            if v >= 0x1_0000 then [v / 0x1_0000, v / 256 % 256, v % 256]
            else if v >= 0x100 then [v / 256, v % 256]
            else if v > 0 then [v]
            else []
  {
    if v >= 0x1_0000 {
      assert v / 256 / 256 == v / 0x1_0000;
      assert IntBytes(v / 256) == [v / 0x1_0000, v / 256 % 256];
    }
  }

  /** Every byte from the first one that is not zero. */
  method WriteInt(value: nat, buffer: array<Byte>, at: nat) returns (size: nat)
    requires value < WORD && at + |IntBytes(value)| <= buffer.Length
    modifies buffer
    ensures size == |IntBytes(value)| && buffer[..] == Written(old(buffer[..]), at, IntBytes(value))
  {
    hide IntBytes;
    IntBytesAre(value);
    size := 0;
    if value >= 0x100_0000 {
      buffer[at + size] := value / 0x100_0000;
      size := size + 1;
    }
    if value >= 0x1_0000 {
      buffer[at + size] := value / 0x1_0000 % 256;
      size := size + 1;
    }
    if value >= 0x100 {
      buffer[at + size] := value / 256 % 256;
      size := size + 1;
    }
    if value > 0 {
      buffer[at + size] := value % 256;
      size := size + 1;
    }
  }

  lemma WrittenBefore(before: seq<Byte>, at: nat, a: seq<Byte>, b: seq<Byte>)
    requires at + |a| + |b| <= |before|
    ensures Written(Written(before, at + |a|, b), at, a) == Written(before, at, a + b)
  {
  }

  /** The value goes behind the place of its header, which is written last. */
  method SerializeInt(number: nat, current: nat, buffer: array<Byte>, at: nat, value: nat) returns (size: nat)
    requires current <= number && value < WORD && at + |EncodeOne(Opt(number, IntBytes(value)), current)| <= buffer.Length
    modifies buffer
    ensures var e := EncodeOne(Opt(number, IntBytes(value)), current);
            size == |e| && buffer[..] == Written(old(buffer[..]), at, e)
  {
    hide Written, IntBytes, Jump;
    ghost var before := buffer[..];
    ghost var j, v := Jump(number, current), IntBytes(value);
    ghost var h := Header(number - j.1, |v|);
    assert |h| == 1;
    WrittenTwice(before, at, j.0, h + v);
    WrittenBefore(Written(before, at, j.0), at + |j.0|, h, v);
    assert EncodeOne(Opt(number, v), current) == j.0 + (h + v);
    var start, next := InsertOptionJump(number, current, buffer, at);
    var length := WriteInt(value, buffer, at + start + 1);
    var n := SetOptionHeader(number - next, length, buffer, at + start);
    size := start + length + n;
  }

  // ---------------------------------------------------------------- strings

  /** The headers and values of a list of parts; only the first has a difference. */
  function PartsBytes(delta: nat, parts: seq<seq<Byte>>): seq<Byte>
    decreases |parts|
  {
    if parts == [] then []
    else Header(delta, |parts[0]|) + parts[0] + PartsBytes(0, parts[1..])
  }

  lemma {:induction false} PartsBytesMore(delta: nat, a: seq<seq<Byte>>, b: seq<seq<Byte>>)
    ensures PartsBytes(delta, a + b) == PartsBytes(delta, a) + PartsBytes(if a == [] then delta else 0, b)
    decreases |a|
  {
    if a == [] {
      assert a + b == b;
    } else {
      assert (a + b)[0] == a[0] && (a + b)[1..] == a[1..] + b;
      PartsBytesMore(0, a[1..], b);
    }
  }

  lemma {:induction false} EncodeParts(number: nat, parts: seq<seq<Byte>>)
    ensures Encode(Numbered(number, parts), number) == PartsBytes(0, parts)
    decreases |parts|
  {
    if parts != [] {
      var opts := Numbered(number, parts);
      assert opts[1..] == Numbered(number, parts[1..]);
      EncodeParts(number, parts[1..]);
      assert EncodeOne(opts[0], number) == Header(0, |parts[0]|) + parts[0];
    }
  }

  lemma EncodeFirst(number: nat, current: nat, parts: seq<seq<Byte>>)
    requires current <= number && parts != []
    ensures Encode(Numbered(number, parts), current) ==
            EncodeOne(Opt(number, parts[0]), current) + Encode(Numbered(number, parts[1..]), number)
  {
    hide EncodeOne;
    assert Numbered(number, parts)[1..] == Numbered(number, parts[1..]);
  }

  /** Options with one number are a jump, if one is needed, and then their headers and values. */
  lemma EncodeNumbered(number: nat, current: nat, parts: seq<seq<Byte>>)
    requires current <= number && parts != []
    ensures Encode(Numbered(number, parts), current) ==
            Jump(number, current).0 + PartsBytes(number - Jump(number, current).1, parts)
  {
    hide Jump, Header, Encode, PartsBytes, EncodeOne;
    var j := Jump(number, current);
    EncodeFirst(number, current, parts);
    EncodeParts(number, parts[1..]);
    JumpFirst(number, current, parts);
    assert (j.0 + (Header(number - j.1, |parts[0]|) + parts[0])) + PartsBytes(0, parts[1..]) ==
           j.0 + ((Header(number - j.1, |parts[0]|) + parts[0]) + PartsBytes(0, parts[1..]));
  }

  lemma JumpFirst(number: nat, current: nat, parts: seq<seq<Byte>>)
    requires current <= number && parts != []
    ensures var j := Jump(number, current); var h := Header(number - j.1, |parts[0]|) + parts[0];
            && EncodeOne(Opt(number, parts[0]), current) == j.0 + h
            && PartsBytes(number - j.1, parts) == h + PartsBytes(0, parts[1..])
  {
    hide Jump, Header;
  }

  /** Writes one part. */
  method WritePart(delta: nat, part: seq<Byte>, buffer: array<Byte>, at: nat) returns (size: nat)
    requires at + |Header(delta, |part|)| + |part| <= buffer.Length
    modifies buffer
    ensures size == |Header(delta, |part|)| + |part| && buffer[..] == Written(old(buffer[..]), at, Header(delta, |part|) + part)
  {
    hide Written, Header;
    WrittenTwice(buffer[..], at, Header(delta, |part|), part);
    size := SetOptionHeader(delta, |part|, buffer, at);
    Copy(buffer, at + size, part);
    size := size + |part|;
  }

  lemma MorePart(delta: nat, done: seq<seq<Byte>>, part: seq<Byte>, rest: seq<seq<Byte>>)
    ensures var here := if done == [] then delta else 0; var now := PartsBytes(delta, done);
            && PartsBytes(delta, done + [part]) == now + (Header(here, |part|) + part)
            && |PartsBytes(delta, done + ([part] + rest))| >= |now| + |Header(here, |part|)| + |part|
            && done + ([part] + rest) == (done + [part]) + rest
  {
    PartsBytesMore(delta, done, [part]);
    PartsBytesMore(delta, done + [part], rest);
    assert done + ([part] + rest) == (done + [part]) + rest;
    assert [part][1..] == [];
  }

  lemma NoBytes(delta: nat)
    ensures PartsBytes(delta, []) == []
  {
  }

  lemma CutOff(s: seq<Byte>, c: Byte, start: nat, j: nat)
    requires start <= j <= |s| && (j == |s| || s[j] == c)
    ensures Remaining(s, c, start, j) != [] && Remaining(s, c, start, j) == [s[start..j]] + Remaining(s, c, start, j)[1..]
  {
  }

  lemma NoneRemain(s: seq<Byte>, c: Byte, start: nat, j: nat)
    requires start <= j && j > |s|
    ensures Remaining(s, c, start, j) == []
  {
  }

  /** The loop that cuts a string at its separators and writes every part as an option. */
  method WriteParts(delta: nat, s: seq<Byte>, c: Byte, buffer: array<Byte>, at: nat) returns (size: nat, count: nat)
    requires at + |PartsBytes(delta, Split(s, c))| <= buffer.Length
    modifies buffer
    ensures size == |PartsBytes(delta, Split(s, c))| && count == |Split(s, c)|
    ensures buffer[..] == Written(old(buffer[..]), at, PartsBytes(delta, Split(s, c)))
  {
    hide Written, Header, PartsBytes, Split, Remaining, Strip;
    ghost var before := buffer[..];
    ghost var done: seq<seq<Byte>> := [];
    size, count := 0, 0;
    var j: nat, start: nat, here := 0, 0, delta;
    AtStart(s, c);
    NothingWritten(before, at);
    NoBytes(delta);
    assert done + Remaining(s, c, 0, 0) == Split(s, c);
    while j <= |s|
      invariant start <= j && count == |done| && here == if done == [] then delta else 0
      invariant start <= |s| && done + Remaining(s, c, start, j) == Split(s, c)
      invariant size == |PartsBytes(delta, done)| <= |PartsBytes(delta, Split(s, c))|
      invariant buffer[..] == Written(before, at, PartsBytes(delta, done))
      decreases |s| + 2 - j
    {
      if j == |s| || s[j] == c {
        var part := s[start..j];
        CutOff(s, c, start, j);
        ghost var rest := Remaining(s, c, start, j)[1..];
        MorePart(delta, done, part, rest);
        WrittenTwice(before, at, PartsBytes(delta, done), Header(here, |part|) + part);
        var n := WritePart(here, part, buffer, at + size);
        done := done + [part];
        size, count, here := size + n, count + 1, 0;
        if j < |s| {
          var m := SkipSlashes(s, j + 1);
          CutHere(s, c, start, j, m);
          start, j := m, m;
        } else {
          LastPart(s, c, start);
          start, j := |s|, |s| + 1;
        }
        if j > |s| {
          NoneRemain(s, c, start, j + 1);
        }
      } else {
        NoCutHere(s, c, start, j);
      }
      j := j + 1;
    }
    NoneRemain(s, c, start, j);
    assert done + [] == done;
  }

  method SerializeArray(number: nat, current: nat, buffer: array<Byte>, at: nat, value: seq<Byte>, splitter: Byte)
      returns (size: nat, count: nat)
    requires current <= number
    requires at + |Encode(Numbered(number, if splitter == 0 then [value] else Split(value, splitter)), current)| <= buffer.Length
    modifies buffer
    ensures var parts := if splitter == 0 then [value] else Split(value, splitter);
            var e := Encode(Numbered(number, parts), current);
            count == |parts| && size == |e| && buffer[..] == Written(old(buffer[..]), at, e)
  {
    hide Written, Jump, PartsBytes, Split, Encode, Header;
    ghost var parts := if splitter == 0 then [value] else Split(value, splitter);
    ghost var j := Jump(number, current);
    if splitter != 0 {
      SplitNotEmpty(value, splitter);
    }
    EncodeNumbered(number, current, parts);
    WrittenTwice(buffer[..], at, j.0, PartsBytes(number - j.1, parts));
    var start, next := InsertOptionJump(number, current, buffer, at);
    if splitter != 0 {
      size, count := WriteParts(number - next, value, splitter, buffer, at + start);
    } else {
      OnePart(number - next, value);
      size := WritePart(number - next, value, buffer, at + start);
      count := 1;
    }
    size := start + size;
  }

  lemma SplitNotEmpty(s: seq<Byte>, c: Byte)
    ensures Split(s, c) != []
  {
  }

  lemma OnePart(delta: nat, part: seq<Byte>)
    ensures PartsBytes(delta, [part]) == Header(delta, |part|) + part
  {
    assert [part][1..] == [];
  }

  // ---------------------------------------------------------------- fields

  /** The number of the last option. */
  function Last(opts: seq<Opt>, current: nat): nat {
    if opts == [] then current else opts[|opts| - 1].number
  }

  lemma {:induction false} EncodeBoth(a: seq<Opt>, b: seq<Opt>, current: nat)
    requires Ascending(a, current) && Ascending(b, Last(a, current))
    ensures Ascending(a + b, current)
    ensures Encode(a + b, current) == Encode(a, current) + Encode(b, Last(a, current))
    decreases |a|
  {
    if a == [] {
      assert a + b == b;
    } else {
      hide EncodeOne, Ascending;
      BothAscend(a, b, current);
      assert (a + b)[0] == a[0] && (a + b)[1..] == a[1..] + b;
      RestAscends(a, current);
      EncodeBoth(a[1..], b, a[0].number);
      assert Encode(a + b, current) == EncodeOne(a[0], current) + (Encode(a[1..], a[0].number) + Encode(b, Last(a, current)));
    }
  }

  lemma RestAscends(a: seq<Opt>, current: nat)
    requires Ascending(a, current) && a != []
    ensures current <= a[0].number && Ascending(a[1..], a[0].number)
  {
  }

  lemma BothAscend(a: seq<Opt>, b: seq<Opt>, current: nat)
    requires Ascending(a, current) && Ascending(b, Last(a, current))
    ensures Ascending(a + b, current)
  {
  }

  /** The values that the packet's integer fields can hold. */
  predicate Representable(k: Kind, v: Value)
    requires Fits(k, v)
  {
    match k
    case Int(_) => v.n < WORD
    case Accept => forall i | 0 <= i < |v.ns| :: v.ns[i] < 0x1_0000
    case _ => true
  }

  /** The preferences of Accept, each as an option. */
  method SerializeAccept(number: nat, current: nat, buffer: array<Byte>, at: nat, ns: seq<nat>)
      returns (size: nat, last: nat)
    requires current <= number && (forall i | 0 <= i < |ns| :: ns[i] < WORD)
    requires at + |Encode(Numbered(number, AcceptParts(ns)), current)| <= buffer.Length
    modifies buffer
    ensures var e := Encode(Numbered(number, AcceptParts(ns)), current);
            size == |e| && buffer[..] == Written(old(buffer[..]), at, e)
    ensures last == if ns == [] then current else number
  {
    hide Written, Encode, EncodeOne;
    ghost var before := buffer[..];
    size, last := 0, current;
    NothingWritten(before, at);
    NothingEncoded(current);
    assert AcceptParts(ns[..0]) == [] && Numbered(number, AcceptParts(ns[..0])) == [];
    for i := 0 to |ns|
      invariant size == |Encode(Numbered(number, AcceptParts(ns[..i])), current)| && at + size <= buffer.Length
      invariant last == if i == 0 then current else number
      invariant buffer[..] == Written(before, at, Encode(Numbered(number, AcceptParts(ns[..i])), current))
    {
      AcceptStep(number, current, ns, i);
      WrittenTwice(before, at, Encode(Numbered(number, AcceptParts(ns[..i])), current),
                   EncodeOne(Opt(number, IntBytes(ns[i])), last));
      var n := SerializeInt(number, last, buffer, at + size, ns[i]);
      size, last := size + n, number;
    }
    assert ns[..|ns|] == ns;
  }

  function AcceptParts(ns: seq<nat>): (parts: seq<seq<Byte>>)
    ensures |parts| == |ns| && forall i | 0 <= i < |ns| :: parts[i] == IntBytes(ns[i])
  {
    seq(|ns|, i requires 0 <= i < |ns| => IntBytes(ns[i]))
  }

  lemma NothingEncoded(current: nat)
    ensures Encode([], current) == []
  {
  }

  /** One more preference. */
  lemma AcceptStep(number: nat, current: nat, ns: seq<nat>, i: nat)
    requires current <= number && i < |ns|
    ensures var e, o := Encode(Numbered(number, AcceptParts(ns[..i])), current), EncodeOne(Opt(number, IntBytes(ns[i])), if i == 0 then current else number);
            && Encode(Numbered(number, AcceptParts(ns[..i + 1])), current) == e + o
            && |e| + |o| <= |Encode(Numbered(number, AcceptParts(ns)), current)|
  {
    hide IntBytes, Encode, EncodeOne;
    var a, o, b := Numbered(number, AcceptParts(ns[..i])), Opt(number, IntBytes(ns[i])), Numbered(number, AcceptParts(ns[i + 1..]));
    OneEncoded(o, Last(a, current));
    EncodeBoth(a, [o], current);
    EncodeBoth(a + [o], b, current);
    assert Numbered(number, AcceptParts(ns[..i + 1])) == a + [o];
    assert Numbered(number, AcceptParts(ns)) == (a + [o]) + b;
  }

  lemma OneEncoded(o: Opt, current: nat)
    requires current <= o.number
    ensures Ascending([o], current) && Encode([o], current) == EncodeOne(o, current)
  {
    assert [o][1..] == [];
  }

  /** The options of one field, if its bit is set. */
  method SerializeField(o: Options, number: nat, current: nat, buffer: array<Byte>, at: nat)
      returns (size: nat, count: nat, last: nat)
    requires current <= number && Representable(KindOf(number), o.Field(number))
    requires at + |Encode(Sent(o, number), current)| <= buffer.Length
    modifies buffer
    ensures var e := Encode(Sent(o, number), current);
            size == |e| && buffer[..] == Written(old(buffer[..]), at, e)
    ensures count == |Sent(o, number)| && last == Last(Sent(o, number), current)
  {
    hide Written, Encode, EncodeOne, IntBytes, BlockWord, Split;
    if number !in o.bits {
      NothingEncoded(current);
      NothingWritten(buffer[..], at);
      return 0, 0, current;
    }
    var v := o.Field(number);
    SentOne(o, number, current);
    IntBytesAre(0);
    last, count := number, 1;
    match KindOf(number) {
      case Int(_) => size := SerializeInt(number, current, buffer, at, v.n);
      case Flag => size := SerializeInt(number, current, buffer, at, 0);
      case BlockOption => size := SerializeInt(number, current, buffer, at, BlockWord(v.num, v.more, v.size));
      case Array => size, count := SerializeArray(number, current, buffer, at, v.bytes, 0);
      case String(c) =>
        if c != 0 {
          SplitNotEmpty(v.text, c);
        }
        size, count := SerializeArray(number, current, buffer, at, v.text, c);
      case ProxyUri => size, count := SerializeArray(number, current, buffer, at, v.text, 0);
      case Accept =>
        assert AcceptParts(v.ns) == Parts(Accept, v);
        size, last := SerializeAccept(number, current, buffer, at, v.ns);
        count := |v.ns|;
      case Unknown =>
        NothingEncoded(current);
        NothingWritten(buffer[..], at);
        size, count, last := 0, 0, current;
    }
  }

  /** A field that is sent as one integer option. */
  lemma SentOne(o: Options, number: nat, current: nat)
    requires current <= number && number in o.bits
    ensures |Parts(KindOf(number), o.Field(number))| == 1 ==>
              Encode(Sent(o, number), current) == EncodeOne(Opt(number, Parts(KindOf(number), o.Field(number))[0]), current)
  {
    hide Encode, EncodeOne, KindOf, Parts;
    var parts := Parts(KindOf(number), o.Field(number));
    if |parts| == 1 {
      OneEncoded(Opt(number, parts[0]), current);
      assert Sent(o, number) == [Opt(number, parts[0])];
    }
  }

  // ---------------------------------------------------------------- messages

  lemma {:induction false} LastSent(o: Options, k: nat)
    requires k <= |ORDER|
    ensures forall i | k <= i < |ORDER| :: Last(SentUpTo(o, k), 0) <= ORDER[i]
  {
    OrderAscends();
  }

  lemma SentNext(o: Options, k: nat)
    requires k < |ORDER|
    ensures SentUpTo(o, k + 1) == SentUpTo(o, k) + Sent(o, ORDER[k])
    ensures forall i | 0 <= i < |Sent(o, ORDER[k])| :: Sent(o, ORDER[k])[i].number == ORDER[k]
  {
  }

  /** The options after one more field. */
  lemma NextField(o: Options, k: nat)
    requires k < |ORDER|
    ensures var a, b := SentUpTo(o, k), Sent(o, ORDER[k]);
            && Last(a, 0) <= ORDER[k] && Ascending(b, Last(a, 0))
            && Encode(SentUpTo(o, k + 1), 0) == Encode(a, 0) + Encode(b, Last(a, 0))
            && |SentUpTo(o, k + 1)| == |a| + |b|
            && Last(SentUpTo(o, k + 1), 0) == Last(b, Last(a, 0))
  {
    hide Encode, SentUpTo, Sent, Last, Ascending;
    LastSent(o, k);
    SentNext(o, k);
    Appended(SentUpTo(o, k), Sent(o, ORDER[k]), ORDER[k]);
  }

  lemma Appended(a: seq<Opt>, b: seq<Opt>, number: nat)
    requires Ascending(a, 0) && Last(a, 0) <= number && forall i | 0 <= i < |b| :: b[i].number == number
    ensures Ascending(b, Last(a, 0)) && Ascending(a + b, 0)
    ensures Encode(a + b, 0) == Encode(a, 0) + Encode(b, Last(a, 0)) && Last(a + b, 0) == Last(b, Last(a, 0))
  {
    hide Encode;
    EncodeBoth(a, b, 0);
  }

  /** The encoding only grows. */
  lemma {:induction false} FieldsGrow(o: Options, k: nat)
    requires k <= |ORDER|
    ensures |Encode(SentUpTo(o, k), 0)| <= |Encode(SentUpTo(o, |ORDER|), 0)|
    decreases |ORDER| - k
  {
    if k < |ORDER| {
      hide Encode, SentUpTo;
      FieldsGrow(o, k + 1);
      NextField(o, k);
    }
  }

  lemma NoneSent(o: Options)
    ensures SentUpTo(o, 0) == [] && Encode([], 0) == []
  {
  }

  /** All options, in the order of their numbers. */
  method SerializeOptions(o: Options, buffer: array<Byte>, at: nat) returns (size: nat, count: nat)
    requires forall i | 0 <= i < |ORDER| :: Representable(KindOf(ORDER[i]), o.Field(ORDER[i]))
    requires at + |Encode(SentUpTo(o, |ORDER|), 0)| <= buffer.Length
    modifies buffer
    ensures count == |SentUpTo(o, |ORDER|)| && size == |Encode(SentUpTo(o, |ORDER|), 0)|
    ensures buffer[..] == Written(old(buffer[..]), at, Encode(SentUpTo(o, |ORDER|), 0))
  {
    hide Written, Encode, SentUpTo, Sent, Representable, KindOf;
    ghost var before := buffer[..];
    var current := 0;
    size, count := 0, 0;
    NoneSent(o);
    NothingWritten(before, at);
    for k := 0 to |ORDER|
      invariant count == |SentUpTo(o, k)| && current == Last(SentUpTo(o, k), 0)
      invariant size == |Encode(SentUpTo(o, k), 0)| && at + size <= buffer.Length
      invariant buffer[..] == Written(before, at, Encode(SentUpTo(o, k), 0))
    {
      NextField(o, k);
      FieldsGrow(o, k + 1);
      WrittenTwice(before, at, Encode(SentUpTo(o, k), 0), Encode(Sent(o, ORDER[k]), current));
      var n, c;
      n, c, current := SerializeField(o, ORDER[k], current, buffer, at + size);
      size, count := size + n, count + c;
    }
  }

  /** coap_serialize_message: the length of the message, or zero. */
  method SerializeMessage(p: Packet, buffer: array<Byte>) returns (size: nat)
    requires p.Valid() && forall i | 0 <= i < |ORDER| :: Representable(KindOf(ORDER[i]), p.options.Field(ORDER[i]))
    requires COAP_HEADER_LEN + |Encode(SentUpTo(p.options, |ORDER|), 0)| + 1 + |p.payload| <= buffer.Length
    modifies buffer
    ensures match Serialize(p)
            case None => size == 0
            case Some(b) => size == |b| && buffer[..size] == b
  {
    hide Encode, SentUpTo, Representable, KindOf, Written, Head;
    ghost var before := buffer[..];
    ghost var e := Encode(SentUpTo(p.options, |ORDER|), 0);
    var n, count := SerializeOptions(p.options, buffer, COAP_HEADER_LEN);
    ghost var t := Terminator(count);
    var option := COAP_HEADER_LEN + n;
    WrittenTwice(before, COAP_HEADER_LEN, e, t);
    if count > 14 {
      Put(buffer, option, 0xF0);
      option := option + 1;
    } else {
      NothingWritten(buffer[..], option);
    }
    if option > COAP_MAX_HEADER_SIZE {
      return 0;
    }
    WrittenTwice(before, COAP_HEADER_LEN, e + t, p.payload);
    Copy(buffer, option, p.payload);
    size := option + |p.payload|;
    MessageWritten(before, Head(p, count), e + t + p.payload);
    WriteHead(p, count, buffer);
  }

  /** The bytes behind the header, and then the header. */
  lemma MessageWritten(before: seq<Byte>, head: seq<Byte>, rest: seq<Byte>)
    requires |head| == COAP_HEADER_LEN && COAP_HEADER_LEN + |rest| <= |before|
    ensures var after := head + Written(before, COAP_HEADER_LEN, rest)[COAP_HEADER_LEN..];
            after[..COAP_HEADER_LEN + |rest|] == head + rest
  {
    var w := Written(before, COAP_HEADER_LEN, rest);
    assert w[COAP_HEADER_LEN..][..|rest|] == rest;
  }

  method WriteHead(p: Packet, count: nat, buffer: array<Byte>)
    requires p.Valid() && buffer.Length >= COAP_HEADER_LEN
    modifies buffer
    ensures buffer[..] == Head(p, count) + old(buffer[..])[COAP_HEADER_LEN..]
  {
    buffer[0] := 64 + p.kind * 16 + (if count > 14 then 15 else count);
    buffer[1] := p.code;
    buffer[2] := p.mid / 256;
    buffer[3] := p.mid % 256;
  }
}
