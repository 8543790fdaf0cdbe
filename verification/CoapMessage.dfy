/** CoAP messages and their round trip (apps/er-coap-12). */
module CoapMessage {
  // What is sent for a packet, what is made of received bytes, and when the two fit together.

  import opened CoapText
  import opened CoapOptions
  import opened CoapFields
  import opened CoapReceive

  const COAP_HEADER_LEN := 4
  const COAP_MAX_HEADER_SIZE := 70
  const BAD_REQUEST_4_00 := 128

  datatype Packet = Packet(kind: nat, code: Byte, mid: nat, options: Options, payload: seq<Byte>) {
    predicate Valid() { kind < 4 && mid < 0x1_0000 }
  }

  /** The options in the order in which they are sent. */
  const ORDER: seq<nat> := [1, 3, 4, 5, 6, 7, 8, 11, 12, 14, 15, 16, 19, 20, 23, 27, 28, 35]

  // ---------------------------------------------------------------- sending

  /** The options of one field. */
  function Sent(o: Options, number: nat): (opts: seq<Opt>)
    ensures forall i | 0 <= i < |opts| :: opts[i].number == number
  {
    if number in o.bits then Numbered(number, Parts(KindOf(number), o.Field(number))) else []
  }

  lemma OrderAscends()
    ensures forall i, j | 0 <= i < j < |ORDER| :: ORDER[i] < ORDER[j]
  {
  }

  /** The options of the first k fields. */
  function SentUpTo(o: Options, k: nat): (opts: seq<Opt>)
    requires k <= |ORDER|
    ensures forall i | 0 <= i < |opts| :: k > 0 && opts[i].number <= ORDER[k - 1]
    ensures Ascending(opts, 0)
  {
    if k == 0 then []
    else
      assert k > 1 ==> ORDER[k - 2] < ORDER[k - 1] by { OrderAscends(); }
      SentUpTo(o, k - 1) + Sent(o, ORDER[k - 1])
  }

  function Head(p: Packet, count: nat): (h: seq<Byte>)
    requires p.Valid()
    ensures |h| == COAP_HEADER_LEN
  {
    [64 + p.kind * 16 + (if count > 14 then 15 else count), p.code, p.mid / 256, p.mid % 256]
  }

  datatype Maybe<T> = None | Some(value: T)

  /** The end mark is sent after 15 or more options. */
  function Terminator(count: nat): seq<Byte> {
    if count > 14 then [0xF0] else []
  }

  /** The bytes of a message, unless its header would be too long. */
  function Serialize(p: Packet): (r: Maybe<seq<Byte>>)
    requires p.Valid()
  {
    var opts := SentUpTo(p.options, |ORDER|);
    var e := Encode(opts, 0) + Terminator(|opts|);
    if COAP_HEADER_LEN + |e| <= COAP_MAX_HEADER_SIZE then Some(Head(p, |opts|) + e + p.payload) else None
  }

  // ---------------------------------------------------------------- receiving

  datatype Outcome = Parsed(packet: Packet) | Rejected(code: nat) | BeyondBuffer

  /** The payload is cut to the largest chunk. */
  function PayloadLength(size: nat, next: nat, chunk: nat): (n: nat)
    ensures n <= chunk
  {
    var n := (size - next) % 0x1_0000;
    if n > chunk then chunk else n
  }

  /** What is made of a datagram of `size` bytes at the start of the memory b. */
  function Parse(b: seq<Byte>, size: nat, chunk: nat): Outcome {
    if |b| < COAP_HEADER_LEN then BeyondBuffer
    else if b[0] / 64 != 1 then Rejected(BAD_REQUEST_4_00)
    else
      match Receive(b, COAP_HEADER_LEN, 0, b[0] % 16, b[0] % 16 == 15, NONE)
      case Outside => BeyondBuffer
      case Bad(code) => Rejected(code)
      case Done(next, o) =>
        var n := PayloadLength(size, next, chunk);
        if next + n >= |b| then BeyondBuffer
        else Parsed(Packet(b[0] / 16 % 4, b[1], b[2] as int * 256 + b[3] as int, o, b[next..next + n]))
  }

  // ---------------------------------------------------------------- round trip

  /** A packet whose option fields can be sent and received unchanged: every bit that is set has a value
    * of its kind in range. */
  predicate Good(o: Options) {
    && o.fields.Keys == o.bits
    && forall number | number in o.bits :: number in ORDER && Sendable(KindOf(number), o.fields[number])
  }

  /** The first k fields. */
  ghost function FirstFields(o: Options, k: nat): Options
    requires Good(o) && k <= |ORDER|
  {
    if k == 0 then NONE
    else
      var r := FirstFields(o, k - 1);
      var n := ORDER[k - 1];
      if n in o.bits then Options(r.bits + {n}, r.fields[n := o.fields[n]]) else r
  }

  lemma {:induction false} FirstFieldsHold(o: Options, k: nat)
    requires Good(o) && k <= |ORDER|
    ensures forall n :: n in FirstFields(o, k).bits <==> n in o.bits && n in ORDER[..k]
    ensures FirstFields(o, k).fields.Keys == FirstFields(o, k).bits
    ensures forall n | n in FirstFields(o, k).fields :: FirstFields(o, k).fields[n] == o.fields[n]
  {
    if k > 0 {
      FirstFieldsHold(o, k - 1);
      assert ORDER[..k] == ORDER[..k - 1] + [ORDER[k - 1]];
      hide Good;
    }
  }

  lemma AllFields(o: Options)
    requires Good(o)
    ensures FirstFields(o, |ORDER|) == o
  {
    FirstFieldsHold(o, |ORDER|);
    assert ORDER[..|ORDER|] == ORDER;
    hide FirstFields;
    var r := FirstFields(o, |ORDER|);
    assert forall n | n in o.bits :: n in ORDER;
    SameOptions(r, o);
  }

  lemma SameOptions(r: Options, o: Options)
    requires forall n :: n in r.bits <==> n in o.bits
    requires r.fields.Keys == r.bits && o.fields.Keys == o.bits
    requires forall n | n in r.fields :: r.fields[n] == o.fields[n]
    ensures r == o
  {
    assert r.bits == o.bits && r.fields == o.fields;
  }

  lemma NewField(o: Options, k: nat)
    requires Good(o) && k < |ORDER|
    ensures ORDER[k] !in FirstFields(o, k).fields
  {
    FirstFieldsHold(o, k);
    OrderAscends();
  }

  /** The options of one field rebuild the field. */
  lemma TakeSent(o: Options, r: Options, number: nat)
    requires Good(o) && number in o.bits && number !in r.fields
    ensures TakeAll(r, Sent(o, number)) == Taken(Options(r.bits + {number}, r.fields[number := o.fields[number]]))
  {
    hide Parts, StoredAll, KindOf, TakeAll;
    FieldRead(KindOf(number), o.fields[number]);
    KnownKind(o, number);
    TakeNumbered(r, number, Parts(KindOf(number), o.Field(number)));
  }

  lemma KnownKind(o: Options, number: nat)
    requires Good(o) && number in o.bits
    ensures KindOf(number) != ProxyUri && KindOf(number) != Unknown
  {
  }

  lemma TakeNext(o: Options, k: nat)
    requires Good(o) && k < |ORDER| && TakeAll(NONE, SentUpTo(o, k)) == Taken(FirstFields(o, k))
    ensures TakeAll(NONE, SentUpTo(o, k) + Sent(o, ORDER[k])) == Taken(FirstFields(o, k + 1))
  {
    var n := ORDER[k];
    NewField(o, k);
    if n in o.bits {
      TakeSent(o, FirstFields(o, k), n);
    } else {
      assert Sent(o, n) == [];
    }
    hide Good, Sent;
    TakeTwo(NONE, SentUpTo(o, k), Sent(o, n));
  }

  lemma {:induction false} TakeFields(o: Options, k: nat)
    requires Good(o) && k <= |ORDER|
    ensures TakeAll(NONE, SentUpTo(o, k)) == Taken(FirstFields(o, k))
  {
    hide TakeAll, Good, FirstFields, Sent;
    if k > 0 {
      TakeFields(o, k - 1);
      TakeNext(o, k - 1);
    } else {
      NoFields(o);
    }
  }

  lemma NoFields(o: Options)
    requires Good(o)
    ensures TakeAll(NONE, SentUpTo(o, 0)) == Taken(FirstFields(o, 0))
  {
  }

  /** Without Proxy-Uri all numbers are below 30. */
  predicate Small(opts: seq<Opt>) {
    forall i | 0 <= i < |opts| :: opts[i].number < 30
  }

  lemma SentNear(o: Options)
    requires Good(o)
    ensures Near(SentUpTo(o, |ORDER|), 0)
  {
    SentSmall(o, |ORDER|);
  }

  lemma FieldSmall(o: Options, n: nat)
    requires Good(o) && n in ORDER
    ensures Small(Sent(o, n))
  {
    if n in o.bits {
      KnownKind(o, n);
      assert n != COAP_OPTION_PROXY_URI;
    }
  }

  lemma SmallBoth(a: seq<Opt>, b: seq<Opt>)
    requires Small(a) && Small(b)
    ensures Small(a + b)
  {
  }

  lemma {:induction false} SentSmall(o: Options, k: nat)
    requires Good(o) && k <= |ORDER|
    ensures Small(SentUpTo(o, k))
  {
    hide Good, Small, Sent;
    if k > 0 {
      SentSmall(o, k - 1);
      FieldSmall(o, ORDER[k - 1]);
      SmallBoth(SentUpTo(o, k - 1), Sent(o, ORDER[k - 1]));
    } else {
      NoneSmall();
    }
  }

  lemma NoneSmall()
    ensures Small([])
  {
  }

  function Cut(s: seq<Byte>, chunk: nat): seq<Byte> {
    if |s| > chunk then s[..chunk] else s
  }

  lemma HeadRead(p: Packet, count: nat)
    requires p.Valid()
    ensures var h := Head(p, count);
            && h[0] / 64 == 1 && h[0] % 16 == (if count > 14 then 15 else count) && h[0] / 16 % 4 == p.kind
            && h[1] == p.code && h[2] as int * 256 + h[3] as int == p.mid
  {
  }

  /** Whatever follows the bytes of a message in memory, the options of the message are received, and what
    * stands behind them is taken for the payload; that includes the end mark. */
  lemma ReceiveMessage(p: Packet, b: seq<Byte>, tail: seq<Byte>)
    requires p.Valid() && Good(p.options) && Serialize(p) == Some(b)
    ensures var n := |SentUpTo(p.options, |ORDER|)|; var memory := b + tail;
            var next := |b| - |Terminator(n) + p.payload|;
            && COAP_HEADER_LEN <= next && memory[..COAP_HEADER_LEN] == Head(p, n)
            && StandsAt(memory, next, Terminator(n) + p.payload)
            && Receive(memory, COAP_HEADER_LEN, 0, if n > 14 then 15 else n, n > 14, NONE) == Done(next, p.options)
  {
    hide Encode, Good, TakeAll, Receive, Head, SentUpTo, AsRead, Ascending, Near;
    var opts := SentUpTo(p.options, |ORDER|);
    var e, rest := Encode(opts, 0), Terminator(|opts|) + p.payload;
    var memory := b + tail;
    assert memory == Head(p, |opts|) + e + rest + tail;
    var next := COAP_HEADER_LEN + |e|;
    assert memory[COAP_HEADER_LEN..next] == e;
    assert memory[next..next + |rest|] == rest;
    TakeFields(p.options, |ORDER|);
    AllFields(p.options);
    SentNear(p.options);
    NearRead(SentUpTo(p.options, |ORDER|), 0);
    if |opts| > 14 {
      assert memory[next..next + 1] == rest[..1] == [0xF0];
    }
    ReceiveEncoded(memory, COAP_HEADER_LEN, opts, 0, 0, if |opts| > 14 then 15 else |opts|, |opts| > 14, NONE);
  }

  /** A message is parsed to the packet it was made of, except that the end mark of 15 or more options
    * stays in front of the payload, and that the payload is cut to the largest chunk. */
  lemma RoundTrip(p: Packet, b: seq<Byte>, tail: seq<Byte>, chunk: nat)
    requires p.Valid() && Good(p.options) && Serialize(p) == Some(b) && |b| < 0x1_0000 && tail != []
    ensures Parse(b + tail, |b|, chunk) ==
            Parsed(p.(payload := Cut(Terminator(|SentUpTo(p.options, |ORDER|)|) + p.payload, chunk)))
  {
    hide Good, SentUpTo, Receive, Serialize, Head;
    var n := |SentUpTo(p.options, |ORDER|)|;
    var memory := b + tail;
    ReceiveMessage(p, b, tail);
    HeadRead(p, n);
    var rest := Terminator(n) + p.payload;
    var next := |b| - |rest|;
    assert memory[0] == Head(p, n)[0] && memory[1] == Head(p, n)[1] && memory[2] == Head(p, n)[2] && memory[3] == Head(p, n)[3];
    var k := PayloadLength(|b|, next, chunk);
    assert memory[next..next + k] == memory[next..next + |rest|][..k] == rest[..k] == Cut(rest, chunk);
  }

  lemma CutIsSame(s: seq<Byte>, chunk: nat)
    ensures Cut([0xF0] + s, chunk) == s <==> |s| == chunk && forall i | 0 <= i < |s| :: s[i] == 0xF0
  {
    var t: seq<Byte> := [0xF0] + s;
    if Cut(t, chunk) == s {
      MarksOnly(s, |s|);
    }
    if |s| == chunk && forall i | 0 <= i < |s| :: s[i] == 0xF0 {
      assert t[..chunk] == s;
    }
  }

  lemma {:induction false} MarksOnly(s: seq<Byte>, k: nat)
    requires k <= |s| && s == ([0xF0] + s)[..|s|]
    ensures forall i | 0 <= i < k :: s[i] == 0xF0
  {
    if k > 0 {
      MarksOnly(s, k - 1);
      assert s[k - 1] == ([0xF0] + s)[k - 1];
    }
  }

  /** The packet itself comes back if and only if its payload fits a chunk and it has at most 14 options
    * (or its payload is a full chunk of end marks). */
  lemma RoundTripIff(p: Packet, b: seq<Byte>, tail: seq<Byte>, chunk: nat)
    requires p.Valid() && Good(p.options) && Serialize(p) == Some(b) && |b| < 0x1_0000 && tail != []
    ensures Parse(b + tail, |b|, chunk) == Parsed(p) <==>
            if |SentUpTo(p.options, |ORDER|)| <= 14 then |p.payload| <= chunk
            else |p.payload| == chunk && forall i | 0 <= i < |p.payload| :: p.payload[i] == 0xF0
  {
    hide Good, SentUpTo, Parse, Serialize;
    RoundTrip(p, b, tail, chunk);
    CutIsSame(p.payload, chunk);
    assert [] + p.payload == p.payload;
  }
}
