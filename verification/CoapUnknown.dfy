/** Options that the CoAP parser does not know (apps/er-coap-12). */
module CoapUnknown {
  // Which messages are rejected for an option, by the numbers of their options alone, and that options which are
  // not critical do not matter.

  import opened CoapText
  import opened CoapOptions
  import opened CoapFields
  import opened CoapReceive
  import opened CoapMessage

  /** Section 3.2 of draft-ietf-core-coap-12: an option with an odd number is critical. */
  predicate Critical(o: Opt) {
    o.number % 2 == 1 && o.number !in ORDER
  }

  /** A critical option that is not known, with no Proxy-Uri before it. */
  predicate HasCritical(opts: seq<Opt>) {
    exists i :: 0 <= i < |opts| && Critical(opts[i]) && forall j | 0 <= j < i :: opts[j].number != COAP_OPTION_PROXY_URI
  }

  /** A Proxy-Uri, with no unknown critical option before it. */
  predicate HasProxyUri(opts: seq<Opt>) {
    exists i :: 0 <= i < |opts| && opts[i].number == COAP_OPTION_PROXY_URI && forall j | 0 <= j < i :: !Critical(opts[j])
  }

  function KnownOnly(opts: seq<Opt>): (r: seq<Opt>)
    ensures forall i | 0 <= i < |r| :: r[i].number in ORDER && r[i] in opts
    decreases |opts|
  {
    if opts == [] then [] else (if opts[0].number in ORDER then [opts[0]] else []) + KnownOnly(opts[1..])
  }

  lemma KnownKinds(n: nat)
    ensures KindOf(n) == Unknown <==> n !in ORDER
    ensures KindOf(n) == ProxyUri <==> n == COAP_OPTION_PROXY_URI
  {
  }

  lemma CriticalFirst(opts: seq<Opt>)
    requires opts != []
    ensures HasCritical(opts) <==> Critical(opts[0]) || (opts[0].number != COAP_OPTION_PROXY_URI && HasCritical(opts[1..]))
  {
    hide Critical;
    var rest := opts[1..];
    if HasCritical(opts) && !Critical(opts[0]) {
      var i :| 0 <= i < |opts| && Critical(opts[i]) && forall j | 0 <= j < i :: opts[j].number != COAP_OPTION_PROXY_URI;
      assert rest[i - 1] == opts[i];
      assert forall j | 0 <= j < i - 1 :: rest[j] == opts[j + 1];
    }
    if opts[0].number != COAP_OPTION_PROXY_URI && HasCritical(rest) {
      var i :| 0 <= i < |rest| && Critical(rest[i]) && forall j | 0 <= j < i :: rest[j].number != COAP_OPTION_PROXY_URI;
      assert opts[i + 1] == rest[i];
      assert forall j | 0 < j < i + 1 :: opts[j] == rest[j - 1];
    }
  }

  lemma ProxyUriFirst(opts: seq<Opt>)
    requires opts != []
    ensures HasProxyUri(opts) <==>
            opts[0].number == COAP_OPTION_PROXY_URI || (!Critical(opts[0]) && HasProxyUri(opts[1..]))
  {
    hide Critical;
    var rest := opts[1..];
    if HasProxyUri(opts) && opts[0].number != COAP_OPTION_PROXY_URI {
      var i :| 0 <= i < |opts| && opts[i].number == COAP_OPTION_PROXY_URI && forall j | 0 <= j < i :: !Critical(opts[j]);
      assert rest[i - 1] == opts[i];
      assert forall j | 0 <= j < i - 1 :: rest[j] == opts[j + 1];
    }
    if !Critical(opts[0]) && HasProxyUri(rest) {
      var i :| 0 <= i < |rest| && rest[i].number == COAP_OPTION_PROXY_URI && forall j | 0 <= j < i :: !Critical(rest[j]);
      assert opts[i + 1] == rest[i];
      assert forall j | 0 < j < i + 1 :: opts[j] == rest[j - 1];
    }
  }

  /** What a list of options does: it is refused for its first unknown critical option or Proxy-Uri, and otherwise
    * gives the fields that its known options give. */
  predicate Outcomes(o: Options, opts: seq<Opt>) {
    && (HasCritical(opts) <==> TakeAll(o, opts) == Refused(BAD_OPTION_4_02))
    && (HasProxyUri(opts) <==> TakeAll(o, opts) == Refused(PROXYING_NOT_SUPPORTED_5_05))
    && (!HasCritical(opts) && !HasProxyUri(opts) ==> TakeAll(o, opts).Taken?)
  }

  lemma {:induction false} TakeOutcomes(o: Options, opts: seq<Opt>)
    ensures Outcomes(o, opts)
    decreases |opts|
  {
    if opts != [] {
      hide HasCritical, HasProxyUri, KindOf, Stored;
      KnownKinds(opts[0].number);
      CriticalFirst(opts);
      ProxyUriFirst(opts);
      if Take(o, opts[0].number, opts[0].value).Taken? {
        TakeOutcomes(Take(o, opts[0].number, opts[0].value).options, opts[1..]);
      }
    }
  }

  /** Options that are not known change no field: the list gives the same fields as its known options. */
  lemma {:induction false} KnownGiveFields(o: Options, r: Options, opts: seq<Opt>)
    requires o.fields == r.fields && TakeAll(o, opts).Taken?
    ensures TakeAll(r, KnownOnly(opts)).Taken?
    ensures TakeAll(r, KnownOnly(opts)).options.fields == TakeAll(o, opts).options.fields
    decreases |opts|
  {
    if opts != [] {
      hide KindOf, Stored;
      KnownKinds(opts[0].number);
      var next := Take(o, opts[0].number, opts[0].value).options;
      if opts[0].number in ORDER {
        assert KnownOnly(opts)[0] == opts[0] && KnownOnly(opts)[1..] == KnownOnly(opts[1..]);
        assert r.Field(opts[0].number) == o.Field(opts[0].number);
        KnownGiveFields(next, Take(r, opts[0].number, opts[0].value).options, opts[1..]);
      } else {
        assert KnownOnly(opts) == KnownOnly(opts[1..]);
        KnownGiveFields(next, r, opts[1..]);
      }
    }
  }

  // ---------------------------------------------------------------- messages

  /** The bytes of a message with any options. */
  function Message(p: Packet, opts: seq<Opt>): seq<Byte>
    requires p.Valid() && Ascending(opts, 0)
  {
    Head(p, |opts|) + Encode(opts, 0) + Terminator(|opts|) + p.payload
  }

  lemma OptionsReceived(p: Packet, opts: seq<Opt>, tail: seq<Byte>)
    requires p.Valid() && Ascending(opts, 0)
    ensures var memory := Message(p, opts) + tail; var next := COAP_HEADER_LEN + |Encode(opts, 0)|; var n := |opts|;
            && next <= |memory| && memory[..COAP_HEADER_LEN] == Head(p, n)
            && StandsAt(memory, next, Terminator(n) + p.payload)
            && Receive(memory, COAP_HEADER_LEN, 0, if n > 14 then 15 else n, n > 14, NONE) ==
               match TakeAll(NONE, AsRead(opts, 0, 0))
               case Refused(code) => Bad(code)
               case Taken(all) => Done(next, all)
  {
    hide Encode, TakeAll, Receive, Head, AsRead, Ascending;
    var e, rest := Encode(opts, 0), Terminator(|opts|) + p.payload;
    var memory := Message(p, opts) + tail;
    assert memory == Head(p, |opts|) + e + rest + tail;
    var next := COAP_HEADER_LEN + |e|;
    assert memory[COAP_HEADER_LEN..next] == e;
    assert memory[next..next + |rest|] == rest;
    if |opts| > 14 {
      assert memory[next..next + 1] == rest[..1] == [0xF0];
    }
    ReceiveEncoded(memory, COAP_HEADER_LEN, opts, 0, 0, if |opts| > 14 then 15 else |opts|, |opts| > 14, NONE);
  }

  lemma MessageParsed(p: Packet, opts: seq<Opt>, tail: seq<Byte>, chunk: nat)
    requires p.Valid() && Ascending(opts, 0) && |Message(p, opts)| < 0x1_0000 && tail != []
    ensures Parse(Message(p, opts) + tail, |Message(p, opts)|, chunk) ==
            match TakeAll(NONE, AsRead(opts, 0, 0))
            case Refused(code) => Rejected(code)
            case Taken(all) => Parsed(p.(options := all, payload := Cut(Terminator(|opts|) + p.payload, chunk)))
  {
    hide TakeAll, Receive, Head, Encode, AsRead, Ascending;
    var n := |opts|;
    var memory := Message(p, opts) + tail;
    OptionsReceived(p, opts, tail);
    HeadRead(p, n);
    assert memory[0] == Head(p, n)[0] && memory[1] == Head(p, n)[1] && memory[2] == Head(p, n)[2] && memory[3] == Head(p, n)[3];
    var rest := Terminator(n) + p.payload;
    var next := COAP_HEADER_LEN + |Encode(opts, 0)|;
    var k := PayloadLength(|Message(p, opts)|, next, chunk);
    assert memory[next..next + k] == memory[next..next + |rest|][..k] == rest[..k] == Cut(rest, chunk);
  }

  /** Any message is rejected with 4.02 if and only if among its options, as they are read, an unknown one with an odd
    * number stands before any Proxy-Uri, and with 5.05 if and only if a Proxy-Uri stands before any such option. */
  lemma UnknownAsRead(p: Packet, opts: seq<Opt>, tail: seq<Byte>, chunk: nat)
    requires p.Valid() && Ascending(opts, 0) && |Message(p, opts)| < 0x1_0000 && tail != []
    ensures var r, read := Parse(Message(p, opts) + tail, |Message(p, opts)|, chunk), AsRead(opts, 0, 0);
            && (r == Rejected(BAD_OPTION_4_02) <==> HasCritical(read))
            && (r == Rejected(PROXYING_NOT_SUPPORTED_5_05) <==> HasProxyUri(read))
            && (!HasCritical(read) && !HasProxyUri(read) <==> r.Parsed?)
  {
    hide TakeAll, Parse, HasCritical, HasProxyUri, Message, AsRead, Ascending;
    MessageParsed(p, opts, tail, chunk);
    TakeOutcomes(NONE, AsRead(opts, 0, 0));
  }

  /** Options less than 30 apart are read as they are: then their own numbers decide. */
  lemma UnknownOptions(p: Packet, opts: seq<Opt>, tail: seq<Byte>, chunk: nat)
    requires p.Valid() && Ascending(opts, 0) && Near(opts, 0) && |Message(p, opts)| < 0x1_0000 && tail != []
    ensures var r := Parse(Message(p, opts) + tail, |Message(p, opts)|, chunk);
            && (r == Rejected(BAD_OPTION_4_02) <==> HasCritical(opts))
            && (r == Rejected(PROXYING_NOT_SUPPORTED_5_05) <==> HasProxyUri(opts))
            && (!HasCritical(opts) && !HasProxyUri(opts) <==> r.Parsed?)
  {
    hide Parse, HasCritical, HasProxyUri, Message, AsRead, Ascending, Near;
    UnknownAsRead(p, opts, tail, chunk);
    NearRead(opts, 0);
  }

  lemma KnownSmall(opts: seq<Opt>)
    requires Ascending(opts, 0) && !HasProxyUri(opts) && !HasCritical(opts)
    ensures Ascending(KnownOnly(opts), 0) && Near(KnownOnly(opts), 0)
  {
    KnownAscends(opts, 0);
    NoProxyUri(opts);
    var r := KnownOnly(opts);
    forall i | 0 <= i < |r|
      ensures r[i].number < 30
    {
      assert r[i] in opts && r[i].number in ORDER;
    }
  }

  lemma {:induction false} NoProxyUri(opts: seq<Opt>)
    requires !HasProxyUri(opts) && !HasCritical(opts)
    ensures forall o | o in opts :: o.number != COAP_OPTION_PROXY_URI
    decreases |opts|
  {
    if opts != [] {
      hide HasProxyUri, HasCritical;
      CriticalFirst(opts);
      ProxyUriFirst(opts);
      NoProxyUri(opts[1..]);
      assert opts == [opts[0]] + opts[1..];
    }
  }

  lemma {:induction false} KnownAscends(opts: seq<Opt>, number: nat)
    requires Ascending(opts, number)
    ensures Ascending(KnownOnly(opts), number)
    decreases |opts|
  {
    if opts != [] {
      KnownAscends(opts[1..], opts[0].number);
    }
  }

  lemma UnknownIgnored(p: Packet, opts: seq<Opt>, tail: seq<Byte>, chunk: nat)
    requires p.Valid() && Ascending(opts, 0) && Near(opts, 0) && tail != []
    requires !HasCritical(opts) && !HasProxyUri(opts)
    requires Ascending(KnownOnly(opts), 0) && |Message(p, opts)| < 0x1_0000 && |Message(p, KnownOnly(opts))| < 0x1_0000
    ensures var r := Parse(Message(p, opts) + tail, |Message(p, opts)|, chunk);
            var s := Parse(Message(p, KnownOnly(opts)) + tail, |Message(p, KnownOnly(opts))|, chunk);
            && r.Parsed? && s.Parsed? && r.packet.options.fields == s.packet.options.fields
            && r.packet.kind == s.packet.kind && r.packet.code == s.packet.code && r.packet.mid == s.packet.mid
  {
    hide TakeAll, Parse, HasCritical, HasProxyUri, Message, Near, AsRead, Ascending, KnownOnly;
    KnownSmall(opts);
    NearRead(opts, 0);
    NearRead(KnownOnly(opts), 0);
    MessageParsed(p, opts, tail, chunk);
    MessageParsed(p, KnownOnly(opts), tail, chunk);
    TakeOutcomes(NONE, opts);
    KnownGiveFields(NONE, NONE, opts);
  }

  /** Whatever stands behind its first byte, a datagram of another version is rejected with 4.00, and one of version 1
    * is not rejected for its version. */
  lemma OtherVersions(p: Packet, version: nat, opts: seq<Opt>, tail: seq<Byte>, chunk: nat)
    requires p.Valid() && Ascending(opts, 0) && |Message(p, opts)| < 0x1_0000 && tail != [] && version < 4
    ensures var b := Message(p, opts);
            |b| >= COAP_HEADER_LEN &&
            (Parse((b + tail)[0 := version * 64 + b[0] % 64], |b|, chunk) == Rejected(BAD_REQUEST_4_00) <==> version != 1)
  {
    hide TakeAll, Receive, Encode, AsRead, Ascending;
    MessageParsed(p, opts, tail, chunk);
    TakeOutcomes(NONE, AsRead(opts, 0, 0));
    var b := Message(p, opts);
    assert b[0] == Head(p, |opts|)[0];
    if version == 1 {
      assert (b + tail)[0 := 64 + b[0] % 64] == b + tail;
    }
  }
}
