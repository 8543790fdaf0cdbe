/** The bytes of CoAP draft 12 on the wire (apps/er-coap-12): integers in network order, and a whole request. */
module CoapWire {
  // The round trips say that the program understands itself; here is what others read and write: integers in network
  // order without leading zeros, and the bytes of a whole message.

  import opened CoapText
  import opened CoapOptions
  import opened CoapFields
  import opened CoapReceive
  import opened CoapMessage
  import opened CoapEndMark

  // ---------------------------------------------------------------- integers

  /** What a byte counts with n bytes behind it. */
  function Rank(n: nat): nat { if n == 0 then 1 else 256 * Rank(n - 1) }

  /** Without the limit of 32 bits, the number that the first byte and the bytes behind it make. */
  function Network(b: seq<Byte>): nat {
    if b == [] then 0 else b[0] as int * Rank(|b| - 1) + Network(b[1..])
  }

  lemma {:induction false} NetworkEnd(b: seq<Byte>, x: Byte)
    ensures Network(b + [x]) == 256 * Network(b) + x as int
    decreases |b|
  {
    if b == [] {
      assert (b + [x])[1..] == [];
    } else {
      NetworkEnd(b[1..], x);
      assert (b + [x])[1..] == b[1..] + [x];
      RankUp(b[0], |b| - 1);
    }
  }

  lemma RankUp(x: nat, n: nat)
    ensures x * Rank(n + 1) == 256 * (x * Rank(n))
  {
    assert Rank(n + 1) == 256 * Rank(n);
  }

  lemma CutTwice(x: nat, y: nat)
    ensures (256 * (x % WORD) + y) % WORD == (256 * x + y) % WORD
  {
    var k := x / WORD;
    assert 256 * x + y == (256 * (x % WORD) + y) + 256 * k * WORD;
  }

  /** The parser reads integers in network order, the first byte counting most, modulo 2^32. */
  lemma {:induction false} ParseIntIsNetwork(b: seq<Byte>)
    ensures ParseInt(b) == Network(b) % WORD
    decreases |b|
  {
    if b != [] {
      var n := |b| - 1;
      ParseIntIsNetwork(b[..n]);
      assert b == b[..n] + [b[n]];
      NetworkEnd(b[..n], b[n]);
      CutTwice(Network(b[..n]), b[n]);
    }
  }

  /** The serializer writes them in network order without leading zeros. */
  lemma {:induction false} IntBytesAreNetwork(v: nat)
    ensures Network(IntBytes(v)) == v
    ensures v > 0 ==> IntBytes(v) != [] && IntBytes(v)[0] != 0
    ensures v == 0 ==> IntBytes(v) == []
  {
    if v > 0 {
      IntBytesAreNetwork(v / 256);
      NetworkEnd(IntBytes(v / 256), v % 256);
    }
  }

  // ---------------------------------------------------------------- a message

  /** GET a/bc?u with token AB, asking for block 300 in blocks of 64 bytes, more of them to come. */
  const REQUEST := Packet(0, 1, 0x1234,
    Options({11, 15, 19, 23},
      map[11 := Chars([97, SLASH, 98, 99]), 15 := Chars([117]), 19 := Bytes([0xAB]), 23 := Block(300, true, 64, 19200)]),
    [7, 8])

  lemma {:induction false} Skipped(o: Options, j: nat, k: nat)
    requires j <= k <= |ORDER| && forall i | j <= i < k :: ORDER[i] !in o.bits
    ensures SentUpTo(o, k) == SentUpTo(o, j)
    decreases k
  {
    hide Parts, KindOf;
    if j < k {
      Skipped(o, j, k - 1);
      SentNext(o, k - 1);
      assert Sent(o, ORDER[k - 1]) == [];
    }
  }

  lemma PathParts()
    ensures Split([97, SLASH, 98, 99], SLASH) == [[97], [98, 99]]
  {
    var s: seq<Byte> := [97, SLASH, 98, 99];
    assert NextCut(s, SLASH, 0) == 1;
    assert s[2..] == [98, 99] && s[..1] == [97];
    var t: seq<Byte> := [98, 99];
    assert Strip(t) == t && NextCut(t, SLASH, 1) == 2 && t[..2] == t;
    assert Later(t, SLASH) == [t] + [];
  }

  lemma QueryParts()
    ensures Split([117], AMPERSAND) == [[117]]
  {
    var s: seq<Byte> := [117];
    assert NextCut(s, AMPERSAND, 0) == 1 && s[..1] == s;
  }

  lemma BlockBytes()
    ensures IntBytes(BlockWord(300, true, 64)) == [0x12, 0xCA]
  {
    assert Log2(4) == 2;
    assert BlockWord(300, true, 64) == 0x12CA;
    assert IntBytes(0) == [] && IntBytes(0x12) == [0x12];
  }

  /** The four fields, each as its options. */
  lemma FieldOptions()
    ensures var o := REQUEST.options;
            && Sent(o, 11) == [Opt(11, [97]), Opt(11, [98, 99])] && Sent(o, 15) == [Opt(15, [117])]
            && Sent(o, 19) == [Opt(19, [0xAB])] && Sent(o, 23) == [Opt(23, [0x12, 0xCA])]
  {
    PathParts();
    QueryParts();
    BlockBytes();
    hide Split, IntBytes, BlockWord;
  }

  predicate Place(k: nat) { k == 7 || k == 10 || k == 12 || k == 14 }

  lemma Places(k: nat)
    requires k < |ORDER|
    ensures ORDER[k] in REQUEST.options.bits <==> Place(k)
    ensures ORDER[7] == 11 && ORDER[10] == 15 && ORDER[12] == 19 && ORDER[14] == 23
  {
  }

  /** The options of the fields below k, when the next field of the request is `number` in place `at`. */
  lemma UpTo(k: nat, at: nat, before: seq<Opt>)
    requires k <= at < |ORDER| && SentUpTo(REQUEST.options, k) == before
    requires forall i | k <= i < at :: !Place(i)
    ensures SentUpTo(REQUEST.options, at + 1) == before + Sent(REQUEST.options, ORDER[at])
  {
    hide SentUpTo, Sent;
    forall i | k <= i < at ensures ORDER[i] !in REQUEST.options.bits { Places(i); }
    Skipped(REQUEST.options, k, at);
    SentNext(REQUEST.options, at);
  }

  const PATH := [Opt(11, [97]), Opt(11, [98, 99])]
  const QUERY := [Opt(15, [117])]
  const TOKEN := [Opt(19, [0xAB])]
  const BLOCK := [Opt(23, [0x12, 0xCA])]

  lemma OptionsOf()
    ensures SentUpTo(REQUEST.options, |ORDER|) == PATH + QUERY + TOKEN + BLOCK
  {
    hide SentUpTo, Sent;
    FieldOptions();
    Places(7);
    SentNext(REQUEST.options, 0);
    UpTo(0, 7, []);
    UpTo(8, 10, PATH);
    UpTo(11, 12, PATH + QUERY);
    UpTo(13, 14, PATH + QUERY + TOKEN);
    forall i | 15 <= i < |ORDER| ensures ORDER[i] !in REQUEST.options.bits { Places(i); }
    Skipped(REQUEST.options, 15, |ORDER|);
  }

  lemma EncodeMore(o: Opt, rest: seq<Opt>, current: nat)
    requires current <= o.number && Ascending(rest, o.number)
    ensures Ascending([o] + rest, current) && Encode([o] + rest, current) == EncodeOne(o, current) + Encode(rest, o.number)
  {
    hide EncodeOne;
    assert ([o] + rest)[1..] == rest;
  }

  /** A short option close behind the one before: one byte with difference and length, and the value. */
  lemma ShortOption(o: Opt, current: nat)
    requires current <= o.number < current + 15 && |o.value| < 15
    ensures EncodeOne(o, current) == [16 * (o.number - current) + |o.value|] + o.value
  {
  }

  lemma EncodedOptions()
    ensures Ascending(PATH + QUERY + TOKEN + BLOCK, 0)
    ensures Encode(PATH + QUERY + TOKEN + BLOCK, 0) ==
            [0xB1, 97, 0x02, 98, 99, 0x41, 117, 0x41, 0xAB, 0x42, 0x12, 0xCA]
  {
    hide Encode, EncodeOne, Ascending;
    var a, b, c, d, e := PATH[0], PATH[1], QUERY[0], TOKEN[0], BLOCK[0];
    NothingEncoded(23);
    EncodeMore(e, [], 19);
    EncodeMore(d, [e] + [], 15);
    EncodeMore(c, [d] + ([e] + []), 11);
    EncodeMore(b, [c] + ([d] + ([e] + [])), 11);
    EncodeMore(a, [b] + ([c] + ([d] + ([e] + []))), 0);
    assert PATH + QUERY + TOKEN + BLOCK == [a] + ([b] + ([c] + ([d] + ([e] + []))));
    ShortOption(a, 0);
    ShortOption(b, 11);
    ShortOption(c, 11);
    ShortOption(d, 15);
    ShortOption(e, 19);
  }

  lemma NothingEncoded(current: nat)
    ensures Ascending([], current) && Encode([], current) == []
  {
  }

  lemma SerializedAs(p: Packet, opts: seq<Opt>)
    requires p.Valid() && SentUpTo(p.options, |ORDER|) == opts && Ascending(opts, 0) && |Encode(opts, 0)| <= 65
    ensures Serialize(p) == Some(Head(p, |opts|) + (Encode(opts, 0) + Terminator(|opts|)) + p.payload)
  {
    hide SentUpTo, Encode, Head;
  }

  /** The request on the wire. */
  lemma RequestBytes()
    ensures REQUEST.Valid()
    ensures Serialize(REQUEST) ==
            Some([0x45, 1, 0x12, 0x34, 0xB1, 97, 0x02, 98, 99, 0x41, 117, 0x41, 0xAB, 0x42, 0x12, 0xCA, 7, 8])
  {
    hide SentUpTo, Encode, Serialize, Ascending;
    OptionsOf();
    EncodedOptions();
    SerializedAs(REQUEST, PATH + QUERY + TOKEN + BLOCK);
    var head, options: seq<Byte> := [0x45, 1, 0x12, 0x34], [0xB1, 97, 0x02, 98, 99, 0x41, 117, 0x41, 0xAB, 0x42, 0x12, 0xCA];
    assert Head(REQUEST, 5) == head && Terminator(5) == [] && |PATH + QUERY + TOKEN + BLOCK| == 5;
    assert Serialize(REQUEST) == Some(head + (options + []) + [7, 8]);
    assert head + (options + []) + [7, 8] ==
           [0x45, 1, 0x12, 0x34, 0xB1, 97, 0x02, 98, 99, 0x41, 117, 0x41, 0xAB, 0x42, 0x12, 0xCA, 7, 8];
  }
}
