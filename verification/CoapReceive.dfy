/** The loop that parses CoAP options (apps/er-coap-12). */
module CoapReceive {
  // The loop over the options of a message, and that it takes over a list of encoded options.

  import opened CoapText
  import opened CoapOptions
  import opened CoapFields

  const BAD_OPTION_4_02 := 130
  const PROXYING_NOT_SUPPORTED_5_05 := 165

  /** The bitmap of options, and the fields that have been given a value. */
  datatype Options = Options(bits: set<nat>, fields: map<nat, Value>) {
    function Field(number: nat): (v: Value)
      ensures Fits(KindOf(number), v)
    {
      if number in fields && Fits(KindOf(number), fields[number]) then fields[number] else Default(KindOf(number))
    }
  }

  const NONE := Options({}, map[])

  datatype Taking = Taken(options: Options) | Refused(code: nat)

  /** What one option does to the packet.  Options with an odd number are critical. */
  function Take(o: Options, number: nat, value: seq<Byte>): Taking {
    var k := KindOf(number);
    var bits := o.bits + {number};
    if k == ProxyUri then Refused(PROXYING_NOT_SUPPORTED_5_05)
    else if k == Unknown then
      if number % 2 == 1 then Refused(BAD_OPTION_4_02) else Taken(Options(bits, o.fields))
    else Taken(Options(bits, o.fields[number := Stored(k, o.Field(number), value)]))
  }

  datatype Received = Done(next: nat, options: Options) | Bad(code: nat) | Outside

  function Fewer(left: nat): nat { if left > 0 then left - 1 else 0 }

  /** The parser's loop over the options. */
  function Receive(b: seq<Byte>, p: nat, number: nat, left: nat, toMark: bool, o: Options): (r: Received)
    ensures r.Done? ==> r.next <= |b| || r.next == p
    decreases |b| - p
  {
    if left == 0 && !toMark then Done(p, o)
    else
      match ReadOption(b, p, number)
      case Overrun => Outside
      case Mark => Done(p, o)
      case Option(n, at, length) =>
        match Take(o, n, b[at..at + length])
        case Refused(code) => Bad(code)
        case Taken(next) => Receive(b, at + length, n, Fewer(left), toMark, next)
  }

  // ---------------------------------------------------------------- options are received as they were sent

  /** The effect of a list of options, if none is refused. */
  function TakeAll(o: Options, opts: seq<Opt>): Taking
    decreases |opts|
  {
    if opts == [] then Taken(o)
    else
      match Take(o, opts[0].number, opts[0].value)
      case Refused(code) => Refused(code)
      case Taken(next) => TakeAll(next, opts[1..])
  }

  lemma {:induction false} TakeTwo(o: Options, a: seq<Opt>, b: seq<Opt>)
    requires TakeAll(o, a).Taken?
    ensures TakeAll(o, a + b) == TakeAll(TakeAll(o, a).options, b)
    decreases |a|
  {
    if a == [] {
      assert a + b == b;
    } else {
      assert (a + b)[1..] == a[1..] + b;
      TakeTwo(Take(o, a[0].number, a[0].value).options, a[1..], b);
    }
  }

  /** The options as they are read, when the writer starts at the number `sent` and the reader at `read`. */
  function AsRead(opts: seq<Opt>, sent: nat, read: nat): (r: seq<Opt>)
    requires Ascending(opts, sent)
    ensures |r| == |opts|
    decreases |opts|
  {
    if opts == [] then []
    else
      var first := Shifted(opts[0], sent, read);
      [first] + AsRead(opts[1..], opts[0].number, first.number)
  }

  /** Every number is less than 30 above the one before. */
  predicate Near(opts: seq<Opt>, number: nat) {
    && (opts != [] ==> opts[0].number < number + 30)
    && forall i | 0 < i < |opts| :: opts[i].number < opts[i - 1].number + 30
  }

  /** Such options are read as they are. */
  lemma {:induction false} NearRead(opts: seq<Opt>, number: nat)
    requires Ascending(opts, number) && Near(opts, number)
    ensures AsRead(opts, number, number) == opts
    decreases |opts|
  {
    if opts != [] {
      TailAscends(opts, number);
      NearRead(opts[1..], opts[0].number);
      assert Shifted(opts[0], number, number) == opts[0];
      hide Ascending, Near, Shifted;
      assert opts == [opts[0]] + opts[1..];
    }
  }

  /** The loop takes over exactly the encoded options, as they are read, and stops after them or with the code of the
    * option that is refused. */
  predicate Receives(b: seq<Byte>, p: nat, opts: seq<Opt>, sent: nat, read: nat, left: nat, toMark: bool, o: Options)
    requires Ascending(opts, sent)
  {
    match TakeAll(o, AsRead(opts, sent, read))
    case Refused(code) => Receive(b, p, read, left, toMark, o) == Bad(code)
    case Taken(all) => Receive(b, p, read, left, toMark, o) == Done(p + |Encode(opts, sent)|, all)
  }

  /** What the bytes and the option count must be for that. */
  predicate Sends(b: seq<Byte>, p: nat, opts: seq<Opt>, number: nat, left: nat, toMark: bool)
    requires Ascending(opts, number)
  {
    && StandsAt(b, p, Encode(opts, number)) && (toMark || left == |opts|)
    && (toMark ==> StandsAt(b, p + |Encode(opts, number)|, [0xF0]))
  }

  lemma ReceiveNone(b: seq<Byte>, p: nat, sent: nat, read: nat, left: nat, toMark: bool, o: Options)
    requires Sends(b, p, [], sent, left, toMark)
    ensures Receives(b, p, [], sent, read, left, toMark, o)
  {
    if toMark {
      assert b[p] == b[p..p + 1][0] == 0xF0;
    }
  }

  lemma TailAscends(opts: seq<Opt>, number: nat)
    requires opts != [] && Ascending(opts, number)
    ensures Ascending(opts[1..], opts[0].number) && number <= opts[0].number
    ensures Near(opts, number) ==> Near(opts[1..], opts[0].number) && opts[0].number < number + 30
  {
  }

  lemma FirstOption(b: seq<Byte>, p: nat, opts: seq<Opt>, number: nat, read: nat)
    requires opts != [] && Ascending(opts, number) && StandsAt(b, p, Encode(opts, number))
    ensures Ascending(opts[1..], opts[0].number) && number <= opts[0].number
    ensures var end := p + |EncodeOne(opts[0], number)|;
            && ReadBack(b, p, Shifted(opts[0], number, read), read, end)
            && StandsAt(b, end, Encode(opts[1..], opts[0].number))
            && end + |Encode(opts[1..], opts[0].number)| == p + |Encode(opts, number)|
  {
    hide EncodeOne, ReadBack, StandsAt, Ascending, Shifted;
    var first := opts[0];
    TailAscends(opts, number);
    InTwo(b, p, EncodeOne(first, number), Encode(opts[1..], first.number));
    OneReadFrom(b, p, first, number, read);
  }

  lemma ReceiveMore(b: seq<Byte>, p: nat, opts: seq<Opt>, sent: nat, first: Opt, read: nat, left: nat, toMark: bool, o: Options, end: nat, next: Options)
    requires opts != [] && Ascending(opts, sent) && Ascending(opts[1..], opts[0].number) && (toMark || left > 0)
    requires first == Shifted(opts[0], sent, read)
    requires ReadBack(b, p, first, read, end) && end + |Encode(opts[1..], opts[0].number)| == p + |Encode(opts, sent)|
    requires Take(o, first.number, first.value) == Taken(next)
    requires Receives(b, end, opts[1..], opts[0].number, first.number, Fewer(left), toMark, next)
    ensures Receives(b, p, opts, sent, read, left, toMark, o)
  {
    hide Take, ReadOption, Encode, Ascending, Shifted;
    assert b[end - |first.value|..end] == first.value;
    assert AsRead(opts, sent, read)[1..] == AsRead(opts[1..], opts[0].number, first.number);
    assert TakeAll(o, AsRead(opts, sent, read)) == TakeAll(next, AsRead(opts[1..], opts[0].number, first.number));
    assert Receive(b, p, read, left, toMark, o) == Receive(b, end, first.number, Fewer(left), toMark, next);
  }

  lemma SendsRest(b: seq<Byte>, p: nat, opts: seq<Opt>, number: nat, read: nat, left: nat, toMark: bool) returns (end: nat)
    requires opts != [] && Ascending(opts, number) && Sends(b, p, opts, number, left, toMark)
    ensures Ascending(opts[1..], opts[0].number) && number <= opts[0].number && (toMark || left > 0)
    ensures Sends(b, end, opts[1..], opts[0].number, Fewer(left), toMark)
    ensures ReadBack(b, p, Shifted(opts[0], number, read), read, end)
    ensures end + |Encode(opts[1..], opts[0].number)| == p + |Encode(opts, number)|
  {
    hide Encode, EncodeOne, ReadBack, StandsAt, Ascending, Shifted;
    FirstOption(b, p, opts, number, read);
    end := p + |EncodeOne(opts[0], number)|;
  }

  lemma ReceiveRefused(b: seq<Byte>, p: nat, opts: seq<Opt>, sent: nat, first: Opt, read: nat, left: nat, toMark: bool, o: Options, end: nat, code: nat)
    requires opts != [] && Ascending(opts, sent) && (toMark || left > 0)
    requires sent <= opts[0].number && first == Shifted(opts[0], sent, read) && ReadBack(b, p, first, read, end)
    requires Take(o, first.number, first.value) == Refused(code)
    ensures Receives(b, p, opts, sent, read, left, toMark, o)
  {
    hide Take, ReadOption, Encode, Ascending, Shifted;
    assert b[end - |first.value|..end] == first.value;
    assert AsRead(opts, sent, read)[0] == first;
    assert TakeAll(o, AsRead(opts, sent, read)) == Refused(code);
  }

  lemma {:induction false} ReceiveEncoded(b: seq<Byte>, p: nat, opts: seq<Opt>, sent: nat, read: nat, left: nat, toMark: bool, o: Options)
    requires Ascending(opts, sent) && Sends(b, p, opts, sent, left, toMark)
    ensures Receives(b, p, opts, sent, read, left, toMark, o)
    decreases |opts|
  {
    hide Encode, EncodeOne, Take, TakeAll, Receive, ReadBack, StandsAt, Ascending, Shifted, Receives, Sends;
    if opts == [] {
      ReceiveNone(b, p, sent, read, left, toMark, o);
    } else {
      var end := SendsRest(b, p, opts, sent, read, left, toMark);
      var first := Shifted(opts[0], sent, read);
      match Take(o, first.number, first.value)
      case Refused(code) => ReceiveRefused(b, p, opts, sent, first, read, left, toMark, o, end, code);
      case Taken(next) =>
        ReceiveEncoded(b, end, opts[1..], opts[0].number, first.number, Fewer(left), toMark, next);
        ReceiveMore(b, p, opts, sent, first, read, left, toMark, o, end, next);
    }
  }

  // ---------------------------------------------------------------- the options of a field

  /** All values with one number. */
  function Numbered(number: nat, parts: seq<seq<Byte>>): (opts: seq<Opt>)
    ensures |opts| == |parts| && forall i | 0 <= i < |opts| :: opts[i] == Opt(number, parts[i])
  {
    seq(|parts|, i requires 0 <= i < |parts| => Opt(number, parts[i]))
  }

  lemma {:induction false} TakeNumbered(o: Options, number: nat, parts: seq<seq<Byte>>)
    requires KindOf(number) != ProxyUri && KindOf(number) != Unknown && parts != []
    ensures TakeAll(o, Numbered(number, parts)) ==
            Taken(Options(o.bits + {number}, o.fields[number := StoredAll(KindOf(number), o.Field(number), parts)]))
    decreases |parts|
  {
    hide KindOf, Stored;
    var k := KindOf(number);
    var opts := Numbered(number, parts);
    var next := Take(o, number, parts[0]).options;
    assert next.Field(number) == Stored(k, o.Field(number), parts[0]);
    assert opts[1..] == Numbered(number, parts[1..]);
    if |parts| > 1 {
      TakeNumbered(next, number, parts[1..]);
    } else {
      assert parts[1..] == [];
    }
  }
}
