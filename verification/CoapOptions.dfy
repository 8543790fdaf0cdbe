/** The option format of CoAP draft 12 (apps/er-coap-12). */
module CoapOptions {
  // A number as a difference to the one before, a length with extensions, and jumps for large differences.

  import opened CoapText

  datatype Opt = Opt(number: nat, value: seq<Byte>)

  /** Length bytes: 255 for every 255, and the remainder. */
  function Extension(n: nat): (e: seq<Byte>)
    ensures |e| == n / 255 + 1
  {
    if n > 254 then [255] + Extension(n - 255) else [n]
  }

  /** coap_set_option_header.  Only four bits of the difference are kept. */
  function Header(delta: nat, length: nat): (h: seq<Byte>)
    ensures |h| >= 1
  {
    if length < 15 then [(delta % 16) * 16 + length]
    else [(delta % 16) * 16 + 15] + Extension(length - 15)
  }

  /** coap_insert_option_jump: the bytes, and the number that it leaves as the current one. */
  function Jump(number: nat, current: nat): (j: (seq<Byte>, nat))
    requires current <= number
    ensures |j.0| <= 3 && current <= j.1 <= number
  {
    var delta := number - current;
    if delta < 15 then ([], current)
    else if delta < 30 then ([0xF1], current + 15)
    else if delta < 2064 then ([0xF2, delta / 8 - 2], current + (delta / 8 - 2))
    else
      var d := delta / 8 - 258;
      ([0xF3, d / 256 % 256, d % 256], current + d)
  }

  /** An option after one with number `current`. */
  function EncodeOne(o: Opt, current: nat): (b: seq<Byte>)
    requires current <= o.number
    ensures |b| > |o.value|
  {
    var j := Jump(o.number, current);
    j.0 + Header(o.number - j.1, |o.value|) + o.value
  }

  predicate Ascending(opts: seq<Opt>, current: nat) {
    (forall i | 0 <= i < |opts| :: current <= opts[i].number) &&
    (forall i, j | 0 <= i < j < |opts| :: opts[i].number <= opts[j].number)
  }

  /** A list of options, from the one after number `current` on. */
  function Encode(opts: seq<Opt>, current: nat): (b: seq<Byte>)
    requires Ascending(opts, current)
    ensures |b| >= |opts|
  {
    if opts == [] then [] else EncodeOne(opts[0], current) + Encode(opts[1..], opts[0].number)
  }

  // ---------------------------------------------------------------- reading

  /** What stands at a position: the end mark, or an option with its number, the place of its value, and
    * the length of its value; or the bytes end before the option does. */
  datatype Reading = Mark | Overrun | Option(number: nat, at: nat, length: nat)

  datatype Lengths = Beyond | Length(n: nat, next: nat)

  /** Adds up length bytes. */
  function ReadExtension(b: seq<Byte>, p: nat, sum: nat): (r: Lengths)
    ensures r.Length? ==> p < r.next <= |b|
    decreases |b| - p
  {
    if p >= |b| then Beyond
    else if b[p] == 255 then ReadExtension(b, p + 1, sum + 255)
    else Length(sum + b[p], p + 1)
  }

  /** The number and the length byte after the jump. */
  function ReadHeader(b: seq<Byte>, p: nat, number: nat): (r: Reading)
    ensures r.Option? ==> p < r.at <= r.at + r.length <= |b|
  {
    if p >= |b| then Overrun
    else
      var l := if b[p] % 16 < 15 then Length(b[p] % 16, p + 1) else ReadExtension(b, p + 1, 15);
      if l == Beyond || l.next + l.n > |b| then Overrun else Option(number + b[p] / 16, l.next, l.n)
  }

  /** One pass of the parser's loop, up to the value. */
  function ReadOption(b: seq<Byte>, p: nat, number: nat): (r: Reading)
    ensures r.Option? ==> number <= r.number && p < r.at <= r.at + r.length <= |b|
  {
    if p >= |b| then Overrun
    else if b[p] == 0xF0 then Mark
    else if b[p] == 0xF1 then ReadHeader(b, p + 1, number + 15)
    else if b[p] == 0xF2 then
      if p + 1 >= |b| then Overrun else ReadHeader(b, p + 2, number + (b[p + 1] as int + 2) * 8)
    else if b[p] == 0xF3 then
      if p + 2 >= |b| then Overrun else ReadHeader(b, p + 3, number + (b[p + 1] as int * 256 + b[p + 2] as int + 258) * 8)
    else ReadHeader(b, p, number)
  }

  // ---------------------------------------------------------------- round trip

  /** The bytes e stand at position p. */
  predicate StandsAt(b: seq<Byte>, p: nat, e: seq<Byte>) {
    p + |e| <= |b| && b[p..p + |e|] == e
  }

  lemma InTwo(b: seq<Byte>, p: nat, e: seq<Byte>, f: seq<Byte>)
    requires StandsAt(b, p, e + f)
    ensures StandsAt(b, p, e) && StandsAt(b, p + |e|, f)
  {
    assert b[p..p + |e|] == (e + f)[..|e|] == e;
    assert b[p + |e|..p + |e| + |f|] == (e + f)[|e|..] == f;
  }

  lemma {:induction false} ExtensionRead(b: seq<Byte>, p: nat, n: nat, sum: nat)
    requires StandsAt(b, p, Extension(n))
    ensures ReadExtension(b, p, sum) == Length(sum + n, p + |Extension(n)|)
    decreases n
  {
    if n > 254 {
      InTwo(b, p, [255], Extension(n - 255));
      assert b[p] == b[p..p + 1][0] == 255;
      ExtensionRead(b, p + 1, n - 255, sum + 255);
    } else {
      assert b[p] == b[p..p + 1][0] == n;
    }
  }

  /** A length is read back, and of the difference what is left of it in four bits. */
  lemma HeaderRead(b: seq<Byte>, p: nat, delta: nat, value: seq<Byte>, number: nat)
    requires StandsAt(b, p, Header(delta, |value|) + value)
    ensures p < |b| && (delta < 15 ==> b[p] < 0xF0)
    ensures ReadHeader(b, p, number) == Option(number + delta % 16, p + |Header(delta, |value|)|, |value|)
  {
    var h := Header(delta, |value|);
    InTwo(b, p, h, value);
    assert b[p] == b[p..p + |h|][0] == h[0];
    if |value| >= 15 {
      InTwo(b, p, [h[0]], Extension(|value| - 15));
      ExtensionRead(b, p + 1, |value| - 15, 15);
    }
  }

  lemma PlainEncoding(o: Opt, current: nat)
    requires current <= o.number < current + 30
    ensures EncodeOne(o, current) ==
            if o.number < current + 15 then Header(o.number - current, |o.value|) + o.value
            else [0xF1] + (Header(o.number - current - 15, |o.value|) + o.value)
  {
    hide Header;
    if o.number < current + 15 {
      assert [] + Header(o.number - current, |o.value|) == Header(o.number - current, |o.value|);
    }
  }

  lemma ValueStands(b: seq<Byte>, p: nat, delta: nat, value: seq<Byte>)
    requires StandsAt(b, p, Header(delta, |value|) + value)
    ensures StandsAt(b, p + |Header(delta, |value|)|, value)
  {
    hide Header;
    InTwo(b, p, Header(delta, |value|), value);
  }

  predicate ReadBack(b: seq<Byte>, p: nat, o: Opt, current: nat, end: nat) {
    && |o.value| <= end
    && ReadOption(b, p, current) == Option(o.number, end - |o.value|, |o.value|)
    && StandsAt(b, end - |o.value|, o.value)
  }

  lemma ReadPlain(b: seq<Byte>, p: nat, o: Opt, current: nat)
    requires current <= o.number < current + 15 && StandsAt(b, p, Header(o.number - current, |o.value|) + o.value)
    ensures ReadBack(b, p, o, current, p + |Header(o.number - current, |o.value|) + o.value|)
  {
    hide Header, ReadHeader, StandsAt;
    HeaderRead(b, p, o.number - current, o.value, current);
    ValueStands(b, p, o.number - current, o.value);
  }

  lemma ReadJump(b: seq<Byte>, p: nat, o: Opt, current: nat)
    requires current + 15 <= o.number < current + 30
    requires StandsAt(b, p, [0xF1] + (Header(o.number - current - 15, |o.value|) + o.value))
    ensures ReadBack(b, p, o, current, p + 1 + |Header(o.number - current - 15, |o.value|) + o.value|)
  {
    var delta := o.number - current - 15;
    InTwo(b, p, [0xF1], Header(delta, |o.value|) + o.value);
    assert b[p] == b[p..p + 1][0] == 0xF1;
    hide Header, ReadHeader, StandsAt;
    HeaderRead(b, p + 1, delta, o.value, current + 15);
    ValueStands(b, p + 1, delta, o.value);
  }

  /** An option is read back, wherever it stands, if its number is less than 30 above the one before. */
  lemma OneRead(b: seq<Byte>, p: nat, o: Opt, current: nat)
    requires current <= o.number < current + 30 && StandsAt(b, p, EncodeOne(o, current))
    ensures ReadBack(b, p, o, current, p + |EncodeOne(o, current)|)
  {
    hide EncodeOne, Header, StandsAt, ReadBack, ReadOption, Jump;
    PlainEncoding(o, current);
    if o.number < current + 15 {
      ReadPlain(b, p, o, current);
    } else {
      ReadJump(b, p, o, current);
    }
  }

  // ---------------------------------------------------------------- large differences

  /** The number that the reader finds for an option.  For differences of 30 and more the writer counts the
    * jump itself, where the reader counts eight times as much, and both keep four bits of the rest. */
  function NumberRead(number: nat, current: nat): (r: nat)
    requires current <= number
    ensures r >= current
  {
    var delta := number - current;
    if delta < 30 then number
    else
      var jump := if delta < 2064 then delta / 8 else (delta / 8 - 258) % 0x1_0000 + 258;
      current + jump * 8 + (delta - delta / 8 + 2) % 16
  }

  lemma ShortJump(b: seq<Byte>, p: nat, o: Opt, current: nat)
    requires current + 30 <= o.number < current + 2064 && StandsAt(b, p, EncodeOne(o, current))
    ensures ReadOption(b, p, current) == Option(NumberRead(o.number, current), p + |EncodeOne(o, current)| - |o.value|, |o.value|)
  {
    var delta := o.number - current;
    var rest := delta - (delta / 8 - 2);
    var h := Header(rest, |o.value|) + o.value;
    assert EncodeOne(o, current) == [0xF2, delta / 8 - 2] + h;
    hide EncodeOne, Header, ReadHeader;
    InTwo(b, p, [0xF2, delta / 8 - 2], h);
    assert b[p] == b[p..p + 2][0] && b[p + 1] == b[p..p + 2][1];
    HeaderRead(b, p + 2, rest, o.value, current + delta / 8 * 8);
  }

  lemma LongEncoding(o: Opt, current: nat)
    requires current + 2064 <= o.number
    ensures var d := (o.number - current) / 8 - 258;
            EncodeOne(o, current) ==
            [0xF3, d / 256 % 256, d % 256] + (Header(o.number - current - d, |o.value|) + o.value)
  {
    hide Header;
  }

  lemma LongNumber(number: nat, current: nat)
    requires current + 2064 <= number
    ensures var d := (number - current) / 8 - 258;
            current + (d / 256 % 256 * 256 + d % 256 + 258) * 8 + (number - current - d) % 16 == NumberRead(number, current)
  {
    var delta := number - current;
    TwoBytes(delta / 8 - 258);
    SixteenLess(delta - delta / 8);
  }

  lemma LongJump(b: seq<Byte>, p: nat, o: Opt, current: nat)
    requires current + 2064 <= o.number && StandsAt(b, p, EncodeOne(o, current))
    ensures ReadOption(b, p, current) == Option(NumberRead(o.number, current), p + |EncodeOne(o, current)| - |o.value|, |o.value|)
  {
    hide EncodeOne, Header, ReadHeader, NumberRead;
    LongEncoding(o, current);
    LongNumber(o.number, current);
    var d := (o.number - current) / 8 - 258;
    var rest := o.number - current - d;
    var j := [0xF3, d / 256 % 256, d % 256];
    InTwo(b, p, j, Header(rest, |o.value|) + o.value);
    assert b[p] == b[p..p + 3][0] && b[p + 1] == b[p..p + 3][1] && b[p + 2] == b[p..p + 3][2];
    HeaderRead(b, p + 3, rest, o.value, current + (d / 256 % 256 * 256 + d % 256 + 258) * 8);
  }

  lemma TwoBytes(d: nat)
    ensures d / 256 % 256 * 256 + d % 256 == d % 0x1_0000
  {
  }

  lemma SixteenLess(x: nat)
    ensures (x + 258) % 16 == (x + 2) % 16
  {
  }

  /** Any option is read back as an option with its value and the number NumberRead; so it comes back as it was
    * if and only if that is its number. */
  lemma OneReadIff(b: seq<Byte>, p: nat, o: Opt, current: nat)
    requires current <= o.number && StandsAt(b, p, EncodeOne(o, current))
    ensures ReadOption(b, p, current) == Option(NumberRead(o.number, current), p + |EncodeOne(o, current)| - |o.value|, |o.value|)
    ensures ReadBack(b, p, o, current, p + |EncodeOne(o, current)|) <==> NumberRead(o.number, current) == o.number
  {
    if o.number < current + 30 {
      OneRead(b, p, o, current);
    } else {
      hide EncodeOne, NumberRead;
      if o.number < current + 2064 {
        ShortJump(b, p, o, current);
      } else {
        LongJump(b, p, o, current);
      }
      ValueAtEnd(b, p, o, current);
    }
  }

  lemma ValueAtEnd(b: seq<Byte>, p: nat, o: Opt, current: nat)
    requires current <= o.number && StandsAt(b, p, EncodeOne(o, current))
    ensures StandsAt(b, p + |EncodeOne(o, current)| - |o.value|, o.value)
  {
    hide Jump, Header;
    var j := Jump(o.number, current);
    InTwo(b, p, j.0 + Header(o.number - j.1, |o.value|), o.value);
  }

  /** The reader adds up differences: it may have come to another number than the writer. */
  lemma ReadShift(b: seq<Byte>, p: nat, number: nat, other: nat)
    requires ReadOption(b, p, number).Option?
    ensures var r := ReadOption(b, p, number);
            ReadOption(b, p, other) == Option(other + (r.number - number), r.at, r.length)
  {
    hide ReadExtension;
  }

  /** An option as it is read when the writer has come to the number `sent` and the reader to `read`. */
  function Shifted(o: Opt, sent: nat, read: nat): (r: Opt)
    requires sent <= o.number
    ensures r.number >= read && r.value == o.value
  {
    Opt(read + (NumberRead(o.number, sent) - sent), o.value)
  }

  lemma OneReadFrom(b: seq<Byte>, p: nat, o: Opt, sent: nat, read: nat)
    requires sent <= o.number && StandsAt(b, p, EncodeOne(o, sent))
    ensures ReadBack(b, p, Shifted(o, sent, read), read, p + |EncodeOne(o, sent)|)
  {
    hide EncodeOne, ReadOption, NumberRead, StandsAt;
    OneReadIff(b, p, o, sent);
    ReadShift(b, p, sent, read);
    ValueAtEnd(b, p, o, sent);
  }

  lemma ProxyUriNumber(current: nat)
    requires current <= 35
    ensures NumberRead(35, current) == 35 <==> current >= 6
    ensures NumberRead(35, 0) == 33
  {
    assert NumberRead(35, 0) == 33 && NumberRead(35, 1) == 33 && NumberRead(35, 2) == 49;
    assert NumberRead(35, 3) == 49 && NumberRead(35, 4) == 42 && NumberRead(35, 5) == 42;
  }

  /** Proxy-Uri is read as Proxy-Uri if and only if an option with number 6 or more stands before it. */
  lemma ProxyUriReadIff(b: seq<Byte>, p: nat, value: seq<Byte>, current: nat)
    requires current <= 35 && StandsAt(b, p, EncodeOne(Opt(35, value), current))
    ensures ReadBack(b, p, Opt(35, value), current, p + |EncodeOne(Opt(35, value), current)|) <==> current >= 6
    ensures current == 0 ==> ReadOption(b, p, 0).Option? && ReadOption(b, p, 0).number == 33
  {
    hide EncodeOne, ReadOption, ReadBack, StandsAt, NumberRead;
    ProxyUriNumber(current);
    OneReadIff(b, p, Opt(35, value), current);
  }
}
