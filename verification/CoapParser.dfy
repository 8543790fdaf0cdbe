/** The parser of CoAP messages (apps/er-coap-12/er-coap-12.c, coap_parse_message), which joins the
  * segments of paths and queries inside the buffer that it reads from. */
module CoapParser {
  import opened CoapText
  import opened CoapOptions
  import opened CoapFields
  import opened CoapReceive
  import opened CoapMessage

  /** A string in the buffer. */
  datatype Slice = Slice(start: nat, length: nat) {
    function End(): nat { start + length }
  }

  function Text(b: seq<Byte>, s: Slice): (t: seq<Byte>)
    requires s.End() <= |b|
    ensures |t| == s.length
  {
    b[s.start..s.End()]
  }

  /** Strings that have been read lie before the next option, in the order of their numbers. */
  predicate Laid(slices: map<nat, Slice>, number: nat, position: nat) {
    && (forall n | n in slices :: n <= number && slices[n].End() <= position)
    && (forall m, n | m in slices && n in slices && m < n && slices[m].length > 0 && slices[n].length > 0 ::
          slices[m].End() <= slices[n].start)
  }

  // ---------------------------------------------------------------- joining in place

  /** The buffer after a separator and the bytes at `at` have been put behind a string. */
  function Joined(b: seq<Byte>, s: Slice, at: nat, length: nat, c: Byte): (r: seq<Byte>)
    requires s.End() < at && at + length <= |b|
    ensures |r| == |b|
  {
    b[..s.End()] + [c] + b[at..at + length] + b[s.End() + 1 + length..]
  }

  lemma SameText(a: seq<Byte>, b: seq<Byte>, s: Slice, position: nat)
    requires position <= |a| == |b| && a[..position] == b[..position]
    requires s.End() <= position || (s.length == 0 && s.End() <= |a|)
    ensures Text(a, s) == Text(b, s)
  {
    if s.End() <= position {
      assert a[s.start..s.End()] == a[..position][s.start..s.End()];
      assert b[s.start..s.End()] == b[..position][s.start..s.End()];
    }
  }

  /** The string has grown by the new part; nothing from the end of the option on has changed, and no
    * string before it. */
  lemma JoinedHolds(b: seq<Byte>, s: Slice, at: nat, length: nat, c: Byte)
    requires s.End() < at && at + length <= |b|
    ensures Text(Joined(b, s, at, length, c), Slice(s.start, s.length + 1 + length)) == Text(b, s) + [c] + b[at..at + length]
    ensures Joined(b, s, at, length, c)[at + length..] == b[at + length..]
    ensures forall t: Slice | (t.length == 0 && t.End() <= |b|) || t.End() <= s.start :: Text(Joined(b, s, at, length, c), t) == Text(b, t)
  {
    var r := Joined(b, s, at, length, c);
    assert r[..s.End()] == b[..s.End()];
    forall t: Slice | (t.length == 0 && t.End() <= |b|) || t.End() <= s.start
      ensures Text(r, t) == Text(b, t)
    {
      SameText(r, b, t, s.End());
    }
  }

  // ---------------------------------------------------------------- what has not been read

  lemma {:induction false} SameExtension(a: seq<Byte>, b: seq<Byte>, p: nat, q: nat, sum: nat)
    requires |a| == |b| && p <= |a| && a[p..] == b[p..] && p <= q
    ensures ReadExtension(a, q, sum) == ReadExtension(b, q, sum)
    decreases |a| - q
  {
    if q < |a| {
      assert a[q] == a[p..][q - p] && b[q] == b[p..][q - p];
      if a[q] == 255 {
        SameExtension(a, b, p, q + 1, sum + 255);
      }
    }
  }

  lemma SameHeader(a: seq<Byte>, b: seq<Byte>, p: nat, q: nat, number: nat)
    requires |a| == |b| && p <= |a| && a[p..] == b[p..] && p <= q
    ensures ReadHeader(a, q, number) == ReadHeader(b, q, number)
  {
    if q < |a| {
      assert a[q] == a[p..][q - p] && b[q] == b[p..][q - p];
      SameExtension(a, b, p, q + 1, 15);
    }
  }

  /** Reading an option looks at nothing before it. */
  lemma SameOption(a: seq<Byte>, b: seq<Byte>, p: nat, number: nat)
    requires |a| == |b| && p <= |a| && a[p..] == b[p..]
    ensures ReadOption(a, p, number) == ReadOption(b, p, number)
  {
    hide ReadHeader;
    forall q, n | p <= q
      ensures ReadHeader(a, q, n) == ReadHeader(b, q, n)
    {
      SameHeader(a, b, p, q, n);
    }
    assert forall q | p <= q < |a| :: a[q] == a[p..][q - p] && b[q] == b[p..][q - p];
  }

  // ---------------------------------------------------------------- the packet that is being filled

  /** The fields and strings show the options received so far. */
  predicate Shows(b: seq<Byte>, fields: map<nat, Value>, slices: map<nat, Slice>, view: Options) {
    && view.fields.Keys == fields.Keys + slices.Keys
    && (forall n | n in fields :: !KindOf(n).String? && view.fields[n] == fields[n])
    && (forall n | n in slices :: KindOf(n).String? && slices[n].End() <= |b| && view.fields[n] == Chars(Text(b, slices[n])))
  }

  lemma ShowsField(b: seq<Byte>, fields: map<nat, Value>, slices: map<nat, Slice>, view: Options, bits: set<nat>, n: nat, v: Value)
    requires Shows(b, fields, slices, view) && !KindOf(n).String?
    ensures Shows(b, fields[n := v], slices, Options(bits, view.fields[n := v]))
  {
  }

  /** A string that is set to the value of the option. */
  lemma ShowsNewString(b: seq<Byte>, fields: map<nat, Value>, slices: map<nat, Slice>, view: Options, bits: set<nat>, n: nat, s: Slice)
    requires Shows(b, fields, slices, view) && KindOf(n).String? && s.End() <= |b|
    ensures Shows(b, fields, slices[n := s], Options(bits, view.fields[n := Chars(Text(b, s))]))
  {
  }

  lemma LaidNewString(slices: map<nat, Slice>, number: nat, position: nat, n: nat, at: nat, length: nat)
    requires Laid(slices, number, position) && number <= n && position < at
    ensures Laid(slices[n := Slice(at, length)], n, at + length)
  {
  }

  lemma LaidLater(slices: map<nat, Slice>, number: nat, position: nat, n: nat, end: nat)
    requires Laid(slices, number, position) && number <= n && position <= end
    ensures Laid(slices, n, end)
  {
  }

  lemma LaidLongerString(slices: map<nat, Slice>, number: nat, position: nat, n: nat, at: nat, length: nat)
    requires Laid(slices, number, position) && number <= n && position < at && n in slices && slices[n].length > 0
    ensures Laid(slices[n := Slice(slices[n].start, slices[n].length + 1 + length)], n, at + length)
  {
  }

  /** A string that grows in place. */
  lemma ShowsLongerString(b: seq<Byte>, fields: map<nat, Value>, slices: map<nat, Slice>, view: Options, bits: set<nat>,
                          number: nat, position: nat, n: nat, at: nat, length: nat, c: Byte)
    requires Shows(b, fields, slices, view) && Laid(slices, number, position) && number <= n && position < at && at + length <= |b|
    requires n in slices && slices[n].length > 0
    ensures slices[n].End() < at
    ensures var s := slices[n]; var grown := Slice(s.start, s.length + 1 + length);
            Shows(Joined(b, s, at, length, c), fields, slices[n := grown],
                  Options(bits, view.fields[n := Chars(Text(b, s) + [c] + b[at..at + length])]))
  {
    hide Joined, Text, KindOf;
    var s := slices[n];
    JoinedHolds(b, s, at, length, c);
    forall m | m in slices && m != n
      ensures slices[m].End() <= |b| && Text(Joined(b, s, at, length, c), slices[m]) == Text(b, slices[m])
    {
      assert m < n;
    }
  }

  datatype Progress = Finished | Failed(code: nat) | LeftBuffer

  lemma ShowsBit(b: seq<Byte>, fields: map<nat, Value>, slices: map<nat, Slice>, view: Options, bits: set<nat>)
    requires Shows(b, fields, slices, view)
    ensures Shows(b, fields, slices, Options(bits, view.fields))
  {
  }

  lemma Slices(a: seq<Byte>, b: seq<Byte>, p: nat, at: nat, length: nat)
    requires |a| == |b| && p <= at && at + length <= |a| && a[p..] == b[p..]
    ensures a[at..at + length] == b[at..at + length] && a[at + length..] == b[at + length..]
  {
    forall i | p <= i < |a|
      ensures a[i] == b[i]
    {
      assert a[i] == a[p..][i - p] && b[i] == b[p..][i - p];
    }
  }

  class Parser {
    const buffer: array<Byte>
    var position: nat
    var number: nat
    var bits: set<nat>
    var fields: map<nat, Value>
    var slices: map<nat, Slice>
    ghost var view: Options

    ghost predicate Valid()
      reads this, buffer
    {
      && position <= buffer.Length && bits == view.bits
      && Laid(slices, number, position) && Shows(buffer[..], fields, slices, view)
    }

    constructor (buffer: array<Byte>)
      requires buffer.Length >= 4
      ensures Valid() && this.buffer == buffer && position == 4 && number == 0 && view == NONE
    {
      this.buffer := buffer;
      position, number, bits, fields, slices, view := 4, 0, {}, map[], map[], NONE;
    }

    /** Reads the number and the length of the next option. */
    method NextOption() returns (r: Reading)
      requires position <= buffer.Length
      ensures r == ReadOption(buffer[..], position, number)
    {
      ghost var b := buffer[..];
      if position >= buffer.Length {
        return Overrun;
      }
      if buffer[position] == 0xF0 {
        return Mark;
      }
      var p, n := position, number;
      if buffer[p] == 0xF1 {
        p, n := p + 1, n + 15;
      } else if buffer[p] == 0xF2 {
        if p + 1 >= buffer.Length {
          return Overrun;
        }
        p, n := p + 2, n + (buffer[p + 1] as int + 2) * 8;
      } else if buffer[p] == 0xF3 {
        if p + 2 >= buffer.Length {
          return Overrun;
        }
        p, n := p + 3, n + (buffer[p + 1] as int * 256 + buffer[p + 2] as int + 258) * 8;
      }
      r := NextHeader(p, n);
    }

    method NextHeader(from: nat, current: nat) returns (r: Reading)
      ensures r == ReadHeader(buffer[..], from, current)
    {
      ghost var b := buffer[..];
      if from >= buffer.Length {
        return Overrun;
      }
      var p := from + 1;
      var length := buffer[from] as int % 16;
      if length == 15 {
        while p < buffer.Length && buffer[p] == 255
          invariant from < p && length >= 15 && ReadExtension(b, p, length) == ReadExtension(b, from + 1, 15)
        {
          length := length + 255;
          p := p + 1;
        }
        if p >= buffer.Length {
          return Overrun;
        }
        length, p := length + buffer[p], p + 1;
      }
      if p + length > buffer.Length {
        return Overrun;
      }
      return Option(current + buffer[from] / 16, p, length);
    }

    /** coap_parse_int_option */
    method ParseIntOption(at: nat, length: nat) returns (v: nat)
      requires at + length <= buffer.Length
      ensures v == ParseInt(buffer[at..at + length])
    {
      ghost var part := buffer[at..at + length];
      v := 0;
      for i := 0 to length
        invariant v == ParseInt(part[..i])
      {
        assert part[..i + 1][..i] == part[..i];
        v := (v * 256 + buffer[at + i] as int) % WORD;
      }
      assert part[..length] == part;
    }

    /** What a field holds after one more option. */
    method StoredValue(k: Kind, kept: Value, at: nat, length: nat) returns (stored: Value)
      requires at + length <= buffer.Length && Fits(k, kept) && !k.String? && !k.ProxyUri? && !k.Unknown?
      ensures stored == Stored(k, kept, buffer[at..at + length])
    {
      hide ParseInt, BlockOf;
      var v := ParseIntOption(at, length);
      match k {
        case Int(limit) => stored := Number(if limit == 0 then 0 else v % limit);
        case Flag => stored := Number(1);
        case Array =>
          assert buffer[at..at + length][..if length > COAP_ARRAY_LEN then COAP_ARRAY_LEN else length] ==
                 buffer[at..at + if length > COAP_ARRAY_LEN then COAP_ARRAY_LEN else length];
          stored := Bytes(buffer[at..at + if length > COAP_ARRAY_LEN then COAP_ARRAY_LEN else length]);
        case Accept => stored := if |kept.ns| < COAP_MAX_ACCEPT_NUM then Numbers(kept.ns + [v % 0x1_0000]) else kept;
        case BlockOption => stored := BlockOf(v);
      }
    }

    /** A value that is kept in a field of the packet. */
    method TakeField(n: nat, at: nat, length: nat)
      requires Valid() && number <= n && position < at && at + length <= buffer.Length
      requires !KindOf(n).String? && !KindOf(n).ProxyUri? && !KindOf(n).Unknown?
      modifies this`position, this`number, this`bits, this`fields, this`view
      ensures Valid() && position == at + length && number == n
      ensures Take(old(view), n, buffer[at..at + length]) == Taken(view)
    {
      hide KindOf, Stored, Shows, Laid;
      var k := KindOf(n);
      FieldShown(buffer[..], fields, slices, view, n);
      var kept := if n in fields && Fits(k, fields[n]) then fields[n] else Default(k);
      var stored := StoredValue(k, kept, at, length);
      ShowsField(buffer[..], fields, slices, view, bits + {n}, n, stored);
      LaidLater(slices, number, position, n, at + length);
      bits, fields := bits + {n}, fields[n := stored];
      view := Options(bits, view.fields[n := stored]);
      position, number := at + length, n;
    }

    /** coap_merge_multi_option when the string is not empty: it grows in place by a separator and the
      * value, which moves towards it. */
    method GrowString(n: nat, at: nat, length: nat, c: Byte)
      requires Valid() && number <= n && position < at && at + length <= buffer.Length && KindOf(n) == String(c)
      requires c != 0 && n in slices && slices[n].length > 0
      modifies buffer, this`slices, this`view, this`bits, this`position, this`number
      ensures Valid() && position == at + length && number == n
      ensures buffer[at + length..] == old(buffer[at + length..])
      ensures Take(old(view), n, old(buffer[at..at + length])) == Taken(view)
    {
      hide KindOf, Laid, Joined, Shows, Text;
      ghost var b := buffer[..];
      var s := slices[n];
      TextShown(b, fields, slices, view, n);
      ShowsLongerString(b, fields, slices, view, bits + {n}, number, position, n, at, length, c);
      LaidLongerString(slices, number, position, n, at, length);
      JoinedHolds(b, s, at, length, c);
      TakeString(view, n, b[at..at + length], c);
      bits := bits + {n};
      MoveBehind(s, at, length, c);
      slices := slices[n := Slice(s.start, s.length + 1 + length)];
      view := Options(bits, view.fields[n := Chars(Text(b, s) + [c] + b[at..at + length])]);
      position, number := at + length, n;
    }

    /** The first value of a string stays where it is. */
    method SetString(n: nat, at: nat, length: nat, c: Byte)
      requires Valid() && number <= n && position < at && at + length <= buffer.Length && KindOf(n) == String(c)
      requires c == 0 || n !in slices || slices[n].length == 0
      modifies this`slices, this`view, this`bits, this`position, this`number
      ensures Valid() && position == at + length && number == n
      ensures Take(old(view), n, buffer[at..at + length]) == Taken(view)
    {
      hide KindOf, Laid, Joined, Shows;
      TextShown(buffer[..], fields, slices, view, n);
      TakeString(view, n, buffer[at..at + length], c);
      ShowsNewString(buffer[..], fields, slices, view, bits + {n}, n, Slice(at, length));
      LaidNewString(slices, number, position, n, at, length);
      bits := bits + {n};
      slices := slices[n := Slice(at, length)];
      view := Options(bits, view.fields[n := Chars(buffer[at..at + length])]);
      position, number := at + length, n;
    }

    /** The switch over the option numbers; a code other than zero refuses the message. */
    method TakeOption(n: nat, at: nat, length: nat) returns (refused: nat)
      requires Valid() && number <= n && position < at && at + length <= buffer.Length
      modifies buffer, this`position, this`number, this`bits, this`fields, this`slices, this`view
      ensures match Take(old(view), n, old(buffer[at..at + length]))
              case Refused(code) => refused == code != 0
              case Taken(o) =>
                && refused == 0 && Valid() && view == o && position == at + length && number == n
                && buffer[at + length..] == old(buffer[at + length..])
    {
      hide KindOf, Laid, Shows, Stored;
      refused := 0;
      match KindOf(n) {
        case ProxyUri => refused := PROXYING_NOT_SUPPORTED_5_05;
        case Unknown =>
          if n % 2 == 1 {
            return BAD_OPTION_4_02;
          }
          LaidLater(slices, number, position, n, at + length);
          ShowsBit(buffer[..], fields, slices, view, bits + {n});
          bits := bits + {n};
          view := Options(bits, view.fields);
          position, number := at + length, n;
        case String(c) =>
          if c != 0 && n in slices && slices[n].length > 0 {
            GrowString(n, at, length, c);
          } else {
            SetString(n, at, length, c);
          }
        case _ => TakeField(n, at, length);
      }
    }

    /** The loop over the options: it counts them, or with count 15 it looks for the end mark. */
    method ParseOptions(count: nat) returns (r: Progress)
      requires Valid() && position == COAP_HEADER_LEN && number == 0 && view == NONE
      modifies buffer, this`position, this`number, this`bits, this`fields, this`slices, this`view
      ensures match Receive(old(buffer[..]), COAP_HEADER_LEN, 0, count, count == 15, NONE)
              case Outside => r == LeftBuffer
              case Bad(code) => r == Failed(code)
              case Done(next, o) => r == Finished && Valid() && view == o && position == next && buffer[next..] == old(buffer[..])[next..]
    {
      hide Laid, Shows, ReadOption, Take;
      ghost var b := buffer[..];
      ghost var all := Receive(b, COAP_HEADER_LEN, 0, count, count == 15, NONE);
      var left := count;
      while left > 0 || count == 15
        invariant Valid() && buffer[position..] == b[position..]
        invariant all == Receive(b, position, number, left, count == 15, view)
        decreases buffer.Length - position
      {
        SameOption(buffer[..], b, position, number);
        var o := NextOption();
        match o {
          case Overrun => return LeftBuffer;
          case Mark => return Finished;
          case Option(n, at, length) =>
            Slices(buffer[..], b, position, at, length);
            var refused := TakeOption(n, at, length);
            if refused != 0 {
              return Failed(refused);
            }
        }
        left := Fewer(left);
      }
      r := Finished;
    }

    method MoveBehind(s: Slice, at: nat, length: nat, c: Byte)
      requires s.End() < at && at + length <= buffer.Length
      modifies buffer
      ensures buffer[..] == Joined(old(buffer[..]), s, at, length, c)
    {
      ghost var b := buffer[..];
      var end := s.End();
      buffer[end] := c;
      forall i | 0 <= i < length {
        buffer[end + 1 + i] := buffer[at + i];
      }
    }
  }

  /** A parsed message: the fields of the packet and the place of the payload. */
  datatype Result = Accepted(kind: nat, code: Byte, mid: nat, payload: Slice) | Refusal(error: nat) | OutsideBuffer

  /** coap_parse_message: a datagram of `size` bytes stands at the start of the buffer.  Afterwards the
    * strings are joined in the buffer, and the payload is followed by a zero. */
  method ParseMessage(buffer: array<Byte>, size: nat, chunk: nat) returns (r: Result, parser: Parser?)
    modifies buffer
    ensures match Parse(old(buffer[..]), size, chunk)
            case BeyondBuffer => r == OutsideBuffer
            case Rejected(code) => r == Refusal(code)
            case Parsed(p) =>
              && r.Accepted? && r.kind == p.kind && r.code == p.code && r.mid == p.mid
              && r.payload.End() < buffer.Length && Text(buffer[..], r.payload) == p.payload && buffer[r.payload.End()] == 0
              && parser != null && parser.buffer == buffer && parser.bits == p.options.bits
              && Shows(buffer[..], parser.fields, parser.slices, p.options)
  {
    hide Laid, Shows, Receive;
    parser := null;
    if buffer.Length < COAP_HEADER_LEN {
      return OutsideBuffer, null;
    }
    var b0, code, b2, b3 := buffer[0], buffer[1], buffer[2], buffer[3];
    if b0 as int / 64 != 1 {
      return Refusal(BAD_REQUEST_4_00), null;
    }
    parser := new Parser(buffer);
    var progress := parser.ParseOptions(b0 % 16);
    match progress {
      case LeftBuffer => return OutsideBuffer, parser;
      case Failed(c) => return Refusal(c), parser;
      case Finished =>
    }
    var n := PayloadLength(size, parser.position, chunk);
    var payload := Slice(parser.position, n);
    if payload.End() >= buffer.Length {
      return OutsideBuffer, parser;
    }
    Slices(buffer[..], old(buffer[..]), parser.position, parser.position, n);
    EndPayload(parser, payload);
    r := Accepted(b0 as int / 16 % 4, code, b2 as int * 256 + b3 as int, payload);
  }

  /** Null-terminates the payload; no string reaches so far. */
  method EndPayload(parser: Parser, payload: Slice)
    requires parser.Valid() && parser.position == payload.start && payload.End() < parser.buffer.Length
    modifies parser.buffer
    ensures Shows(parser.buffer[..], parser.fields, parser.slices, parser.view)
    ensures Text(parser.buffer[..], payload) == old(Text(parser.buffer[..], payload)) && parser.buffer[payload.End()] == 0
  {
    ghost var b := parser.buffer[..];
    parser.buffer[payload.End()] := 0;
    TextsBefore(b, parser.buffer[..], parser.fields, parser.slices, parser.view, parser.number, parser.position);
  }

  lemma TextsBefore(a: seq<Byte>, b: seq<Byte>, fields: map<nat, Value>, slices: map<nat, Slice>, view: Options, number: nat, position: nat)
    requires Shows(a, fields, slices, view) && Laid(slices, number, position) && position <= |a| == |b| && a[..position] == b[..position]
    ensures Shows(b, fields, slices, view)
  {
    hide KindOf;
    forall n | n in slices
      ensures slices[n].End() <= |b| && Text(a, slices[n]) == Text(b, slices[n])
    {
      SameText(a, b, slices[n], position);
    }
    hide Text;
  }

  lemma FieldShown(b: seq<Byte>, fields: map<nat, Value>, slices: map<nat, Slice>, view: Options, n: nat)
    requires Shows(b, fields, slices, view) && !KindOf(n).String?
    ensures view.Field(n) == if n in fields && Fits(KindOf(n), fields[n]) then fields[n] else Default(KindOf(n))
  {
    hide KindOf;
  }

  lemma TextShown(b: seq<Byte>, fields: map<nat, Value>, slices: map<nat, Slice>, view: Options, n: nat)
    requires Shows(b, fields, slices, view) && KindOf(n).String?
    ensures n in slices ==> slices[n].End() <= |b|
    ensures view.Field(n) == Chars(if n in slices then Text(b, slices[n]) else [])
  {
    hide KindOf, Text;
  }

  lemma TakeString(view: Options, n: nat, value: seq<Byte>, c: Byte)
    requires KindOf(n) == String(c)
    ensures Take(view, n, value) ==
            Taken(Options(view.bits + {n}, view.fields[n := Chars(if c == 0 || view.Field(n).text == [] then value else view.Field(n).text + [c] + value)]))
  {
    hide KindOf;
  }
}
