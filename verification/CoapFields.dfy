/** The option fields of a packet (apps/er-coap-12): their kinds, their option values, and the values parsed from them. */
module CoapFields {
  // How each is turned into option values, and what the parser makes of an option value (apps/er-coap-12/er-
  // coap-12.c and er-coap-12.h).

  import opened CoapText
  import opened CoapOptions

  const WORD: nat := 0x1_0000_0000

  // ---------------------------------------------------------------- integers

  /** Big-endian without leading zeros, as coap_serialize_int_option writes it. */
  function IntBytes(v: nat): (b: seq<Byte>)
    ensures (v < 0x100 ==> |b| <= 1) && (v < 0x1_0000 ==> |b| <= 2) && (v < 0x100_0000 ==> |b| <= 3) && (v < WORD ==> |b| <= 4)
  {
    if v == 0 then [] else IntBytes(v / 256) + [v % 256]
  }

  /** coap_parse_int_option, with its 32-bit variable. */
  function ParseInt(b: seq<Byte>): (v: nat)
    ensures v < WORD
  {
    if b == [] then 0 else (ParseInt(b[..|b| - 1]) * 256 + b[|b| - 1] as int) % WORD
  }

  lemma {:induction false} IntRead(v: nat)
    requires v < WORD
    ensures ParseInt(IntBytes(v)) == v
  {
    if v > 0 {
      IntRead(v / 256);
      var b := IntBytes(v);
      assert b[..|b| - 1] == IntBytes(v / 256);
    }
  }

  // ---------------------------------------------------------------- blocks

  function Pow2(k: nat): (p: nat)
    ensures p >= 1
  {
    if k == 0 then 1 else 2 * Pow2(k - 1)
  }

  /** coap_log_2 */
  function Log2(v: nat): nat {
    if v < 2 then 0 else Log2(v / 2) + 1
  }

  lemma {:induction false} Log2OfPow2(k: nat)
    ensures Log2(Pow2(k)) == k
  {
    if k > 0 {
      Log2OfPow2(k - 1);
    }
  }

  /** The number, the bit for more blocks, and the size exponent in one word. */
  function Word(num: nat, more: bool, exponent: nat): (w: nat)
    requires exponent < 16
    ensures w < WORD
  {
    num * 16 % WORD + (if more && exponent < 8 then 8 else 0) + exponent
  }

  function BlockWord(num: nat, more: bool, size: nat): (w: nat)
    ensures w < WORD
  {
    Word(num, more, Log2(size / 16) % 16)
  }

  function BlockOf(w: nat): Value {
    Block(w / 16, w / 8 % 2 == 1, 16 * Pow2(w % 8), w / 16 * 16 * Pow2(w % 8) % WORD)
  }

  lemma WordParts(num: nat, flag: nat, k: nat)
    requires flag <= 1 && k <= 7
    ensures var w := num * 16 + 8 * flag + k; w / 16 == num && w % 8 == k && w / 8 % 2 == flag
  {
  }

  lemma Offset(num: nat, p: nat)
    ensures num * 16 * p == num * (16 * p)
  {
  }

  lemma WordIs(num: nat, more: bool, k: nat)
    requires num < 0x1000_0000 && k <= 7
    ensures Word(num, more, k) == num * 16 + 8 * (if more then 1 else 0) + k
  {
  }

  lemma ExponentIs(k: nat)
    requires k <= 7
    ensures Log2(16 * Pow2(k) / 16) % 16 == k
  {
    var p := Pow2(k);
    Log2OfPow2(k);
    assert 16 * p / 16 == p;
  }

  /** A block number below 2^28 and a size of 16 times a power of two up to 128 come back; the offset that
    * the reader computes is their product. */
  lemma BlockRead(num: nat, more: bool, k: nat)
    requires num < 0x1000_0000 && k <= 7
    ensures BlockOf(BlockWord(num, more, 16 * Pow2(k))) == Block(num, more, 16 * Pow2(k), num * (16 * Pow2(k)) % WORD)
  {
    hide Pow2, Log2, Word;
    ExponentIs(k);
    WordIs(num, more, k);
    WordParts(num, if more then 1 else 0, k);
    Offset(num, Pow2(k));
  }

  // ---------------------------------------------------------------- fields

  datatype Value =
    | Number(n: nat)
    | Bytes(bytes: seq<Byte>)
    | Chars(text: seq<Byte>)
    | Numbers(ns: seq<nat>)
    | Block(num: nat, more: bool, size: nat, offset: nat)

  /** How an option is coded.  A string with separator 0 is sent as one option. */
  datatype Kind = Int(limit: nat) | Flag | Array | String(splitter: Byte) | Accept | BlockOption | ProxyUri | Unknown

  const COAP_MAX_ACCEPT_NUM := 2
  const COAP_ARRAY_LEN := 8
  const COAP_OPTION_PROXY_URI := 35

  function KindOf(number: nat): Kind {
    if number == 1 || number == 4 || number == 19 then Array
    else if number == 3 then String(0)
    else if number == 5 then Flag
    else if number == 6 || number == 7 then Int(0x1_0000)
    else if number == 8 || number == 11 then String(SLASH)
    else if number == 12 || number == 14 || number == 28 then Int(WORD)
    else if number == 15 || number == 20 then String(AMPERSAND)
    else if number == 16 then Accept
    else if number == 23 || number == 27 then BlockOption
    else if number == COAP_OPTION_PROXY_URI then ProxyUri
    else Unknown
  }

  /** What a field holds before anything is stored in it. */
  function Default(k: Kind): Value {
    match k
    case Int(_) => Number(0)
    case Flag => Number(0)
    case Array => Bytes([])
    case String(_) => Chars([])
    case Accept => Numbers([])
    case BlockOption => Block(0, false, 0, 0)
    case ProxyUri => Chars([])
    case Unknown => Number(0)
  }

  predicate Fits(k: Kind, v: Value) {
    match k
    case Int(_) => v.Number?
    case Flag => v.Number?
    case Array => v.Bytes?
    case String(_) => v.Chars?
    case Accept => v.Numbers?
    case BlockOption => v.Block?
    case ProxyUri => v.Chars?
    case Unknown => v.Number?
  }

  /** The option values that a field is sent as. */
  function Parts(k: Kind, v: Value): seq<seq<Byte>>
    requires Fits(k, v)
  {
    match k
    case Int(_) => [IntBytes(v.n)]
    case Flag => [[]]
    case Array => [v.bytes]
    case String(c) => if c == 0 then [v.text] else Split(v.text, c)
    case Accept => seq(|v.ns|, i requires 0 <= i < |v.ns| => IntBytes(v.ns[i]))
    case BlockOption => [IntBytes(BlockWord(v.num, v.more, v.size))]
    case ProxyUri => [v.text]
    case Unknown => []
  }

  /** What a field holds after one more option of its number. */
  function Stored(k: Kind, v: Value, part: seq<Byte>): (r: Value)
    requires Fits(k, v)
    ensures Fits(k, r)
  {
    match k
    case Int(limit) => Number(if limit == 0 then 0 else ParseInt(part) % limit)
    case Flag => Number(1)
    case Array => Bytes(if |part| > COAP_ARRAY_LEN then part[..COAP_ARRAY_LEN] else part)
    case String(c) => Chars(if c == 0 then part else Merge(v.text, part, c))
    case Accept => if |v.ns| < COAP_MAX_ACCEPT_NUM then Numbers(v.ns + [ParseInt(part) % 0x1_0000]) else v
    case BlockOption => BlockOf(ParseInt(part))
    case ProxyUri => v
    case Unknown => v
  }

  function StoredAll(k: Kind, v: Value, parts: seq<seq<Byte>>): (r: Value)
    requires Fits(k, v)
    ensures Fits(k, r)
    decreases |parts|
  {
    if parts == [] then v else StoredAll(k, Stored(k, v, parts[0]), parts[1..])
  }

  /** The values that can be sent and received unchanged. */
  predicate Sendable(k: Kind, v: Value) {
    match k
    case Int(limit) => v.Number? && v.n < limit <= WORD
    case Flag => v == Number(1)
    case Array => v.Bytes? && |v.bytes| <= COAP_ARRAY_LEN
    case String(c) => v.Chars? && (c == 0 || Tidy(v.text, c))
    case Accept => v.Numbers? && 1 <= |v.ns| <= COAP_MAX_ACCEPT_NUM && forall i | 0 <= i < |v.ns| :: v.ns[i] < 0x1_0000
    case BlockOption =>
      && v.Block? && v.num < 0x1000_0000 && v.offset == v.num * v.size % WORD
      && exists e: nat | e <= 7 :: v.size == 16 * Pow2(e)
    case ProxyUri => false
    case Unknown => false
  }

  lemma {:induction false} TextStored(c: Byte, text: seq<Byte>, parts: seq<seq<Byte>>)
    requires c != 0
    ensures StoredAll(String(c), Chars(text), parts) == Chars(MergeAll(text, parts, c))
    decreases |parts|
  {
    if parts != [] {
      TextStored(c, Merge(text, parts[0], c), parts[1..]);
    }
  }

  lemma OneStored(k: Kind, v: Value, part: seq<Byte>)
    requires Fits(k, v)
    ensures StoredAll(k, v, [part]) == Stored(k, v, part)
  {
    assert [part][1..] == [];
  }

  lemma AcceptOne(ns: seq<nat>, n: nat)
    requires |ns| < COAP_MAX_ACCEPT_NUM && n < 0x1_0000
    ensures Stored(Accept, Numbers(ns), IntBytes(n)) == Numbers(ns + [n])
  {
    hide ParseInt, IntBytes;
    IntRead(n);
  }

  lemma {:induction false} AcceptFull(ns: seq<nat>, parts: seq<seq<Byte>>)
    requires |ns| == COAP_MAX_ACCEPT_NUM
    ensures StoredAll(Accept, Numbers(ns), parts) == Numbers(ns)
    decreases |parts|
  {
    if parts != [] {
      AcceptFull(ns, parts[1..]);
    }
  }

  /** Of many Accept options the first two are kept. */
  lemma AcceptKeepsFirst(ns: seq<nat>)
    requires |ns| > COAP_MAX_ACCEPT_NUM && forall i | 0 <= i < |ns| :: ns[i] < 0x1_0000
    ensures StoredAll(Accept, Numbers([]), Parts(Accept, Numbers(ns))) == Numbers(ns[..COAP_MAX_ACCEPT_NUM])
  {
    hide ParseInt, IntBytes, Stored;
    var parts := Parts(Accept, Numbers(ns));
    AcceptOne([], ns[0]);
    AcceptOne([ns[0]], ns[1]);
    assert [] + [ns[0]] == [ns[0]] && [ns[0]] + [ns[1]] == ns[..2];
    AcceptFull(ns[..2], parts[1..][1..]);
  }

  /** Of several integers, byte arrays or blocks with one number the last one counts. */
  lemma {:induction false} LastCounts(k: Kind, v: Value, parts: seq<seq<Byte>>, part: seq<Byte>)
    requires Fits(k, v) && (k.Int? || k.Array? || k.BlockOption?)
    ensures StoredAll(k, v, parts + [part]) == StoredAll(k, Default(k), [part])
    decreases |parts|
  {
    assert [part][1..] == [];
    if parts == [] {
      assert parts + [part] == [part];
    } else {
      assert (parts + [part])[1..] == parts[1..] + [part];
      LastCounts(k, Stored(k, v, parts[0]), parts[1..], part);
    }
  }

  /** A token, an entity tag or a condition keeps its first eight bytes. */
  lemma ArrayKeepsFirst(bytes: seq<Byte>)
    ensures var r := StoredAll(Array, Default(Array), [bytes]);
            r.Bytes? && r.bytes <= bytes && |r.bytes| == if |bytes| < COAP_ARRAY_LEN then |bytes| else COAP_ARRAY_LEN
  {
    assert [bytes][1..] == [];
  }

  lemma AcceptRead(ns: seq<nat>)
    requires 1 <= |ns| <= COAP_MAX_ACCEPT_NUM && forall i | 0 <= i < |ns| :: ns[i] < 0x1_0000
    ensures StoredAll(Accept, Numbers([]), Parts(Accept, Numbers(ns))) == Numbers(ns)
  {
    hide ParseInt, IntBytes, Stored;
    var parts := Parts(Accept, Numbers(ns));
    AcceptOne([], ns[0]);
    assert [] + [ns[0]] == [ns[0]];
    if |ns| == 1 {
      assert ns == [ns[0]] && parts == [IntBytes(ns[0])];
      OneStored(Accept, Numbers([]), IntBytes(ns[0]));
    } else {
      AcceptOne([ns[0]], ns[1]);
      assert parts[1..] == [IntBytes(ns[1])];
      OneStored(Accept, Numbers([ns[0]]), IntBytes(ns[1]));
      assert ns == [ns[0]] + [ns[1]];
    }
  }

  lemma StringRead(c: Byte, s: seq<Byte>)
    requires c == 0 || Tidy(s, c)
    ensures StoredAll(String(c), Chars([]), Parts(String(c), Chars(s))) == Chars(s)
  {
    hide Split, Merge, Tidy, MergeAll;
    if c == 0 {
      OneStored(String(c), Chars([]), s);
    } else {
      TextStored(c, [], Split(s, c));
      SplitMerge(s, c);
    }
  }

  lemma BlockFieldRead(v: Value)
    requires Sendable(BlockOption, v)
    ensures StoredAll(BlockOption, Default(BlockOption), Parts(BlockOption, v)) == v
  {
    hide Pow2, BlockWord, BlockOf, IntBytes, ParseInt;
    var e: nat :| e <= 7 && v.size == 16 * Pow2(e);
    var word := BlockWord(v.num, v.more, v.size);
    OneStored(BlockOption, Default(BlockOption), IntBytes(word));
    IntRead(word);
    BlockRead(v.num, v.more, e);
  }

  lemma SmallRemainder(n: nat, limit: nat)
    requires n < limit
    ensures n % limit == n
  {
  }

  lemma IntStored(limit: nat, part: seq<Byte>)
    requires limit > 0
    ensures Stored(Int(limit), Number(0), part) == Number(ParseInt(part) % limit)
  {
  }

  lemma IntFieldRead(limit: nat, n: nat)
    requires n < limit <= WORD
    ensures StoredAll(Int(limit), Number(0), [IntBytes(n)]) == Number(n)
  {
    hide IntBytes, ParseInt, Stored;
    OneStored(Int(limit), Number(0), IntBytes(n));
    IntStored(limit, IntBytes(n));
    IntRead(n);
    SmallRemainder(n, limit);
  }

  /** The parser rebuilds every sendable value from the options that the serializer makes of it. */
  lemma FieldRead(k: Kind, v: Value)
    requires Sendable(k, v)
    ensures Fits(k, v) && Parts(k, v) != []
    ensures StoredAll(k, Default(k), Parts(k, v)) == v
  {
    hide IntBytes, ParseInt, BlockWord, BlockOf, Pow2, Tidy;
    match k {
      case Int(limit) => IntFieldRead(limit, v.n);
      case Flag => OneStored(k, Default(k), []);
      case Array => OneStored(k, Default(k), v.bytes);
      case String(c) => StringRead(c, v.text);
      case Accept => AcceptRead(v.ns);
      case BlockOption => BlockFieldRead(v);
      case ProxyUri =>
      case Unknown =>
    }
  }
}
