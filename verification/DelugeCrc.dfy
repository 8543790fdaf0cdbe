/** The checksum of Deluge packets (core/lib/crc16.c). */
module DelugeCrc {
  // The bytewise computation divides bit by bit by the polynomial x^16 + x^12 + x^5 + 1.  A packet with one wrong
  // byte is never taken for a good one.

  import opened DelugeNode

  /** One step of the division, with the lowest bit first. */
  function Divide(acc: bv16): bv16 {
    if acc & 1 == 1 then (acc >> 1) ^ 0x8408 else acc >> 1
  }

  function DivideTimes(acc: bv16, n: nat): bv16
    decreases n
  {
    if n == 0 then acc else DivideTimes(Divide(acc), n - 1)
  }

  function Four(acc: bv16): bv16 { Divide(Divide(Divide(Divide(acc)))) }

  lemma EightTimes(acc: bv16)
    ensures DivideTimes(acc, 8) == Four(Four(acc))
  {
    hide Divide;
    FourTimes(acc, 8);
    FourTimes(Four(acc), 4);
  }

  lemma FourTimes(acc: bv16, n: nat)
    requires n >= 4
    ensures DivideTimes(acc, n) == DivideTimes(Four(acc), n - 4)
  {
    hide Divide;
    var a2 := Divide(Divide(acc));
    assert DivideTimes(acc, n) == DivideTimes(Divide(acc), n - 1) == DivideTimes(a2, n - 2);
    assert DivideTimes(a2, n - 2) == DivideTimes(Divide(a2), n - 3) == DivideTimes(Divide(Divide(a2)), n - 4);
  }

  /** Four steps at once: the four bits that leave come back at the places of the polynomial. */
  function Nibble(a: bv16): bv16 {
    var t := a & 0xf;
    (a >> 4) ^ t ^ (t << 7) ^ (t << 12)
  }

  lemma FourIs(a: bv16)
    ensures Four(a) == Nibble(a)
  {
  }

  lemma MixIs(a: bv16)
    ensures CrcMix(a) == Nibble(Nibble(a))
  {
  }

  lemma MixIsEight(a: bv16)
    ensures CrcMix(a) == Four(Four(a))
  {
    hide CrcMix, Nibble, Four;
    MixIs(a);
    FourIs(a);
    FourIs(Nibble(a));
  }

  /** crc16_add does eight steps of the division at once. */
  lemma AddDivides(b: Byte, acc: bv16)
    ensures CrcAdd(b, acc) == DivideTimes(acc ^ (b as bv16), 8)
  {
    hide CrcMix, Four;
    MixIsEight(acc ^ (b as bv16));
    EightTimes(acc ^ (b as bv16));
  }

  // ---------------------------------------------------------------- errors that are detected

  function Undo(r: bv16): bv16 {
    if r & 0x8000 == 0x8000 then ((r ^ 0x8408) << 1) | 1 else r << 1
  }

  lemma Undone(a: bv16)
    ensures Undo(Divide(a)) == a
  {
  }

  lemma {:induction false} DivisionInjective(a: bv16, b: bv16, n: nat)
    ensures DivideTimes(a, n) == DivideTimes(b, n) ==> a == b
    decreases n
  {
    if n > 0 {
      hide Divide, Undo;
      DivisionInjective(Divide(a), Divide(b), n - 1);
      Undone(a);
      Undone(b);
    }
  }

  lemma XorInjective(a: bv16, b: bv16, c: bv16)
    ensures a ^ c == b ^ c ==> a == b
  {
  }

  lemma ByteInjective(a: bv16, b: Byte, c: Byte)
    ensures a ^ (b as bv16) == a ^ (c as bv16) ==> b == c
  {
  }

  /** Neither a wrong byte nor a wrong remainder before a byte is made up for by the byte. */
  lemma AddInjective(b: Byte, c: Byte, acc: bv16, other: bv16)
    ensures CrcAdd(b, acc) == CrcAdd(c, acc) ==> b == c
    ensures CrcAdd(b, acc) == CrcAdd(b, other) ==> acc == other
  {
    hide CrcAdd, DivideTimes;
    AddDivides(b, acc);
    AddDivides(c, acc);
    AddDivides(b, other);
    DivisionInjective(acc ^ (b as bv16), acc ^ (c as bv16), 8);
    DivisionInjective(acc ^ (b as bv16), other ^ (b as bv16), 8);
    ByteInjective(acc, b, c);
    XorInjective(acc, other, b as bv16);
  }

  lemma {:induction false} DataInjective(data: seq<Byte>, acc: bv16, other: bv16)
    ensures CrcData(data, acc) == CrcData(data, other) ==> acc == other
    decreases |data|
  {
    hide CrcAdd;
    if data != [] {
      DataInjective(data[1..], CrcAdd(data[0], acc), CrcAdd(data[0], other));
      AddInjective(data[0], data[0], acc, other);
    }
  }

  /** Data with one wrong byte have a different checksum. */
  lemma {:induction false} OneByteDetected(data: seq<Byte>, i: nat, wrong: Byte, acc: bv16)
    requires i < |data| && wrong != data[i]
    ensures CrcData(data[i := wrong], acc) != CrcData(data, acc)
    decreases |data|
  {
    hide CrcAdd;
    var bad := data[i := wrong];
    if i == 0 {
      assert bad[1..] == data[1..];
      AddInjective(wrong, data[0], acc, acc);
      DataInjective(data[1..], CrcAdd(wrong, acc), CrcAdd(data[0], acc));
    } else {
      assert bad[1..] == data[1..][i - 1 := wrong];
      OneByteDetected(data[1..], i - 1, wrong, CrcAdd(data[0], acc));
    }
  }

  /** A packet that was sent with its checksum and arrives with one wrong byte is not counted as received, and
    * completes no page. */
  lemma WrongByteRefused(s: NodeState, m: Message, i: nat, wrong: Byte)
    requires s.Valid() && m.Packet? && InBounds(s, m) && m.crc == CrcData(m.payload, 0)
    requires i < |m.payload| && wrong != m.payload[i]
    ensures InBounds(s, m.(payload := m.payload[i := wrong]))
    ensures var r := OnPacket(s, m.(payload := m.payload[i := wrong]));
            r.pages == s.pages && r.file == s.file && r.version == s.version && r.rxPage == s.rxPage
  {
    OneByteDetected(m.payload, i, wrong, 0);
  }
}
