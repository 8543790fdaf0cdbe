/** The Internet checksum of section 1 of RFC 1071 as tools/tunslip.c computes and updates it. */
module Checksum {
  type Byte = x: nat | x < 256

  function Word(a: Byte, b: Byte): (w: nat)
    ensures w < 0x1_0000
  {
    a as int * 256 + b as int
  }

  // ---------------------------------------------------------------- the sum

  /** 16-bit addition with the carry added back, as ip4sum does it. */
  function Add(s: nat, t: nat): (r: nat)
    requires s < 0x1_0000 && t < 0x1_0000
    ensures r < 0x1_0000
  {
    var sum := (s + t) % 0x1_0000;
    if sum < t then sum + 1 else sum
  }

  /** The words of a string of bytes, the last one filled up with zero. */
  function OnesSum(s: nat, p: seq<Byte>): (r: nat)
    requires s < 0x1_0000
    ensures r < 0x1_0000
    decreases |p|
  {
    if p == [] then s
    else if |p| == 1 then Add(s, Word(p[0], 0))
    else OnesSum(Add(s, Word(p[0], p[1])), p[2..])
  }

  /** The same words added up as integers. */
  function WordSum(p: seq<Byte>): nat
    decreases |p|
  {
    if p == [] then 0 else if |p| == 1 then Word(p[0], 0) else Word(p[0], p[1]) + WordSum(p[2..])
  }

  /** The remainder by 65535, taken from 1 to 65535, except that zero stays zero. */
  function Fold(n: nat): (r: nat)
    ensures r < 0x1_0000
  {
    if n == 0 then 0 else (n - 1) % 0xFFFF + 1
  }

  lemma AddFolds(s: nat, t: nat)
    requires s < 0x1_0000 && t < 0x1_0000
    ensures Add(s, t) == Fold(s + t)
  {
  }

  lemma FoldTwice(a: nat, b: nat)
    ensures Fold(Fold(a) + b) == Fold(a + b)
  {
    if a > 0 {
      var k := (a - 1) / 0xFFFF;
      assert a == Fold(a) + k * 0xFFFF;
      assert (Fold(a) + b - 1 + k * 0xFFFF) % 0xFFFF == (Fold(a) + b - 1) % 0xFFFF;
    }
  }

  /** The checksum is the sum of the words modulo 65535. */
  lemma {:induction false} SumIsFold(s: nat, p: seq<Byte>)
    requires s < 0x1_0000
    ensures OnesSum(s, p) == Fold(s + WordSum(p))
    decreases |p|
  {
    if |p| == 1 {
      AddFolds(s, Word(p[0], 0));
    } else if |p| > 1 {
      var w := Word(p[0], p[1]);
      SumIsFold(Add(s, w), p[2..]);
      AddFolds(s, w);
      FoldTwice(s + w, WordSum(p[2..]));
    }
  }

  lemma {:induction false} WordSumConcat(a: seq<Byte>, b: seq<Byte>)
    requires |a| % 2 == 0
    ensures WordSum(a + b) == WordSum(a) + WordSum(b)
    decreases |a|
  {
    if a == [] {
      assert a + b == b;
    } else {
      assert (a + b)[2..] == a[2..] + b;
      WordSumConcat(a[2..], b);
    }
  }

  /** Sums of pieces of even length can be continued. */
  lemma SumComposes(s: nat, a: seq<Byte>, b: seq<Byte>)
    requires s < 0x1_0000 && |a| % 2 == 0
    ensures OnesSum(OnesSum(s, a), b) == OnesSum(s, a + b)
  {
    SumIsFold(s, a);
    SumIsFold(OnesSum(s, a), b);
    SumIsFold(s, a + b);
    WordSumConcat(a, b);
    FoldTwice(s + WordSum(a), WordSum(b));
  }

  predicate Passes(sum: nat) { sum == 0xFFFF || sum == 0 }

  lemma PassesIff(n: nat)
    ensures Passes(Fold(n)) <==> n % 0xFFFF == 0
  {
  }

  /** A sum passes if and only if its words add up to a multiple of 65535. */
  lemma SumPassesIff(s: nat, p: seq<Byte>)
    requires s < 0x1_0000
    ensures Passes(OnesSum(s, p)) <==> (s + WordSum(p)) % 0xFFFF == 0
  {
    SumIsFold(s, p);
    PassesIff(s + WordSum(p));
  }

  lemma SumSteps(s: nat, p: seq<Byte>)
    requires s < 0x1_0000
    ensures p == [] ==> OnesSum(s, p) == s
    ensures |p| == 1 ==> OnesSum(s, p) == Add(s, Word(p[0], 0))
    ensures |p| > 1 ==> OnesSum(s, p) == OnesSum(Add(s, Word(p[0], p[1])), p[2..])
  {
  }

  method AddWord(s: nat, t: nat) returns (r: nat)
    requires s < 0x1_0000 && t < 0x1_0000
    ensures r == Add(s, t)
  {
    r := (s + t) % 0x1_0000;
    if r < t {
      r := r + 1;
    }
  }

  method Ip4Sum(sum: nat, buffer: array<Byte>, from: nat, len: nat) returns (r: nat)
    requires sum < 0x1_0000 && from + len <= buffer.Length
    ensures r == OnesSum(sum, buffer[from..from + len])
  {
    hide OnesSum, Add, Word;
    r := sum;
    var p, end := from, from + len;
    while p + 1 < end
      invariant from <= p <= end && r < 0x1_0000
      invariant OnesSum(r, buffer[p..end]) == OnesSum(sum, buffer[from..end])
      decreases end - p
    {
      SumSteps(r, buffer[p..end]);
      assert buffer[p..end][2..] == buffer[p + 2..end];
      r := AddWord(r, Word(buffer[p], buffer[p + 1]));
      p := p + 2;
    }
    SumSteps(r, buffer[p..end]);
    if p < end {
      r := AddWord(r, Word(buffer[p], 0));
    }
  }

  // ---------------------------------------------------------------- the check of a packet

  datatype Verdict = Ok | Bad(code: int) | Outside

  const TCP := 6
  const UDP := 17
  const ICMP := 1

  /** The sum over the pseudo header and a transport part of n bytes at `from`. */
  function TransportSum(m: seq<Byte>, from: nat, n: nat): (s: nat)
    requires |m| >= 60 && from + n <= |m|
    ensures s < 0x1_0000
  {
    OnesSum(OnesSum((m[9] as int + n) % 0x1_0000, m[12..20]), m[from..from + n])
  }

  /** The part of the check behind the header.  A part that reaches beyond the memory is read outside. */
  function CheckTransport(m: seq<Byte>, hl: nat, t: nat): Verdict
    requires |m| >= 60
  {
    if m[9] != TCP && m[9] != UDP && m[9] != ICMP then Ok
    else if hl + t > |m| then Outside
    else if m[9] == ICMP then if Passes(OnesSum(0, m[hl..hl + t])) then Ok else Bad(-7)
    else if Passes(TransportSum(m, hl, t)) then Ok
    else if m[9] == TCP then Bad(-5)
    else if Word(m[26], m[27]) != 0 then Bad(-6)
    else Ok
  }

  function HeaderLength(first: Byte): (hl: nat)
    ensures hl <= 60
  {
    4 * (first % 16)
  }

  /** A 16-bit variable. */
  function Rest(len: nat, hl: nat): (t: nat) {
    (len - hl) % 0x1_0000
  }

  /** check_ip on `len` bytes at the start of the memory m, whose first 60 bytes can be read. */
  function Check(m: seq<Byte>, len: nat): Verdict
    requires |m| >= 60
  {
    var hl := HeaderLength(m[0]);
    if m[0] / 16 != 4 then Bad(-1)
    else if Word(m[2], m[3]) > len then Bad(-2)
    else if Word(m[2], m[3]) < len then Bad(-3)
    else if !Passes(OnesSum(0, m[..hl])) then Bad(-4)
    else CheckTransport(m, hl, Rest(len, hl))
  }

  method CheckBehind(m: array<Byte>, hl: nat, t: nat) returns (v: Verdict)
    requires m.Length >= 60
    ensures v == CheckTransport(m[..], hl, t)
  {
    hide OnesSum;
    if m[9] == TCP || m[9] == UDP {
      if hl + t > m.Length {
        return Outside;
      }
      var sum := (m[9] as int + t) % 0x1_0000;
      sum := Ip4Sum(sum, m, 12, 8);
      sum := Ip4Sum(sum, m, hl, t);
      assert m[12..20] == m[..][12..20] && m[hl..hl + t] == m[..][hl..hl + t];
      if sum != 0xFFFF && sum != 0 {
        if m[9] == TCP {
          return Bad(-5);
        } else if Word(m[26], m[27]) != 0 {
          return Bad(-6);
        }
      }
    } else if m[9] == ICMP {
      if hl + t > m.Length {
        return Outside;
      }
      var sum := Ip4Sum(0, m, hl, t);
      assert m[hl..hl + t] == m[..][hl..hl + t];
      if sum != 0xFFFF && sum != 0 {
        return Bad(-7);
      }
    }
    return Ok;
  }

  method CheckIp(m: array<Byte>, len: nat) returns (v: Verdict)
    requires m.Length >= 60
    ensures v == Check(m[..], len)
  {
    hide OnesSum, CheckTransport, HeaderLength, Rest, Word;
    var total := Word(m[2], m[3]);
    if m[0] / 16 != 4 {
      return Bad(-1);
    }
    if total > len {
      return Bad(-2);
    }
    if total < len {
      return Bad(-3);
    }
    var hl := HeaderLength(m[0]);
    var sum := Ip4Sum(0, m, 0, hl);
    assert m[0..hl] == m[..][..hl];
    if sum != 0xFFFF && sum != 0 {
      return Bad(-4);
    }
    v := CheckBehind(m, hl, Rest(len, hl));
  }

  // ---------------------------------------------------------------- the rewritten identification

  /** What a 16-bit load makes of two bytes in memory. */
  function Load(bigEndian: bool, a: Byte, b: Byte): (w: nat)
    ensures w < 0x1_0000
  {
    if bigEndian then Word(a, b) else Word(b, a)
  }

  function Store(bigEndian: bool, w: nat): (bytes: (Byte, Byte))
    requires w < 0x1_0000
    ensures Load(bigEndian, bytes.0, bytes.1) == w
  {
    if bigEndian then (w / 256, w % 256) else (w % 256, w / 256)
  }

  /** The checksum field after the identification has changed from zero to the word in the bytes a, b. */
  function Updated(bigEndian: bool, sum: nat, a: Byte, b: Byte): (r: nat)
    requires sum < 0x1_0000
    ensures r < 0x1_0000
  {
    Add(sum, 0xFFFF - Load(bigEndian, a, b))
  }

  lemma UpdateIs(s: nat, n: nat)
    requires s < 0x1_0000 && n < 0x1_0000
    ensures Add(s, 0xFFFF - n) == s - n || Add(s, 0xFFFF - n) == s - n + 0xFFFF
  {
  }

  lemma Multiple(k: int)
    ensures (0xFFFF * k) % 0xFFFF == 0
  {
  }

  /** A balance of words that is a multiple of 65535 is one with all bytes swapped, too. */
  lemma SwappedBalance(r0: Byte, r1: Byte, a: Byte, b: Byte, s0: Byte, s1: Byte, e: int)
    requires Word(r1, r0) + Word(b, a) - Word(s1, s0) == 0xFFFF * e
    ensures Word(r0, r1) + Word(a, b) - Word(s0, s1) == 0xFFFF * (256 * e - r1 as int - b as int + s1 as int)
  {
  }

  /** The new checksum makes up for the new identification, modulo 65535, in either byte order. */
  lemma UpdateBalances(bigEndian: bool, s0: Byte, s1: Byte, a: Byte, b: Byte)
    ensures var r := Store(bigEndian, Updated(bigEndian, Load(bigEndian, s0, s1), a, b));
            (Word(r.0, r.1) + Word(a, b) - Word(s0, s1)) % 0xFFFF == 0
  {
    var s, n := Load(bigEndian, s0, s1), Load(bigEndian, a, b);
    var u := Updated(bigEndian, s, a, b);
    var r := Store(bigEndian, u);
    UpdateIs(s, n);
    var e := if u + n == s then 0 else 1;
    assert Load(bigEndian, r.0, r.1) + n - s == 0xFFFF * e;
    hide Word, Store, Updated;
    if bigEndian {
      Multiple(e);
    } else {
      SwappedBalance(r.0, r.1, a, b, s0, s1, e);
      Multiple(256 * e - r.1 as int - b as int + s1 as int);
    }
  }

  /** The packet with identification v, which was zero, and the updated checksum. */
  function Renumbered(m: seq<Byte>, bigEndian: bool, v: nat): (r: seq<Byte>)
    requires |m| >= 60 && v < 0x1_0000
    ensures |r| == |m|
  {
    var s := Store(bigEndian, Updated(bigEndian, Load(bigEndian, m[10], m[11]), v / 256, v % 256));
    m[4 := v / 256][5 := v % 256][10 := s.0][11 := s.1]
  }

  lemma WordSumWord(a: Byte, b: Byte)
    ensures WordSum([a, b]) == Word(a, b)
  {
    assert [a, b][2..] == [];
  }

  /** The words of a header, with those of the identification and the checksum apart. */
  lemma HeaderWords(m: seq<Byte>, hl: nat)
    requires 20 <= hl <= |m|
    ensures WordSum(m[..hl]) == WordSum(m[..4]) + Word(m[4], m[5]) + WordSum(m[6..10]) + Word(m[10], m[11]) + WordSum(m[12..hl])
  {
    assert m[..hl] == m[..4] + (m[4..6] + (m[6..10] + (m[10..12] + m[12..hl])));
    assert m[4..6] == [m[4], m[5]] && m[10..12] == [m[10], m[11]];
    WordSumWord(m[4], m[5]);
    WordSumWord(m[10], m[11]);
    WordSumConcat(m[10..12], m[12..hl]);
    WordSumConcat(m[6..10], m[10..12] + m[12..hl]);
    WordSumConcat(m[4..6], m[6..10] + (m[10..12] + m[12..hl]));
    WordSumConcat(m[..4], m[4..6] + (m[6..10] + (m[10..12] + m[12..hl])));
  }

  lemma SumOfMultiples(x: int, y: int)
    requires x % 0xFFFF == 0 && y % 0xFFFF == 0
    ensures (x + y) % 0xFFFF == 0
  {
  }

  /** The header sum still passes. */
  lemma RenumberedHeader(m: seq<Byte>, bigEndian: bool, v: nat, hl: nat)
    requires |m| >= 60 && v < 0x1_0000 && 20 <= hl <= 60 && m[4] == m[5] == 0
    requires Passes(OnesSum(0, m[..hl]))
    ensures Passes(OnesSum(0, Renumbered(m, bigEndian, v)[..hl]))
  {
    var r := Renumbered(m, bigEndian, v);
    hide WordSum, OnesSum, Passes, Load, Updated;
    SumPassesIff(0, m[..hl]);
    SumPassesIff(0, r[..hl]);
    HeaderWords(m, hl);
    HeaderWords(r, hl);
    assert r[..4] == m[..4] && r[6..10] == m[6..10] && r[12..hl] == m[12..hl];
    assert Word(r[4], r[5]) == v;
    UpdateBalances(bigEndian, m[10], m[11], v / 256, v % 256);
    SumOfMultiples(WordSum(m[..hl]), Word(r[10], r[11]) + v - Word(m[10], m[11]));
  }

  /** A packet that is accepted and has a header of at least five words is accepted with its new
    * identification, in either byte order of the host. */
  lemma RenumberedAccepted(m: seq<Byte>, len: nat, bigEndian: bool, v: nat)
    requires |m| >= 60 && v < 0x1_0000 && m[4] == m[5] == 0 && HeaderLength(m[0]) >= 20
    requires Check(m, len) == Ok
    ensures Check(Renumbered(m, bigEndian, v), len) == Ok
  {
    var r := Renumbered(m, bigEndian, v);
    var hl := HeaderLength(m[0]);
    RenumberedHeader(m, bigEndian, v, hl);
    hide OnesSum, Passes, HeaderLength, Load, Updated, Store;
    assert r[12..20] == m[12..20];
    var t := Rest(len, hl);
    if hl + t <= |m| {
      assert r[hl..hl + t] == m[hl..hl + t];
    }
  }

  // ---------------------------------------------------------------- checksums of a packet that is built

  /** A word that was zero is filled with the complement of the sum: then the sum passes. */
  lemma Completes(s: nat, before: seq<Byte>, behind: seq<Byte>, a: Byte, b: Byte)
    requires s < 0x1_0000 && |before| % 2 == 0
    requires Word(a, b) == 0xFFFF - OnesSum(s, before + [0, 0] + behind) || (Word(a, b) == OnesSum(s, before + [0, 0] + behind) == 0xFFFF)
    ensures Passes(OnesSum(s, before + [a, b] + behind))
  {
    hide OnesSum, WordSum, Passes, Word;
    SumIsFold(s, before + [0, 0] + behind);
    SumPassesIff(s, before + [a, b] + behind);
    Around(before, behind, 0, 0);
    Around(before, behind, a, b);
    ZeroWord();
    Complement(s + WordSum(before) + WordSum(behind), Word(a, b));
  }

  lemma ZeroWord()
    ensures Word(0, 0) == 0
  {
  }

  lemma Around(before: seq<Byte>, behind: seq<Byte>, a: Byte, b: Byte)
    requires |before| % 2 == 0
    ensures WordSum(before + [a, b] + behind) == WordSum(before) + Word(a, b) + WordSum(behind)
  {
    assert before + [a, b] + behind == before + ([a, b] + behind);
    WordSumConcat(before, [a, b] + behind);
    WordSumConcat([a, b], behind);
    WordSumWord(a, b);
  }

  lemma Complement(n: nat, w: nat)
    requires w == 0xFFFF - Fold(n) || w == Fold(n) == 0xFFFF
    ensures (n + w) % 0xFFFF == 0
  {
    if n > 0 {
      var k := (n - 1) / 0xFFFF;
      assert n == Fold(n) + k * 0xFFFF;
      Multiple(k + 1);
      Multiple(k + 2);
    }
  }

  /** A packet with a header of five words and UDP, ready for its checksums. */
  predicate Unsummed(m: seq<Byte>, len: nat) {
    && 60 <= |m| && 28 <= len <= |m| && len < 0x1_0000
    && m[0] == 0x45 && m[9] == UDP && Word(m[2], m[3]) == len
    && m[10] == m[11] == 0 && m[26] == m[27] == 0
  }

  /** The header sum of a packet, after the checksum has been filled in. */
  lemma HeaderSummed(m: seq<Byte>, r: seq<Byte>)
    requires 20 <= |m| == |r| && m[10] == m[11] == 0 && r == m[10 := r[10]][11 := r[11]]
    requires Word(r[10], r[11]) == 0xFFFF - OnesSum(0, m[..20])
    ensures Passes(OnesSum(0, r[..20]))
  {
    hide OnesSum, Passes, Word;
    assert m[..20] == m[..10] + [0, 0] + m[12..20];
    assert r[..20] == m[..10] + [r[10], r[11]] + m[12..20];
    Completes(0, m[..10], m[12..20], r[10], r[11]);
  }

  lemma TransportSummed(m: seq<Byte>, r: seq<Byte>, len: nat)
    requires |m| == |r| && 60 <= |m| && 28 <= len <= |m| && m[26] == m[27] == 0 && r == m[26 := r[26]][27 := r[27]]
    requires var s := TransportSum(m, 20, len - 20); Word(r[26], r[27]) == if s != 0xFFFF then 0xFFFF - s else 0xFFFF
    ensures Passes(TransportSum(r, 20, len - 20))
  {
    var s := OnesSum((m[9] as int + (len - 20)) % 0x1_0000, m[12..20]);
    assert r[12..20] == m[12..20] && r[9] == m[9];
    assert m[20..20 + (len - 20)] == m[20..26] + [0, 0] + m[28..len];
    assert r[20..20 + (len - 20)] == m[20..26] + [r[26], r[27]] + m[28..len];
    hide OnesSum, Passes, Word;
    Completes(s, m[20..26], m[28..len], r[26], r[27]);
  }

  /** The end of relay_dhcp_to_client: both checksums are filled in, so that the packet is accepted. */
  method FillChecksums(m: array<Byte>, len: nat)
    requires Unsummed(m[..], len)
    modifies m
    ensures Check(m[..], len) == Ok
    ensures forall i | 0 <= i < m.Length && i != 10 && i != 11 && i != 26 && i != 27 :: m[i] == old(m[i])
  {
    hide OnesSum;
    ghost var m0 := m[..];
    var s := Ip4Sum(0, m, 0, 20);
    assert m[0..20] == m0[..20];
    m[10], m[11] := (0xFFFF - s) / 256, (0xFFFF - s) % 256;
    ghost var m1 := m[..];
    HeaderSummed(m0, m1);
    s := (17 + (len - 20)) % 0x1_0000;
    s := Ip4Sum(s, m, 12, 8);
    s := Ip4Sum(s, m, 20, len - 20);
    assert s == TransportSum(m1, 20, len - 20);
    var u := if s != 0xFFFF then 0xFFFF - s else 0xFFFF;
    m[26], m[27] := u / 256, u % 256;
    TransportSummed(m1, m[..], len);
    assert m[..][..20] == m1[..20];
    assert HeaderLength(0x45) == 20 && Rest(len, 20) == len - 20;
  }
}
