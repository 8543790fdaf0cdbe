/** What the Internet checksum of tools/tunslip.c refuses. */
module ChecksumDetects {
  // A packet is accepted exactly if its sums are multiples of 65535; one changed byte is refused wherever a sum covers it.

  import opened Checksum

  /** What one byte counts in the sum: the first of a word 256 times, the second once. */
  function Weight(i: nat): nat { if i % 2 == 0 then 256 else 1 }

  lemma {:induction false} ByteCounts(p: seq<Byte>, i: nat, x: Byte)
    requires i < |p|
    ensures WordSum(p[i := x]) - WordSum(p) == (x - p[i]) * Weight(i)
    decreases |p|
  {
    if i >= 2 {
      ByteCounts(p[2..], i - 2, x);
      assert p[i := x][2..] == p[2..][i - 2 := x];
      assert Weight(i - 2) == Weight(i);
    } else if |p| > 1 {
      assert p[i := x][2..] == p[2..];
    }
  }

  lemma NotAMultiple(n: int, d: int, w: nat)
    requires n % 0xFFFF == 0 && 0 < d < 256 && (w == 1 || w == 256)
    ensures (n + d * w) % 0xFFFF != 0 && (n - d * w) % 0xFFFF != 0
  {
    if w == 1 {
      assert (n + d) % 0xFFFF == d;
    } else {
      assert (n + d * 256) % 0xFFFF == d * 256;
    }
  }

  /** A sum that passes fails after any change of one byte. */
  lemma OneByteFails(s: nat, p: seq<Byte>, i: nat, x: Byte)
    requires s < 0x1_0000 && i < |p| && x != p[i] && Passes(OnesSum(s, p))
    ensures !Passes(OnesSum(s, p[i := x]))
  {
    hide OnesSum, Passes, WordSum;
    SumPassesIff(s, p);
    SumPassesIff(s, p[i := x]);
    ByteCounts(p, i, x);
    var d := if x > p[i] then x - p[i] else p[i] - x;
    NotAMultiple(s + WordSum(p), d, Weight(i));
  }

  // ---------------------------------------------------------------- what is accepted

  /** The transport part is covered by a sum that is a multiple of 65535, where one is checked. */
  predicate TransportBalanced(m: seq<Byte>, hl: nat, t: nat)
    requires |m| >= 60
  {
    match m[9]
    case 1 => hl + t <= |m| && WordSum(m[hl..hl + t]) % 0xFFFF == 0
    case 6 => hl + t <= |m| && ((6 + t) % 0x1_0000 + WordSum(m[12..20]) + WordSum(m[hl..hl + t])) % 0xFFFF == 0
    case 17 =>
      && hl + t <= |m|
      && (m[26] == m[27] == 0 || ((17 + t) % 0x1_0000 + WordSum(m[12..20]) + WordSum(m[hl..hl + t])) % 0xFFFF == 0)
    case _ => true
  }

  /** A packet is accepted if and only if its version is 4, its length is that of the packet, and its header and its
    * transport part add up to multiples of 65535; UDP may do without, with zero in its checksum. */
  lemma AcceptedIff(m: seq<Byte>, len: nat)
    requires |m| >= 60
    ensures Check(m, len) == Ok <==>
            && m[0] / 16 == 4 && m[2] as int * 256 + m[3] as int == len
            && WordSum(m[..4 * (m[0] % 16)]) % 0xFFFF == 0
            && TransportBalanced(m, 4 * (m[0] % 16), (len - 4 * (m[0] % 16)) % 0x1_0000)
  {
    hide OnesSum, WordSum, Passes, CheckTransport, TransportBalanced;
    var hl := HeaderLength(m[0]);
    SumPassesIff(0, m[..hl]);
    TransportIff(m, hl, Rest(len, hl));
  }

  lemma TransportIff(m: seq<Byte>, hl: nat, t: nat)
    requires |m| >= 60
    ensures CheckTransport(m, hl, t) == Ok <==> TransportBalanced(m, hl, t)
  {
    hide OnesSum, WordSum, Passes, Word;
    if hl + t <= |m| {
      SumPassesIff(0, m[hl..hl + t]);
      PseudoIff(m, hl, t);
      ZeroIff(m[26], m[27]);
    }
  }

  lemma ZeroIff(a: Byte, b: Byte)
    ensures Word(a, b) == 0 <==> a == b == 0
  {
  }

  lemma PseudoIff(m: seq<Byte>, hl: nat, t: nat)
    requires |m| >= 60 && hl + t <= |m|
    ensures Passes(TransportSum(m, hl, t)) <==>
            ((m[9] as int + t) % 0x1_0000 + WordSum(m[12..20]) + WordSum(m[hl..hl + t])) % 0xFFFF == 0
  {
    hide OnesSum, WordSum, Passes;
    var s := (m[9] as int + t) % 0x1_0000;
    SumComposes(s, m[12..20], m[hl..hl + t]);
    SumPassesIff(s, m[12..20] + m[hl..hl + t]);
    WordSumConcat(m[12..20], m[hl..hl + t]);
  }

  // ---------------------------------------------------------------- one changed byte

  /** One changed byte in the header, behind the first byte, is noticed. */
  lemma HeaderByteRefused(m: seq<Byte>, len: nat, i: nat, x: Byte)
    requires |m| >= 60 && Check(m, len) == Ok && 1 <= i < HeaderLength(m[0]) && x != m[i]
    ensures Check(m[i := x], len) == if i == 2 then (if x > m[2] then Bad(-2) else Bad(-3))
                                     else if i == 3 then (if x > m[3] then Bad(-2) else Bad(-3))
                                     else Bad(-4)
  {
    hide OnesSum, Passes, CheckTransport;
    var r, hl := m[i := x], HeaderLength(m[0]);
    assert r[..hl] == m[..hl][i := x];
    OneByteFails(0, m[..hl], i, x);
  }

  /** One changed byte behind the header is noticed for ICMP and TCP, and for UDP if and only if the packet then has a
    * checksum that is not zero. */
  lemma TransportByteRefused(m: seq<Byte>, len: nat, i: nat, x: Byte)
    requires |m| >= 60 && Check(m, len) == Ok && 20 <= HeaderLength(m[0]) <= i < len <= |m| && x != m[i]
    requires m[9] == ICMP || m[9] == TCP || (m[9] == UDP && Passes(TransportSum(m, HeaderLength(m[0]), len - HeaderLength(m[0]))))
    ensures var r := m[i := x];
            Check(r, len) == if m[9] == ICMP then Bad(-7) else if m[9] == TCP then Bad(-5)
                             else if r[26] == r[27] == 0 then Ok else Bad(-6)
  {
    hide OnesSum, Passes, Word;
    var r, hl := m[i := x], HeaderLength(m[0]);
    var t := len - hl;
    LengthIs(m, len);
    assert Rest(len, hl) == t;
    assert r[..hl] == m[..hl] && r[12..20] == m[12..20];
    assert r[hl..hl + t] == m[hl..hl + t][i - hl := x];
    ZeroIff(r[26], r[27]);
    if m[9] == ICMP {
      OneByteFails(0, m[hl..hl + t], i - hl, x);
    } else {
      OneByteFails(OnesSum((m[9] as int + t) % 0x1_0000, m[12..20]), m[hl..hl + t], i - hl, x);
    }
  }

  lemma LengthIs(m: seq<Byte>, len: nat)
    requires |m| >= 60 && Check(m, len) == Ok
    ensures len < 0x1_0000
  {
  }
}
