/** A message that does not come back: with 15 options, the end mark stays in front of the payload. */
module CoapEndMark {
  import opened CoapText
  import opened CoapOptions
  import opened CoapFields
  import opened CoapReceive
  import opened CoapMessage

  /** The path a/a/.../a with n slashes. */
  function Letters(n: nat): (s: seq<Byte>)
    ensures |s| == 2 * n + 1 && s[0] == 97
  {
    if n == 0 then [97] else [97, SLASH] + Letters(n - 1)
  }

  lemma LettersCut(n: nat, from: nat)
    requires from <= 1
    ensures NextCut(Letters(n), SLASH, from) == 1
    ensures Letters(n)[..1] == [97]
    ensures n > 0 ==> Letters(n)[2..] == Letters(n - 1) && Strip(Letters(n)[2..]) == Letters(n - 1)
  {
    var s := Letters(n);
    if n > 0 {
      assert s[1] == SLASH && s[2..] == Letters(n - 1);
    }
  }

  /** n options of one letter. */
  function Ones(n: nat): (parts: seq<seq<Byte>>)
    ensures |parts| == n
  {
    if n == 0 then [] else [[97]] + Ones(n - 1)
  }

  lemma {:induction false} LettersLater(n: nat)
    ensures Later(Letters(n), SLASH) == Ones(n + 1)
  {
    hide Strip, NextCut, Letters, Later;
    LettersCut(n, 1);
    LaterUnfold(Letters(n), SLASH, 1);
    if n > 0 {
      LettersLater(n - 1);
    }
  }

  lemma {:induction false} LettersTidy(n: nat)
    ensures TidyAfter(Letters(n), SLASH)
  {
    LettersCut(n, 1);
    if n > 0 {
      LettersTidy(n - 1);
    }
  }

  /** The path is sent as n + 1 options. */
  lemma LettersSplit(n: nat)
    ensures Split(Letters(n), SLASH) == Ones(n + 1)
    ensures Tidy(Letters(n), SLASH)
  {
    hide Strip, NextCut, TidyAfter;
    LettersCut(n, 0);
    if n > 0 {
      LettersLater(n - 1);
      LettersTidy(n - 1);
    }
  }

  /** A packet with a path only. */
  function PathPacket(path: seq<Byte>): Packet {
    Packet(0, 1, 0, Options({11}, map[11 := Chars(path)]), [1])
  }

  lemma OrderOfPath(k: nat)
    requires k < |ORDER|
    ensures ORDER[k] == 11 <==> k == 7
  {
  }

  lemma OtherField(path: seq<Byte>, n: nat)
    ensures Sent(PathPacket(path).options, n) == if n == 11 then Numbered(11, Split(path, SLASH)) else []
  {
  }

  lemma SentNext(o: Options, k: nat)
    requires k < |ORDER|
    ensures SentUpTo(o, k + 1) == SentUpTo(o, k) + Sent(o, ORDER[k])
    ensures SentUpTo(o, 0) == []
  {
    hide Sent;
  }

  lemma {:induction false} OnlyPath(path: seq<Byte>, k: nat)
    requires k <= |ORDER|
    ensures SentUpTo(PathPacket(path).options, k) == if k < 8 then [] else Numbered(11, Split(path, SLASH))
  {
    hide Sent, SentUpTo, Split;
    if k > 0 {
      OnlyPath(path, k - 1);
      SentNext(PathPacket(path).options, k - 1);
      OrderOfPath(k - 1);
      OtherField(path, ORDER[k - 1]);
    } else {
      SentNext(PathPacket(path).options, 0);
    }
  }

  lemma {:induction false} ShortOptions(n: nat, current: nat)
    requires current == 0 || current == 11
    ensures |Encode(Numbered(11, Ones(n)), current)| == 2 * n
    decreases n
  {
    var opts := Numbered(11, Ones(n));
    if n > 0 {
      assert opts[1..] == Numbered(11, Ones(n - 1));
      ShortOptions(n - 1, 11);
      OneLetter(current);
      hide EncodeOne, Ones;
    }
  }

  lemma OneLetter(current: nat)
    requires current == 0 || current == 11
    ensures |EncodeOne(Opt(11, [97]), current)| == 2
  {
  }

  lemma PathGood(path: seq<Byte>)
    requires Tidy(path, SLASH)
    ensures PathPacket(path).Valid() && Good(PathPacket(path).options)
  {
    hide Tidy;
    assert 11 == ORDER[7];
  }

  lemma Serialized(p: Packet)
    requires p.Valid() && |Encode(SentUpTo(p.options, |ORDER|), 0)| == 30
    ensures Serialize(p).Some? && |Serialize(p).value| <= COAP_HEADER_LEN + 31 + |p.payload|
  {
    hide Encode, SentUpTo;
  }

  /** A path of 15 segments and a payload of one byte: the message is sent, and is parsed to another
    * packet. */
  lemma FifteenSegments(chunk: nat, tail: seq<Byte>)
    requires chunk >= 2 && tail != []
    ensures var p := PathPacket(Letters(14));
            && p.Valid() && Good(p.options) && Serialize(p).Some?
            && Parse(Serialize(p).value + tail, |Serialize(p).value|, chunk) == Parsed(p.(payload := [0xF0, 1]))
  {
    hide Letters, Split, Good, SentUpTo, Encode, Parse, Ones, Serialize, Tidy;
    var path := Letters(14);
    var p := PathPacket(path);
    LettersSplit(14);
    OnlyPath(path, |ORDER|);
    ShortOptions(15, 0);
    PathGood(path);
    Serialized(p);
    RoundTrip(p, Serialize(p).value, tail, chunk);
    assert Terminator(15) + p.payload == [0xF0, 1];
  }
}
