/** Progress of a Deluge update (apps/deluge/deluge.c). */
module DelugeProgress {
  // What is received is never lost while the update lasts, and one served request completes a page, for exactly
  // the first 128 pages.

  import opened DelugeNode
  import opened DelugeProtocol

  /** Complete pages, then packets of the current page. */
  function Received(s: NodeState): (nat, nat) {
    (Highest(s.pages), if s.rxPage < |s.pages| then |s.pages[s.rxPage].packetSet| else 0)
  }

  predicate AtLeast(a: (nat, nat), b: (nat, nat)) {
    a.0 > b.0 || (a.0 == b.0 && a.1 >= b.1)
  }

  predicate InUpdate(c: Update, s: NodeState)
    requires c.Valid() && s.Valid() && s.NPages() == c.n
  {
    Receiving(c, s) || Done(c, s)
  }

  /** No step of a run takes back what a node has received of the update. */
  lemma NothingIsLost(c: Update, s: System, step: Step, i: nat)
    requires c.Valid() && Inv(c, s) && Enabled(s, step) && i < |s.nodes|
    requires InUpdate(c, s.nodes[i])
    ensures Inv(c, Apply(s, step)) && InUpdate(c, Apply(s, step).nodes[i])
    ensures AtLeast(Received(Apply(s, step).nodes[i]), Received(s.nodes[i]))
  {
    StepKeeps(c, s, step);
    assert NodeOk(c, Apply(s, step).nodes[i]);
    var x := s.nodes[i];
    if i == step.n && step.Deliver? && step.m.Packet? && Wanted(x, step.m) {
      PacketAdds(c, x, step.m);
    }
  }

  lemma PacketAdds(c: Update, x: NodeState, m: Message)
    requires c.Valid() && NodeOk(c, x) && m.Packet? && MessageOk(c, m) && InBounds(x, m) && Wanted(x, m)
    ensures Receiving(c, x)
    ensures NodeOk(c, OnPacket(x, m)) && InUpdate(c, OnPacket(x, m))
    ensures AtLeast(Received(OnPacket(x, m)), Received(x))
    ensures OnPacket(x, m).rxPage == x.rxPage ==>
              OnPacket(x, m).pages[x.rxPage].packetSet == x.pages[x.rxPage].packetSet + {m.slot}
    ensures OnPacket(x, m).rxPage != x.rxPage ==> OnPacket(x, m).rxPage == x.rxPage + 1
  {
    PacketKeeps(c, x, m);
    var r := OnPacket(x, m);
    var have := x.pages[m.page].packetSet;
    assert Highest(x.pages) == x.rxPage;
    if have + {m.slot} == ALL_PACKETS {
      PageCompleted(c, x, m, r);
    } else {
      SetGrows(have, have + {m.slot});
    }
  }

  lemma SetGrows(a: set<nat>, b: set<nat>)
    requires a <= b
    ensures |a| <= |b|
  {
    assert |b - a| == |b| - |a|;
  }

  // ---------------------------------------------------------------- one request

  predicate PacketsFor(ms: seq<Message>, n: nat) {
    forall i | 0 <= i < |ms| :: ms[i].Packet? && ms[i].slot < N_PKT && |ms[i].payload| == S_PKT && ms[i].page < n
  }

  /** A node after a sequence of packets. */
  function Feed(x: NodeState, ms: seq<Message>): NodeState
    requires x.Valid() && PacketsFor(ms, x.NPages())
    decreases |ms|
  {
    if ms == [] then x else Feed(OnPacket(x, ms[0]), ms[1..])
  }

  predicate PagePackets(c: Update, p: nat, ms: seq<Message>)
    requires c.Valid()
  {
    forall i | 0 <= i < |ms| :: ms[i].Packet? && MessageOk(c, ms[i]) && ms[i].page == p
  }

  lemma {:induction false} FeedCollects(c: Update, x: NodeState, p: nat, ms: seq<Message>)
    requires c.Valid() && NodeOk(c, x) && p < c.n && PagePackets(c, p, ms)
    requires (Receiving(c, x) && x.rxPage == p) || (InUpdate(c, x) && Highest(x.pages) == p + 1)
    ensures PacketsFor(ms, c.n) && NodeOk(c, Feed(x, ms))
    ensures var r := Feed(x, ms);
            || (InUpdate(c, r) && Highest(r.pages) == p + 1)
            || (&& Receiving(c, r) && r.rxPage == p && Receiving(c, x) && x.rxPage == p
                && x.pages[p].packetSet <= r.pages[p].packetSet
                && forall i | 0 <= i < |ms| :: ms[i].slot in r.pages[p].packetSet)
    decreases |ms|
  {
    if ms != [] {
      var m := ms[0];
      var y := OnPacket(x, m);
      PacketKeeps(c, x, m);
      if Receiving(c, x) && x.rxPage == p {
        FirstPacket(c, x, m);
      } else {
        assert y == x;
      }
      FeedCollects(c, y, p, ms[1..]);
    }
  }

  lemma FirstPacket(c: Update, x: NodeState, m: Message)
    requires c.Valid() && NodeOk(c, x) && Receiving(c, x) && m.Packet? && MessageOk(c, m) && m.page == x.rxPage
    ensures InBounds(x, m) && Wanted(x, m)
    ensures var y := OnPacket(x, m);
            NodeOk(c, y) && InUpdate(c, y) &&
            (Highest(y.pages) == x.rxPage + 1 ||
             (Receiving(c, y) && y.rxPage == x.rxPage &&
              y.pages[x.rxPage].packetSet == x.pages[x.rxPage].packetSet + {m.slot}))
  {
    PacketStored(c, x, m);
    PacketAdds(c, x, m);
    if x.pages[m.page].packetSet + {m.slot} == ALL_PACKETS {
      PageCompleted(c, x, m, OnPacket(x, m));
    }
  }

  /** An up-to-date node accepts every request of the update. */
  lemma RequestAccepted(c: Update, d: NodeState, m: Message)
    requires c.Valid() && NodeOk(c, d) && Done(c, d) && m.Request? && m.page < c.n && m.version == c.v1
    ensures var r := OnRequest(d, m);
            && NodeOk(c, r) && Done(c, r) && r.ctl.txTimer
            && r.txPage == ToInt8(m.page) && m.wanted <= r.txSet
  {
    RequestKeeps(c, d, m);
    assert Highest(d.pages) == c.n;
    assert Done(c, OnRequest(d, m));
  }

  /** What an up-to-date node broadcasts when its tx timer fires. */
  lemma Broadcast(c: Update, d: NodeState, p: nat)
    requires c.Valid() && NodeOk(c, d) && Done(c, d) && p < c.n && d.txPage == p && d.txSet != {}
    ensures PagePackets(c, p, PacketsSent(d))
    ensures forall k: nat | k < N_PKT && k in d.txSet :: HasSlot(PacketsSent(d), k)
  {
    hide CrcData, PacketOf, MessageOk;
    TxKeeps(c, d);
    SentPackets(d, p, 0);
    forall k: nat | k < N_PKT && k in d.txSet
      ensures HasSlot(PacketsSent(d), k)
    {
      AllWantedSent(d, p, 0, k);
    }
  }

  predicate SameElements(a: seq<Message>, b: seq<Message>) {
    && (forall i | 0 <= i < |a| :: a[i] in b)
    && (forall i | 0 <= i < |b| :: b[i] in a)
  }

  lemma SameSlots(a: seq<Message>, b: seq<Message>, k: nat)
    requires SameElements(a, b) && HasSlot(b, k)
    ensures HasSlot(a, k)
  {
    var i :| 0 <= i < |b| && b[i].Packet? && b[i].slot == k;
    var j :| 0 <= j < |a| && a[j] == b[i];
  }

  lemma NoneFromNone(a: seq<Message>, b: seq<Message>)
    requires SameElements(a, b)
    ensures |a| > 0 ==> |b| > 0
  {
    if |a| > 0 {
      assert a[0] in b;
    }
  }

  /** A request reaches an up-to-date node whose tx timer then fires, and every packet that it
    * broadcasts arrives, in any order and any number of times: the page is complete.  This works exactly
    * for the first 128 pages; for the next one nothing at all is sent. */
  lemma OneRequestCompletesThePage(c: Update, x: NodeState, d: NodeState, beyond: Page, ms: seq<Message>)
    requires c.Valid() && NodeOk(c, x) && Receiving(c, x) && NodeOk(c, d) && Done(c, d)
    requires SameElements(ms, PacketsSent(OnRequest(d, RequestOf(x, beyond))))
    ensures PacketsFor(ms, c.n)
    ensures Highest(Feed(x, ms).pages) == if x.rxPage < 128 then x.rxPage + 1 else x.rxPage
  {
    var r := RequestOf(x, beyond);
    var p := x.rxPage;
    assert Highest(x.pages) == p;
    RequestAccepted(c, d, r);
    var d' := OnRequest(d, r);
    if p < 128 {
      assert 4 in r.wanted;
      Broadcast(c, d', p);
      forall k: nat | k < N_PKT && k !in x.pages[p].packetSet
        ensures HasSlot(ms, k)
      {
        SameSlots(ms, PacketsSent(d'), k);
      }
      AllMissingArrive(c, x, ms);
    } else {
      NoneFromNone(ms, PacketsSent(d'));
    }
  }

  lemma SomeMissing(c: Update, x: NodeState) returns (k: nat)
    requires c.Valid() && NodeOk(c, x) && Receiving(c, x)
    ensures k < N_PKT && k !in x.pages[x.rxPage].packetSet
  {
    var have := x.pages[x.rxPage].packetSet;
    assert forall k | k in have :: k < N_PKT;
    assert have != {0, 1, 2, 3};
    k := if 0 !in have then 0 else if 1 !in have then 1 else if 2 !in have then 2 else 3;
  }

  lemma AllMissingArrive(c: Update, x: NodeState, ms: seq<Message>)
    requires c.Valid() && NodeOk(c, x) && Receiving(c, x)
    requires PagePackets(c, x.rxPage, ms)
    requires forall k: nat | k < N_PKT && k !in x.pages[x.rxPage].packetSet :: HasSlot(ms, k)
    ensures PacketsFor(ms, c.n)
    ensures Highest(Feed(x, ms).pages) == x.rxPage + 1
  {
    FeedCollects(c, x, x.rxPage, ms);
    var y := Feed(x, ms);
    if Highest(y.pages) != x.rxPage + 1 {
      var k := SomeMissing(c, y);
      assert false;
    }
  }
}
