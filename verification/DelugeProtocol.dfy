/** One update of a Deluge network (apps/deluge/deluge.c). */
module DelugeProtocol {
  // The nodes, the messages ever sent, and what every run keeps.
  //
  // A message stays in `net` for ever and may be delivered to any node at any time, any number of times or never:
  // the network loses, duplicates and reorders, but does not corrupt.

  import opened DelugeNode

  /** `room` is the size of the largest message that fits the packet buffer together with the header of the
    * radio stack.  A larger one is not sent (core/net/rime/chameleon-bitopt.c finds no room for its header). */
  datatype System = System(nodes: seq<NodeState>, net: set<Message>, room: nat)

  datatype Step =
    | Deliver(n: nat, m: Message, rested: bool)
    | RequestTimer(n: nat, beyond: Page)
    | TransmitTimer(n: nat)
    | SummaryTimer(n: nat)
    | ProfileTimer(n: nat)
    | NewRound(n: nat)

  predicate Enabled(s: System, step: Step) {
    && step.n < |s.nodes|
    && s.nodes[step.n].Valid()
    && match step
       case Deliver(n, m, _) => m in s.net && Fits(s.nodes[n], m)
       case RequestTimer(n, _) => s.nodes[n].ctl.rxTimer
       case TransmitTimer(n) => s.nodes[n].ctl.txTimer
       case SummaryTimer(n) => s.nodes[n].ctl.summaryTimer
       case ProfileTimer(n) => s.nodes[n].ctl.profileTimer
       case NewRound(_) => true
  }

  /** The acting node after a step, and what it sends. */
  function Act(s: System, step: Step): (NodeState, seq<Message>)
    requires Enabled(s, step)
  {
    var x := s.nodes[step.n];
    match step
    case Deliver(_, m, rested) => (Dispatched(x, m, Size(m), rested), [])
    case RequestTimer(_, beyond) => (AfterRequest(x), [RequestOf(x, beyond)])
    case TransmitTimer(_) => (AfterTx(x), PacketsSent(x))
    case SummaryTimer(_) =>
      (AfterSummary(x), if x.recvAdv < CONST_K then [Summary(x.updateVersion, Highest(x.pages))] else [])
    case ProfileTimer(_) =>
      (AfterProfile(x), if SendsProfile(x) then [Profile(x.version, VersionVector(x.pages))] else [])
    case NewRound(_) => (AfterRound(x), [])
  }

  function Apply(s: System, step: Step): System
    requires Enabled(s, step)
  {
    var (x, out) := Act(s, step);
    System(s.nodes[step.n := x], s.net + (set m | m in out && Size(m) <= s.room), s.room)
  }

  predicate Runs(s: System, steps: seq<Step>)
    decreases |steps|
  {
    steps == [] || (Enabled(s, steps[0]) && Runs(Apply(s, steps[0]), steps[1..]))
  }

  function Run(s: System, steps: seq<Step>): System
    requires Runs(s, steps)
    decreases |steps|
  {
    if steps == [] then s else Run(Apply(s, steps[0]), steps[1..])
  }

  // ---------------------------------------------------------------- the update

  datatype Update = Update(n: nat, v0: nat, v1: nat, image: seq<Byte>) {
    predicate Valid() { 1 <= n <= 255 && v0 < v1 && |image| == n * S_PAGE }
  }

  /** Every node has loaded an object of n pages: the new image, or something under the old version. */
  predicate Initial(c: Update, s: System)
    requires c.Valid()
  {
    && s.net == {}
    && forall i | 0 <= i < |s.nodes| ::
         var x := s.nodes[i];
         && |x.file| == c.n * S_PAGE
         && x == Fresh(x.file, c.n, x.version)
         && (x.version == c.v0 || (x.version == c.v1 && x.file == c.image))
  }

  // ---------------------------------------------------------------- the invariant

  /** All pages present under version v. */
  predicate AllComplete(pages: seq<Page>, v: nat) {
    forall i | 0 <= i < |pages| :: pages[i].complete && pages[i].version == v
  }

  predicate Idle(c: Update, s: NodeState)
    requires c.Valid()
  {
    && s.version == s.updateVersion == c.v0
    && AllComplete(s.pages, c.v0)
    && !s.ctl.rxTimer
    && s.txSet == {}
  }

  predicate Done(c: Update, s: NodeState)
    requires c.Valid()
  {
    && s.version == s.updateVersion == c.v1
    && AllComplete(s.pages, c.v1)
    && s.file == c.image
  }

  /** The buffer agrees with the image on the packets received for the current page. */
  predicate BufferOk(c: Update, s: NodeState)
    requires c.Valid() && s.Valid() && s.NPages() == c.n && s.rxPage < c.n
  {
    forall k | k in s.pages[s.rxPage].packetSet ::
      k < N_PKT && SlotOf(s.buffer, k) == SlotOf(PageOf(c.image, s.rxPage), k)
  }

  predicate Receiving(c: Update, s: NodeState)
    requires c.Valid() && s.Valid() && s.NPages() == c.n
  {
    && s.version == c.v0 && s.updateVersion == c.v1
    && s.rxPage < c.n
    && s.rxPage <= 128
    && s.txSet == {}
    && (forall i | 0 <= i < c.n :: s.pages[i].version == c.v1)
    && (forall i: nat | i < c.n :: s.pages[i].complete <==> i < s.rxPage)
    && (forall i: nat | i < s.rxPage :: PageOf(s.file, i) == PageOf(c.image, i))
    && (forall i | s.rxPage < i < c.n :: s.pages[i].packetSet == {})
    && s.pages[s.rxPage].packetSet != ALL_PACKETS
    && BufferOk(c, s)
  }

  predicate NodeOk(c: Update, s: NodeState)
    requires c.Valid()
  {
    s.Valid() && s.NPages() == c.n && (Idle(c, s) || Receiving(c, s) || Done(c, s))
  }

  predicate MessageOk(c: Update, m: Message)
    requires c.Valid()
  {
    match m
    case Summary(_, _) => true
    case Request(v, p, _) => p < c.n ==> v == c.v1
    case Packet(v, p, k, crc, payload) =>
      && v == c.v1 && p < c.n && p < 128 && k < N_PKT
      && payload == SlotOf(PageOf(c.image, p), k) && crc == CrcData(payload, 0)
    case Profile(v, versions) =>
      && |versions| == c.n
      && (v == c.v0 || (v == c.v1 && forall i | 0 <= i < c.n :: versions[i] == c.v1))
  }

  predicate Inv(c: Update, s: System)
    requires c.Valid()
  {
    && (forall i | 0 <= i < |s.nodes| :: NodeOk(c, s.nodes[i]))
    && (forall m | m in s.net :: MessageOk(c, m))
  }

  // ---------------------------------------------------------------- each handler keeps the invariant

  lemma SummaryKeeps(c: Update, s: NodeState, m: Message, rested: bool)
    requires c.Valid() && NodeOk(c, s) && m.Summary?
    ensures NodeOk(c, OnSummary(s, m, rested))
  {
    var r := OnSummary(s, m, rested);
    assert r.pages == s.pages && r.file == s.file && r.buffer == s.buffer;
    if Idle(c, s) {
      assert Highest(s.pages) == c.n;
      assert Idle(c, r);
    } else if Receiving(c, s) {
      assert BufferOk(c, r);
      assert Receiving(c, r);
    } else {
      assert Done(c, r);
    }
  }

  lemma RequestKeeps(c: Update, s: NodeState, m: Message)
    requires c.Valid() && NodeOk(c, s) && m.Request? && MessageOk(c, m)
    ensures NodeOk(c, OnRequest(s, m))
  {
    if OnRequest(s, m) != s {
      assert Done(c, s);
      assert Done(c, OnRequest(s, m));
    }
  }

  /** A packet for a page still being received: it is stored, and nothing else of the page changes. */
  lemma PacketStored(c: Update, s: NodeState, m: Message)
    requires c.Valid() && s.Valid() && s.NPages() == c.n && Receiving(c, s)
    requires m.Packet? && MessageOk(c, m) && m.page == s.rxPage
    ensures Wanted(s, m) && InBounds(s, m)
    ensures var r := s.(buffer := WithSlot(s.buffer, m.slot, m.payload));
            forall k | k in s.pages[s.rxPage].packetSet + {m.slot} ::
              k < N_PKT && SlotOf(r.buffer, k) == SlotOf(PageOf(c.image, s.rxPage), k)
  {
    forall k | k in s.pages[s.rxPage].packetSet + {m.slot}
      ensures k < N_PKT && SlotOf(WithSlot(s.buffer, m.slot, m.payload), k) == SlotOf(PageOf(c.image, s.rxPage), k)
    {
      SlotAfterWrite(s.buffer, m.slot, m.payload, k);
    }
  }

  lemma PacketKeeps(c: Update, s: NodeState, m: Message)
    requires c.Valid() && NodeOk(c, s) && m.Packet? && MessageOk(c, m) && InBounds(s, m)
    ensures NodeOk(c, OnPacket(s, m))
  {
    if !Wanted(s, m) {
      return;
    }
    assert Receiving(c, s);
    PacketStored(c, s, m);
    var r := OnPacket(s, m);
    var have := s.pages[m.page].packetSet + {m.slot};
    if have != ALL_PACKETS {
      assert r.pages == s.pages[m.page := s.pages[m.page].(packetSet := have)];
      assert BufferOk(c, r);
      assert Receiving(c, r);
    } else {
      PageCompleted(c, s, m, r);
    }
  }

  lemma PageCompleted(c: Update, s: NodeState, m: Message, r: NodeState)
    requires c.Valid() && NodeOk(c, s) && Receiving(c, s) && m.Packet? && MessageOk(c, m) && InBounds(s, m)
    requires Wanted(s, m) && s.pages[m.page].packetSet + {m.slot} == ALL_PACKETS
    requires r == OnPacket(s, m)
    ensures NodeOk(c, r)
    ensures r.rxPage == s.rxPage + 1
    ensures if s.rxPage + 1 == c.n then Done(c, r) else Receiving(c, r)
  {
    var p := s.rxPage;
    var page := WithSlot(s.buffer, m.slot, m.payload);
    PacketStored(c, s, m);
    PageIsItsSlots(page, PageOf(c.image, p));
    assert r.file == WithPage(s.file, p, PageOf(c.image, p));
    forall i: nat | i <= p
      ensures PageOf(r.file, i) == PageOf(c.image, i)
    {
      PageAfterWrite(s.file, p, PageOf(c.image, p), i);
    }
    assert r.pages == s.pages[p := Page(ALL_PACKETS, true, c.v1)];
    if p + 1 == c.n {
      FileIsItsPages(r.file, c.image, c.n);
      assert Done(c, r);
    } else {
      assert BufferOk(c, r);
      assert Receiving(c, r);
    }
  }

  lemma ProfileKeeps(c: Update, s: NodeState, m: Message)
    requires c.Valid() && NodeOk(c, s) && m.Profile? && MessageOk(c, m)
    ensures NodeOk(c, OnProfile(s, m))
  {
    var r := OnProfile(s, m);
    if m.version > s.updateVersion {
      assert Idle(c, s);
      assert forall i | 0 <= i < c.n :: r.pages[i] == Page({}, false, c.v1);
      assert r.rxPage == 0;
      assert Receiving(c, r);
    }
  }

  lemma TxKeeps(c: Update, s: NodeState)
    requires c.Valid() && NodeOk(c, s)
    ensures NodeOk(c, AfterTx(s))
    ensures forall m | m in PacketsSent(s) :: MessageOk(c, m)
  {
    hide CrcData;
    var r := AfterTx(s);
    assert r.pages == s.pages && r.file == s.file && r.buffer == s.buffer;
    if Sending(s) {
      assert Done(c, s) && Done(c, r);
      SentPackets(s, s.txPage, 0);
      forall m | m in PacketsSent(s)
        ensures MessageOk(c, m)
      {
        SentOk(c, s, s.txPage, m);
      }
    } else if Receiving(c, s) {
      assert BufferOk(c, r);
      assert Receiving(c, r);
    } else {
      assert Idle(c, s) ==> Idle(c, r);
      assert Done(c, s) ==> Done(c, r);
    }
  }

  lemma SentOk(c: Update, s: NodeState, p: nat, m: Message)
    requires c.Valid() && NodeOk(c, s) && Done(c, s) && p < c.n && p < 128 && SentOn(s, p, m)
    ensures MessageOk(c, m)
  {
  }

  predicate HasSlot(ms: seq<Message>, k: nat) {
    exists i :: 0 <= i < |ms| && ms[i].Packet? && ms[i].slot == k
  }

  /** A packet as send_page makes it for page p. */
  predicate SentOn(s: NodeState, p: nat, m: Message)
    requires s.Valid() && p < s.NPages()
  {
    m.Packet? && m.page == p && m.slot < N_PKT && m.slot in s.txSet && m == PacketOf(s, p, m.slot)
  }

  lemma Unfold(s: NodeState, p: nat, k: nat)
    requires s.Valid() && p < s.NPages() && k < N_PKT
    ensures PacketsFrom(s, p, k) ==
            if k in s.txSet then [PacketOf(s, p, k)] + PacketsFrom(s, p, k + 1) else PacketsFrom(s, p, k + 1)
    ensures k in s.txSet ==> SentOn(s, p, PacketOf(s, p, k))
  {
    hide CrcData;
    assert [] + PacketsFrom(s, p, k + 1) == PacketsFrom(s, p, k + 1);
  }

  /** send_page broadcasts only packets of the page that were wanted. */
  lemma {:induction false} SentPackets(s: NodeState, p: nat, k: nat)
    requires s.Valid() && p < s.NPages() && k <= N_PKT
    ensures forall i | 0 <= i < |PacketsFrom(s, p, k)| :: SentOn(s, p, PacketsFrom(s, p, k)[i])
    decreases N_PKT - k
  {
    hide CrcData, PacketOf, SentOn;
    if k < N_PKT {
      SentPackets(s, p, k + 1);
      Unfold(s, p, k);
    }
  }

  /** It broadcasts all of them. */
  lemma {:induction false} AllWantedSent(s: NodeState, p: nat, k: nat, j: nat)
    requires s.Valid() && p < s.NPages() && k <= j < N_PKT && j in s.txSet
    ensures HasSlot(PacketsFrom(s, p, k), j)
    decreases N_PKT - k
  {
    hide CrcData;
    Unfold(s, p, k);
    Prepended(PacketOf(s, p, k), PacketsFrom(s, p, k + 1));
    if k < j {
      AllWantedSent(s, p, k + 1, j);
    }
  }

  lemma Prepended(m: Message, rest: seq<Message>)
    ensures m.Packet? ==> HasSlot([m] + rest, m.slot)
    ensures forall j | HasSlot(rest, j) :: HasSlot([m] + rest, j)
  {
    var all := [m] + rest;
    assert all[0] == m;
    forall j | HasSlot(rest, j)
      ensures HasSlot(all, j)
    {
      var i :| 0 <= i < |rest| && rest[i].Packet? && rest[i].slot == j;
      assert all[i + 1] == rest[i];
    }
  }

  lemma TimersKeep(c: Update, s: NodeState)
    requires c.Valid() && NodeOk(c, s)
    ensures s.ctl.rxTimer ==> NodeOk(c, AfterRequest(s))
    ensures NodeOk(c, AfterSummary(s)) && NodeOk(c, AfterProfile(s)) && NodeOk(c, AfterRound(s))
  {
    if Receiving(c, s) {
      assert BufferOk(c, AfterRequest(s)) && BufferOk(c, AfterSummary(s)) && BufferOk(c, AfterProfile(s)) && BufferOk(c, AfterRound(s));
      assert Receiving(c, AfterRequest(s)) && Receiving(c, AfterSummary(s)) && Receiving(c, AfterProfile(s)) && Receiving(c, AfterRound(s));
    } else if Done(c, s) {
      assert Done(c, AfterRequest(s)) && Done(c, AfterSummary(s)) && Done(c, AfterProfile(s)) && Done(c, AfterRound(s));
    } else {
      assert Idle(c, AfterSummary(s)) && Idle(c, AfterProfile(s)) && Idle(c, AfterRound(s));
    }
  }

  lemma ProfileSentOk(c: Update, s: NodeState)
    requires c.Valid() && NodeOk(c, s)
    ensures MessageOk(c, Profile(s.version, VersionVector(s.pages)))
  {
  }

  lemma ActKeeps(c: Update, s: System, step: Step)
    requires c.Valid() && Inv(c, s) && Enabled(s, step)
    ensures NodeOk(c, Act(s, step).0)
    ensures forall m | m in Act(s, step).1 :: MessageOk(c, m)
  {
    var x := s.nodes[step.n];
    match step
    case Deliver(_, m, rested) =>
      match m {
        case Summary(_, _) => SummaryKeeps(c, x, m, rested);
        case Request(_, _, _) => RequestKeeps(c, x, m);
        case Packet(_, _, _, _, _) => PacketKeeps(c, x, m);
        case Profile(_, _) => ProfileKeeps(c, x, m);
      }
    case RequestTimer(_, _) => TimersKeep(c, x);
    case TransmitTimer(_) => TxKeeps(c, x);
    case SummaryTimer(_) => TimersKeep(c, x);
    case ProfileTimer(_) => TimersKeep(c, x); ProfileSentOk(c, x);
    case NewRound(_) => TimersKeep(c, x);
  }

  lemma StepKeeps(c: Update, s: System, step: Step)
    requires c.Valid() && Inv(c, s) && Enabled(s, step)
    ensures Inv(c, Apply(s, step))
  {
    ActKeeps(c, s, step);
  }

  lemma InitialInv(c: Update, s: System)
    requires c.Valid() && Initial(c, s)
    ensures Inv(c, s)
  {
    forall i | 0 <= i < |s.nodes|
      ensures NodeOk(c, s.nodes[i])
    {
      var x := s.nodes[i];
      assert AllComplete(x.pages, x.version);
      assert if x.version == c.v0 then Idle(c, x) else Done(c, x);
    }
  }

  lemma {:induction false} RunKeeps(c: Update, s: System, steps: seq<Step>)
    requires c.Valid() && Inv(c, s) && Runs(s, steps)
    ensures Inv(c, Run(s, steps))
    ensures |Run(s, steps).nodes| == |s.nodes|
    decreases |steps|
  {
    if steps != [] {
      StepKeeps(c, s, steps[0]);
      RunKeeps(c, Apply(s, steps[0]), steps[1..]);
    }
  }

  // ---------------------------------------------------------------- the main safety results

  /** In every reachable state: a page marked complete under the new version holds the image's bytes;
    * every packet of the new version ever sent carries the image's bytes for its slot; and a node
    * that reports the new version has every page complete, so its file is the image. */
  lemma Safety(c: Update, s0: System, steps: seq<Step>)
    requires c.Valid() && Initial(c, s0) && Runs(s0, steps)
    ensures var s := Run(s0, steps);
            && (forall i, p: nat | 0 <= i < |s.nodes| && p < c.n ::
                  && |s.nodes[i].pages| == c.n && |s.nodes[i].file| == c.n * S_PAGE
                  && (s.nodes[i].pages[p].complete && s.nodes[i].pages[p].version == c.v1 ==>
                        PageOf(s.nodes[i].file, p) == PageOf(c.image, p)))
            && (forall m | m in s.net && m.Packet? && m.version == c.v1 ::
                  m.page < c.n && m.slot < N_PKT && m.payload == SlotOf(PageOf(c.image, m.page), m.slot))
            && (forall i | 0 <= i < |s.nodes| && s.nodes[i].version == c.v1 ::
                  (forall p | 0 <= p < |s.nodes[i].pages| :: s.nodes[i].pages[p].complete) && s.nodes[i].file == c.image)
  {
    InitialInv(c, s0);
    RunKeeps(c, s0, steps);
    var s := Run(s0, steps);
    forall i, p: nat | 0 <= i < |s.nodes| && p < c.n && s.nodes[i].pages[p].complete && s.nodes[i].pages[p].version == c.v1
      ensures PageOf(s.nodes[i].file, p) == PageOf(c.image, p)
    {
      assert NodeOk(c, s.nodes[i]);
    }
  }

  /** Every message in flight stays within the tables of every node, so the condition Fits on a
    * delivery excludes nothing. */
  lemma NothingOutOfBounds(c: Update, s0: System, steps: seq<Step>, i: nat, m: Message)
    requires c.Valid() && Initial(c, s0) && Runs(s0, steps)
    requires i < |s0.nodes| && m in Run(s0, steps).net
    ensures i < |Run(s0, steps).nodes| && Fits(Run(s0, steps).nodes[i], m)
  {
    InitialInv(c, s0);
    RunKeeps(c, s0, steps);
    assert NodeOk(c, Run(s0, steps).nodes[i]) && MessageOk(c, m);
  }
}
