/** Which Deluge updates can be finished (apps/deluge/deluge.c). */
module DelugeCompletion {
  // When the object has at most 128 pages, the new version is 1, and packets and profile fit the packet buffer,
  // every reachable state with an up-to-date node has a continuation after which any chosen node has the new
  // image. In all other cases no run ever updates a node: current_tx_page is an int8_t, so page 128 is never sent;
  // the dispatcher refuses the profile of a version above 1; and what does not fit is not sent.

  import opened DelugeNode
  import opened DelugeProtocol
  import opened DelugeProgress

  lemma {:induction false} RunAppend(s: System, a: seq<Step>, b: seq<Step>)
    requires Runs(s, a) && Runs(Run(s, a), b)
    ensures Runs(s, a + b) && Run(s, a + b) == Run(Run(s, a), b)
    decreases |a|
  {
    hide Apply, Enabled;
    if a == [] {
      assert a + b == b;
    } else {
      assert (a + b)[0] == a[0];
      RunAppend(Apply(s, a[0]), a[1..], b);
      assert (a + b)[1..] == a[1..] + b;
    }
  }

  /** Node d is up to date and node n is another node of a state that satisfies the invariant. */
  predicate Pair(c: Update, s: System, n: nat, d: nat) {
    c.Valid() && Inv(c, s) && n < |s.nodes| && d < |s.nodes| && n != d && Done(c, s.nodes[d]) && S_MSG_PACKET <= s.room
  }

  /** One step of a continuation. */
  lemma Take(c: Update, s: System, n: nat, d: nat, step: Step) returns (t: System)
    requires Pair(c, s, n, d) && Enabled(s, step) && (step.n == n || step.n == d)
    ensures t == Apply(s, step) && Pair(c, t, n, d)
    ensures t.nodes[step.n] == Act(s, step).0 && s.net <= t.net && s.room == t.room
    ensures forall i | 0 <= i < |Act(s, step).1| && Size(Act(s, step).1[i]) <= s.room :: Act(s, step).1[i] in t.net
    ensures step.n != n ==> t.nodes[n] == s.nodes[n]
    ensures step.n != d ==> t.nodes[d] == s.nodes[d]
    ensures Runs(s, [step]) && Run(s, [step]) == t
  {
    t := Apply(s, step);
    StepKeeps(c, s, step);
    assert NodeOk(c, s.nodes[step.n]);
    if step.n == d {
      StaysDone(c, s, step);
    }
    assert Runs(t, [step][1..]);
  }

  lemma StaysDone(c: Update, s: System, step: Step)
    requires c.Valid() && Inv(c, s) && Enabled(s, step) && Done(c, s.nodes[step.n])
    ensures Done(c, Act(s, step).0)
  {
    assert NodeOk(c, s.nodes[step.n]);
    ActKeeps(c, s, step);
    if step.Deliver? && step.m.Packet? {
      assert !Wanted(s.nodes[step.n], step.m);
    }
  }

  // ---------------------------------------------------------------- the stages of a continuation

  /** An idle node advertises its summary. */
  lemma Greet(c: Update, s: System, n: nat, d: nat) returns (steps: seq<Step>, t: System)
    requires Pair(c, s, n, d) && Idle(c, s.nodes[n])
    ensures Runs(s, steps) && t == Run(s, steps) && Pair(c, t, n, d) && Idle(c, t.nodes[n]) && t.room == s.room
    ensures Summary(c.v0, c.n) in t.net
    ensures t.nodes[d].recvAdv == 0 && t.nodes[d].ctl.profileTimer
  {
    assert Highest(s.nodes[n].pages) == c.n;
    hide Highest, AllComplete;
    var r0 := NewRound(n);
    var s1 := Take(c, s, n, d, r0);
    var r1 := SummaryTimer(n);
    var s2 := Take(c, s1, n, d, r1);
    assert Act(s1, r1).1[0] == Summary(c.v0, c.n);
    var r2 := NewRound(d);
    var s3 := Take(c, s2, n, d, r2);
    Steps3(s, r0, r1, r2);
    steps, t := [r0, r1, r2], s3;
  }

  /** An up-to-date node answers an old summary with its profile, which arrives. */
  lemma Announce(c: Update, s: System, n: nat, d: nat) returns (steps: seq<Step>, t: System)
    requires Pair(c, s, n, d) && Idle(c, s.nodes[n]) && Summary(c.v0, c.n) in s.net
    requires s.nodes[d].recvAdv == 0 && s.nodes[d].ctl.profileTimer && c.v1 == 1 && 4 + c.n <= s.room
    ensures Runs(s, steps) && t == Run(s, steps) && Pair(c, t, n, d) && Receiving(c, t.nodes[n]) && t.room == s.room
  {
    hide Highest;
    var r0 := Deliver(d, Summary(c.v0, c.n), false);
    var s1 := Take(c, s, n, d, r0);
    var r1 := ProfileTimer(d);
    var s2 := Take(c, s1, n, d, r1);
    var profile := Profile(c.v1, VersionVector(s1.nodes[d].pages));
    assert Act(s1, r1).1[0] == profile;
    var r2 := Deliver(n, profile, false);
    var s3 := Take(c, s2, n, d, r2);
    assert NodeOk(c, s3.nodes[n]);
    Steps3(s, r0, r1, r2);
    steps, t := [r0, r1, r2], s3;
  }

  /** An idle node learns of the update. */
  lemma Wake(c: Update, s: System, n: nat, d: nat) returns (steps: seq<Step>, t: System)
    requires Pair(c, s, n, d) && Idle(c, s.nodes[n]) && c.v1 == 1 && 4 + c.n <= s.room
    ensures Runs(s, steps) && t == Run(s, steps) && Pair(c, t, n, d) && Receiving(c, t.nodes[n])
  {
    hide Pair, Receiving, Idle;
    var a, s1 := Greet(c, s, n, d);
    var b, s2 := Announce(c, s1, n, d);
    RunAppend(s, a, b);
    steps, t := a + b, s2;
  }

  lemma Steps3(s: System, a: Step, b: Step, c: Step)
    requires Enabled(s, a) && Enabled(Apply(s, a), b) && Enabled(Apply(Apply(s, a), b), c)
    ensures Runs(s, [a, b, c]) && Run(s, [a, b, c]) == Apply(Apply(Apply(s, a), b), c)
  {
    var s1 := Apply(s, a);
    var s2 := Apply(s1, b);
    assert [c][1..] == [] && Runs(Apply(s2, c), []);
    assert Runs(s2, [c]) && Run(s2, [c]) == Apply(s2, c);
    assert [b, c][1..] == [c];
    assert Runs(s1, [b, c]) && Run(s1, [b, c]) == Apply(s2, c);
    assert [a, b, c][1..] == [b, c];
  }

  /** A receiving node whose request timer has stopped sees a summary and starts it again. */
  lemma Prompt(c: Update, s: System, n: nat, d: nat) returns (steps: seq<Step>, t: System)
    requires Pair(c, s, n, d) && Receiving(c, s.nodes[n])
    ensures Runs(s, steps) && t == Run(s, steps) && Pair(c, t, n, d)
    ensures Receiving(c, t.nodes[n]) && t.nodes[n].rxPage == s.nodes[n].rxPage && t.nodes[n].ctl.rxTimer
  {
    var r0 := NewRound(d);
    var s1 := Take(c, s, n, d, r0);
    var r1 := SummaryTimer(d);
    var s2 := Take(c, s1, n, d, r1);
    var offer := Summary(c.v1, Highest(s1.nodes[d].pages));
    assert Act(s1, r1).1[0] == offer;
    assert Highest(s1.nodes[d].pages) == c.n;
    var r2 := Deliver(n, offer, true);
    var s3 := Take(c, s2, n, d, r2);
    assert Highest(s2.nodes[n].pages) == s2.nodes[n].rxPage;
    assert NodeOk(c, s3.nodes[n]);
    Steps3(s, r0, r1, r2);
    steps, t := [r0, r1, r2], s3;
  }

  /** A request is sent and reaches an up-to-date node. */
  lemma Ask(c: Update, s: System, n: nat, d: nat) returns (steps: seq<Step>, t: System)
    requires Pair(c, s, n, d) && Receiving(c, s.nodes[n]) && s.nodes[n].ctl.rxTimer && s.nodes[n].rxPage < 128
    ensures Runs(s, steps) && t == Run(s, steps) && Pair(c, t, n, d)
    ensures Receiving(c, t.nodes[n]) && t.nodes[n].rxPage == s.nodes[n].rxPage && t.nodes[n].pages == s.nodes[n].pages
    ensures t.nodes[d].ctl.txTimer && t.nodes[d].txPage == s.nodes[n].rxPage
    ensures Missing(s.nodes[n].pages[s.nodes[n].rxPage].packetSet) <= t.nodes[d].txSet
  {
    var beyond := Page({}, false, 0);
    var r0 := RequestTimer(n, beyond);
    var s1 := Take(c, s, n, d, r0);
    assert NodeOk(c, s1.nodes[n]);
    var m := RequestOf(s.nodes[n], beyond);
    assert Act(s, r0).1[0] == m;
    var r1 := Deliver(d, m, false);
    t := Take(c, s1, n, d, r1);
    RequestAccepted(c, s1.nodes[d], m);
    RunAppend(s, [r0], [r1]);
    steps := [r0] + [r1];
  }

  /** A request always asks for packets beyond the page as well. */
  lemma UpperBitsAsked(c: Update, x: NodeState)
    requires c.Valid() && NodeOk(c, x) && Receiving(c, x)
    ensures 4 in Missing(x.pages[x.rxPage].packetSet)
  {
  }

  /** The packets that were asked for are sent. */
  lemma Reply(c: Update, s: System, n: nat, d: nat) returns (step: Step, t: System)
    requires Pair(c, s, n, d) && Receiving(c, s.nodes[n])
    requires s.nodes[d].ctl.txTimer && s.nodes[d].txPage == s.nodes[n].rxPage
    requires Missing(s.nodes[n].pages[s.nodes[n].rxPage].packetSet) <= s.nodes[d].txSet
    ensures Enabled(s, step) && t == Apply(s, step) && Runs(s, [step]) && Run(s, [step]) == t
    ensures Pair(c, t, n, d) && t.nodes[n] == s.nodes[n] && PacketsInFlight(c, t, n)
  {
    hide CrcData, AfterTx, PacketsSent, Receiving, Done, MessageOk;
    UpperBitsAsked(c, s.nodes[n]);
    step := TransmitTimer(d);
    t := Take(c, s, n, d, step);
    Broadcast(c, s.nodes[d], s.nodes[n].rxPage);
    PagePacketsFit(c, s.nodes[n].rxPage, PacketsSent(s.nodes[d]));
    SentIsInFlight(c, t, n, PacketsSent(s.nodes[d]));
  }

  lemma PagePacketsFit(c: Update, p: nat, ms: seq<Message>)
    requires c.Valid() && PagePackets(c, p, ms)
    ensures forall i | 0 <= i < |ms| :: Size(ms[i]) == S_MSG_PACKET
  {
  }

  /** One request is sent and served; its packets are in flight. */
  lemma Serve(c: Update, s: System, n: nat, d: nat) returns (steps: seq<Step>, t: System)
    requires Pair(c, s, n, d) && Receiving(c, s.nodes[n]) && s.nodes[n].ctl.rxTimer && s.nodes[n].rxPage < 128
    ensures Runs(s, steps) && t == Run(s, steps) && Pair(c, t, n, d)
    ensures Receiving(c, t.nodes[n]) && t.nodes[n].rxPage == s.nodes[n].rxPage
    ensures PacketsInFlight(c, t, n)
  {
    hide Enabled, Apply, Receiving, PacketsInFlight;
    var a, s1 := Ask(c, s, n, d);
    var step;
    step, t := Reply(c, s1, n, d);
    RunAppend(s, a, [step]);
    steps := a + [step];
  }

  /** The packets that have just been sent are in flight. */
  lemma SentIsInFlight(c: Update, t: System, n: nat, ms: seq<Message>)
    requires c.Valid() && Inv(c, t) && n < |t.nodes| && NodeOk(c, t.nodes[n]) && Receiving(c, t.nodes[n])
    requires PagePackets(c, t.nodes[n].rxPage, ms) && (forall i | 0 <= i < |ms| :: ms[i] in t.net)
    requires forall k: nat | k < N_PKT && k !in t.nodes[n].pages[t.nodes[n].rxPage].packetSet :: HasSlot(ms, k)
    ensures PacketsInFlight(c, t, n)
  {
    hide MessageOk;
    var x := t.nodes[n];
    forall k: nat | k < N_PKT && k !in x.pages[x.rxPage].packetSet
      ensures InFlight(c, t.net, x.rxPage, k)
    {
      assert HasSlot(ms, k);
      var i :| 0 <= i < |ms| && ms[i].Packet? && ms[i].slot == k;
      assert ms[i] in t.net;
    }
  }

  ghost predicate InFlight(c: Update, net: set<Message>, p: nat, k: nat)
    requires c.Valid()
  {
    exists m :: m in net && m.Packet? && MessageOk(c, m) && m.page == p && m.slot == k
  }

  /** Every packet that node n lacks of its current page has been sent. */
  ghost predicate PacketsInFlight(c: Update, s: System, n: nat)
    requires c.Valid() && Inv(c, s) && n < |s.nodes|
  {
    var x := s.nodes[n];
    NodeOk(c, x) && Receiving(c, x) &&
    forall k: nat | k < N_PKT && k !in x.pages[x.rxPage].packetSet :: InFlight(c, s.net, x.rxPage, k)
  }

  /** A packet that node n lacks is in flight. */
  lemma PickPacket(c: Update, s: System, n: nat, d: nat) returns (m: Message)
    requires Pair(c, s, n, d) && PacketsInFlight(c, s, n)
    ensures m in s.net && m.Packet? && MessageOk(c, m) && m.page == s.nodes[n].rxPage
    ensures m.slot !in s.nodes[n].pages[s.nodes[n].rxPage].packetSet
  {
    var x := s.nodes[n];
    var k := SomeMissing(c, x);
    assert InFlight(c, s.net, x.rxPage, k);
    m :| m in s.net && m.Packet? && MessageOk(c, m) && m.page == x.rxPage && m.slot == k;
  }

  /** One of the missing packets arrives. */
  lemma ArriveOne(c: Update, s: System, n: nat, d: nat) returns (step: Step, t: System)
    requires Pair(c, s, n, d) && PacketsInFlight(c, s, n)
    ensures Enabled(s, step) && t == Apply(s, step) && Runs(s, [step]) && Run(s, [step]) == t
    ensures Pair(c, t, n, d)
    ensures || (Highest(t.nodes[n].pages) == s.nodes[n].rxPage + 1 && InUpdate(c, t.nodes[n]))
            || (&& PacketsInFlight(c, t, n) && t.nodes[n].rxPage == s.nodes[n].rxPage
                && Lacking(t.nodes[n]) < Lacking(s.nodes[n]))
  {
    hide CrcData, OnPacket, Enabled, MessageOk;
    var x := s.nodes[n];
    var m := PickPacket(c, s, n, d);
    FirstPacket(c, x, m);
    step := Deliver(n, m, false);
    CanDeliver(s, n, m);
    t := Take(c, s, n, d, step);
    assert t.nodes[n] == OnPacket(x, m);
    if Highest(t.nodes[n].pages) != x.rxPage + 1 {
      StillInFlight(c, s, t, n, m);
    }
  }

  lemma CanDeliver(s: System, n: nat, m: Message)
    requires n < |s.nodes| && s.nodes[n].Valid() && m in s.net && m.Packet? && InBounds(s.nodes[n], m)
    ensures Enabled(s, Deliver(n, m, false)) && Act(s, Deliver(n, m, false)).0 == OnPacket(s.nodes[n], m)
  {
  }

  lemma StillInFlight(c: Update, s: System, t: System, n: nat, m: Message)
    requires c.Valid() && Inv(c, s) && Inv(c, t) && n < |s.nodes| && n < |t.nodes| && s.net <= t.net
    requires PacketsInFlight(c, s, n) && m.Packet? && MessageOk(c, m)
    requires Receiving(c, t.nodes[n]) && t.nodes[n].rxPage == s.nodes[n].rxPage
    requires m.slot !in s.nodes[n].pages[s.nodes[n].rxPage].packetSet
    requires t.nodes[n].pages[s.nodes[n].rxPage].packetSet == s.nodes[n].pages[s.nodes[n].rxPage].packetSet + {m.slot}
    ensures PacketsInFlight(c, t, n)
    ensures Lacking(t.nodes[n]) < Lacking(s.nodes[n])
  {
    hide CrcData;
    var p := s.nodes[n].rxPage;
    assert NodeOk(c, t.nodes[n]);
    forall j: nat | j < N_PKT && j !in t.nodes[n].pages[p].packetSet
      ensures InFlight(c, t.net, p, j)
    {
      assert InFlight(c, s.net, p, j);
    }
    assert m.slot in Lacking(s.nodes[n]) && m.slot !in Lacking(t.nodes[n]);
  }

  function Lacking(x: NodeState): set<nat>
    requires x.rxPage < |x.pages|
  {
    ALL_PACKETS - x.pages[x.rxPage].packetSet
  }

  /** The packets arrive. */
  lemma {:induction false} Arrive(c: Update, s: System, n: nat, d: nat) returns (steps: seq<Step>, t: System)
    requires Pair(c, s, n, d) && PacketsInFlight(c, s, n)
    ensures Runs(s, steps) && t == Run(s, steps) && Pair(c, t, n, d)
    ensures Highest(t.nodes[n].pages) == s.nodes[n].rxPage + 1 && InUpdate(c, t.nodes[n])
    decreases Lacking(s.nodes[n])
  {
    var step, s1 := ArriveOne(c, s, n, d);
    if Highest(s1.nodes[n].pages) == s.nodes[n].rxPage + 1 && InUpdate(c, s1.nodes[n]) {
      steps, t := [step], s1;
    } else {
      var more;
      more, t := Arrive(c, s1, n, d);
      RunAppend(s, [step], more);
      steps := [step] + more;
    }
  }

  lemma {:induction false} FinishPages(c: Update, s: System, n: nat, d: nat) returns (steps: seq<Step>, t: System)
    requires Pair(c, s, n, d) && Receiving(c, s.nodes[n]) && c.n <= 128
    ensures Runs(s, steps) && t == Run(s, steps) && Pair(c, t, n, d) && Done(c, t.nodes[n])
    decreases c.n - s.nodes[n].rxPage
  {
    var a, s1 := Prompt(c, s, n, d);
    var b, s2 := Serve(c, s1, n, d);
    var e, s3 := Arrive(c, s2, n, d);
    RunAppend(s, a, b);
    RunAppend(s, a + b, e);
    steps, t := a + b + e, s3;
    HighestInUpdate(c, s3.nodes[n]);
    if s.nodes[n].rxPage + 1 < c.n {
      var more;
      more, t := FinishPages(c, s3, n, d);
      RunAppend(s, steps, more);
      steps := steps + more;
    }
  }

  lemma HighestInUpdate(c: Update, x: NodeState)
    requires c.Valid() && NodeOk(c, x) && InUpdate(c, x)
    ensures if Receiving(c, x) then Highest(x.pages) == x.rxPage < c.n else Highest(x.pages) == c.n
  {
  }

  /** The condition under which an update reaches the nodes. */
  predicate Reaches(c: Update, room: nat) {
    c.v1 == 1 && c.n <= 128 && S_MSG_PACKET <= room && 4 + c.n <= room
  }

  lemma Finish(c: Update, s: System, n: nat, d: nat) returns (steps: seq<Step>, t: System)
    requires Pair(c, s, n, d) && Reaches(c, s.room)
    ensures Runs(s, steps) && t == Run(s, steps) && |t.nodes| == |s.nodes| && Done(c, t.nodes[n])
  {
    assert NodeOk(c, s.nodes[n]);
    if Done(c, s.nodes[n]) {
      steps, t := [], s;
    } else if Receiving(c, s.nodes[n]) {
      steps, t := FinishPages(c, s, n, d);
      RunKeeps(c, s, steps);
    } else {
      var a, s1 := Wake(c, s, n, d);
      var b, s2 := FinishPages(c, s1, n, d);
      RunAppend(s, a, b);
      steps, t := a + b, s2;
      RunKeeps(c, s, steps);
    }
  }

  // ---------------------------------------------------------------- the main results

  lemma {:induction false} DoneForEver(c: Update, s: System, steps: seq<Step>, d: nat)
    requires c.Valid() && Inv(c, s) && Runs(s, steps) && d < |s.nodes| && Done(c, s.nodes[d])
    ensures d < |Run(s, steps).nodes| && Done(c, Run(s, steps).nodes[d])
    decreases |steps|
  {
    if steps != [] {
      if steps[0].n == d {
        StaysDone(c, s, steps[0]);
      }
      StepKeeps(c, s, steps[0]);
      DoneForEver(c, Apply(s, steps[0]), steps[1..], d);
    }
  }

  lemma {:induction false} SameRoom(s: System, steps: seq<Step>)
    requires Runs(s, steps)
    ensures Run(s, steps).room == s.room
    decreases |steps|
  {
    if steps != [] {
      SameRoom(Apply(s, steps[0]), steps[1..]);
    }
  }

  /** No reachable state is a dead end: whatever has been lost so far, node n can still be updated. */
  lemma NeverStuck(c: Update, s0: System, before: seq<Step>, n: nat, d: nat) returns (after: seq<Step>)
    requires c.Valid() && Reaches(c, s0.room) && Initial(c, s0) && Runs(s0, before)
    requires n < |s0.nodes| && d < |s0.nodes| && s0.nodes[d].version == c.v1
    ensures Runs(s0, before + after)
    ensures n < |Run(s0, before + after).nodes|
    ensures Run(s0, before + after).nodes[n].version == c.v1 && Run(s0, before + after).nodes[n].file == c.image
  {
    InitialInv(c, s0);
    assert NodeOk(c, s0.nodes[d]);
    RunKeeps(c, s0, before);
    DoneForEver(c, s0, before, d);
    SameRoom(s0, before);
    var s := Run(s0, before);
    if n == d {
      after := [];
      assert before + after == before;
    } else {
      var t;
      after, t := Finish(c, s, n, d);
      RunAppend(s0, before, after);
    }
  }

  // ---------------------------------------------------------------- updates that never reach a node

  /** Only messages that fit have been sent. */
  predicate Sendable(s: System) {
    forall m | m in s.net :: Size(m) <= s.room
  }

  /** The node has the old version; when no profile of the new one can reach it, it does not even know
    * of it. */
  predicate Behind(c: Update, room: nat, x: NodeState) {
    x.version == c.v0 && (c.v1 != 1 || 4 + c.n > room ==> x.updateVersion == c.v0)
  }

  /** The dispatcher lets a profile of the new version through only if the version is 1, and it was sent
    * only if it fits. */
  lemma ProfilesRefused(c: Update, s: System, x: NodeState, m: Message)
    requires c.Valid() && x.Valid() && m.Profile? && MessageOk(c, m) && |m.versions| == x.NPages()
    requires Size(m) <= s.room && Passes(m, Size(m)) && Behind(c, s.room, x)
    ensures Behind(c, s.room, OnProfile(x, m))
  {
    hide Highest;
    if m.version == c.v1 {
      assert m.versions[0] == c.v1;
      OneEach(c.n, c.v1);
    }
  }

  lemma OneEach(n: nat, v: nat)
    requires n > 0 && v > 0 && n * v <= n
    ensures v == 1
  {
  }

  lemma PacketsLeaveBehind(c: Update, s: System, x: NodeState, m: Message)
    requires c.Valid() && NodeOk(c, x) && m.Packet? && MessageOk(c, m) && InBounds(x, m) && Size(m) <= s.room
    requires Behind(c, s.room, x) && !Reaches(c, s.room)
    ensures Behind(c, s.room, OnPacket(x, m))
  {
    if c.v1 != 1 || 4 + c.n > s.room {
      assert Idle(c, x);
      assert !Wanted(x, m);
    } else {
      StopsAt128(c, x, m);
    }
  }

  lemma StopsAt128(c: Update, x: NodeState, m: Message)
    requires c.Valid() && c.n > 128 && NodeOk(c, x) && m.Packet? && MessageOk(c, m) && InBounds(x, m)
    ensures OnPacket(x, m).version == x.version
  {
  }

  lemma StepLeavesBehind(c: Update, s: System, step: Step)
    requires c.Valid() && Inv(c, s) && Sendable(s) && Enabled(s, step) && !Reaches(c, s.room)
    requires Behind(c, s.room, s.nodes[step.n])
    ensures Behind(c, s.room, Act(s, step).0)
  {
    hide Inv, NodeOk, MessageOk, Reaches, OnPacket, OnProfile, Passes;
    var x := s.nodes[step.n];
    if step.Deliver? && Passes(step.m, Size(step.m)) {
      NodesAndMessagesOk(c, s, step.n, step.m);
      if step.m.Packet? {
        PacketsLeaveBehind(c, s, x, step.m);
      } else if step.m.Profile? {
        ProfilesRefused(c, s, x, step.m);
      }
    }
  }

  lemma NodesAndMessagesOk(c: Update, s: System, n: nat, m: Message)
    requires c.Valid() && Inv(c, s) && n < |s.nodes| && m in s.net
    ensures NodeOk(c, s.nodes[n]) && MessageOk(c, m)
  {
  }

  /** Outside the condition a node that is not up to date never becomes so. */
  lemma {:induction false} NeverUpdated(c: Update, s: System, steps: seq<Step>, n: nat)
    requires c.Valid() && !Reaches(c, s.room) && Inv(c, s) && Sendable(s) && Runs(s, steps)
    requires n < |s.nodes| && Behind(c, s.room, s.nodes[n])
    ensures n < |Run(s, steps).nodes| && Behind(c, s.room, Run(s, steps).nodes[n])
    decreases |steps|
  {
    hide Inv, Act, Reaches, Behind;
    if steps != [] {
      StepKeeps(c, s, steps[0]);
      if steps[0].n == n {
        StepLeavesBehind(c, s, steps[0]);
      }
      NeverUpdated(c, Apply(s, steps[0]), steps[1..], n);
    }
  }

  /** An outdated node can be updated in some run if and only if the new version is 1, the object has at
    * most 128 pages, and packets and profile fit the packet buffer. */
  lemma UpdatableIff(c: Update, s0: System, n: nat, d: nat)
    requires c.Valid() && Initial(c, s0)
    requires n < |s0.nodes| && d < |s0.nodes| && s0.nodes[n].version == c.v0 && s0.nodes[d].version == c.v1
    ensures (exists steps :: Runs(s0, steps) && n < |Run(s0, steps).nodes| && Run(s0, steps).nodes[n].version == c.v1)
            <==> c.v1 == 1 && c.n <= 128 && S_MSG_PACKET <= s0.room && 4 + c.n <= s0.room
  {
    InitialInv(c, s0);
    if Reaches(c, s0.room) {
      var after := NeverStuck(c, s0, [], n, d);
      assert Runs(s0, [] + after);
    } else {
      forall steps | Runs(s0, steps)
        ensures n < |Run(s0, steps).nodes| && Run(s0, steps).nodes[n].version == c.v0
      {
        NeverUpdated(c, s0, steps, n);
      }
    }
  }
}
