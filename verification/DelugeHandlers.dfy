/** The handlers of Deluge together. */
module DelugeHandlers {
  // Several requests before a transmission, requests without an answer, summaries of one round, and profiles that
  // renew a part of the pages.

  import opened DelugeNode
  import opened DelugeProtocol
  import opened DelugeProgress

  // ---------------------------------------------------------------- requests and the transmission after them

  /** The packets of ms are exactly those of page p whose numbers are in `wanted`. */
  ghost predicate Carries(ms: seq<Message>, p: nat, wanted: set<nat>) {
    && (forall i | 0 <= i < |ms| :: ms[i].Packet? && ms[i].page == p)
    && (forall k: nat :: HasSlot(ms, k) <==> k < N_PKT && k in wanted)
  }

  lemma OnlyWanted(d: NodeState, p: nat)
    requires d.Valid() && p < d.NPages() && d.txPage == p
    ensures var ms := PacketsSent(d);
            && (forall i | 0 <= i < |ms| :: ms[i].Packet? && ms[i].page == p)
            && (forall k: nat | HasSlot(ms, k) :: k < N_PKT && k in d.txSet)
  {
    hide CrcData, PacketOf, PacketsFrom;
    SentPackets(d, p, 0);
  }

  lemma SentExactly(c: Update, d: NodeState, p: nat)
    requires c.Valid() && NodeOk(c, d) && Done(c, d) && p < c.n && d.txPage == p
    ensures Carries(PacketsSent(d), p, d.txSet)
  {
    OnlyWanted(d, p);
    if d.txSet != {} {
      hide PacketsSent;
      Broadcast(c, d, p);
    }
  }

  /** A request of the update that an up-to-date node gets. */
  predicate Asks(c: Update, m: Message) {
    m.Request? && m.version == c.v1 && m.page < c.n
  }

  lemma AfterOne(c: Update, d: NodeState, m: Message)
    requires c.Valid() && NodeOk(c, d) && Done(c, d) && Asks(c, m)
    ensures var r := OnRequest(d, m);
            && NodeOk(c, r) && Done(c, r) && r.ctl.txTimer
            && (m.page < 128 ==> r.txPage == m.page) && (m.page >= 128 ==> r.txPage < 0)
            && r.txSet == if m.page == d.txPage then d.txSet + m.wanted else m.wanted
  {
    RequestAccepted(c, d, m);
  }

  /** Two requests before the transmit timer fires.  For one page, the packets wanted by both are sent, once; for
    * different pages, only those that the later one wants.  Of page 128 and above nothing is sent. */
  lemma TwoRequests(c: Update, d: NodeState, m1: Message, m2: Message)
    requires c.Valid() && NodeOk(c, d) && Done(c, d) && Asks(c, m1) && Asks(c, m2)
    ensures var r := OnRequest(OnRequest(d, m1), m2);
            && r.ctl.txTimer
            && (m2.page >= 128 ==> PacketsSent(r) == [])
            && (m2.page < 128 ==>
                  Carries(PacketsSent(r), m2.page,
                          if m1.page != m2.page then m2.wanted
                          else m1.wanted + m2.wanted + if d.txPage == m1.page then d.txSet else {}))
  {
    hide PacketsSent, Carries, Done;
    AfterOne(c, d, m1);
    var r1 := OnRequest(d, m1);
    AfterOne(c, r1, m2);
    var r2 := OnRequest(r1, m2);
    hide OnRequest;
    if m2.page < 128 {
      SentExactly(c, r2, m2.page);
      assert m1.page == m2.page ==> (if d.txPage == m1.page then d.txSet + m1.wanted else m1.wanted) + m2.wanted ==
                                    m1.wanted + m2.wanted + if d.txPage == m1.page then d.txSet else {};
    } else {
      NothingSent(r2);
    }
  }

  lemma NothingSent(r: NodeState)
    requires r.Valid() && r.txPage < 0
    ensures PacketsSent(r) == []
  {
  }

  /** Every requester is served: what any of a series of requests for one page wanted is sent when the timer fires
    * once after all of them. */
  lemma {:induction false} AllRequestersServed(c: Update, d: NodeState, p: nat, ms: seq<Message>)
    requires c.Valid() && NodeOk(c, d) && Done(c, d) && p < 128 && ms != []
    requires forall i | 0 <= i < |ms| :: ms[i].Request? && Asks(c, ms[i]) && ms[i].page == p
    ensures var r := AfterRequests(d, ms);
            && NodeOk(c, r) && Done(c, r) && r.txPage == p
            && forall k: nat :: HasSlot(PacketsSent(r), k) <==>
                                k < N_PKT && ((d.txPage == p && k in d.txSet) || Wants(ms, k))
    decreases |ms|
  {
    hide PacketsSent, OnRequest, Done;
    AfterOne(c, d, ms[0]);
    var r1 := OnRequest(d, ms[0]);
    if |ms| == 1 {
      assert AfterRequests(r1, ms[1..]) == r1;
      SentExactly(c, r1, p);
      assert forall k: nat :: !Wants(ms[1..], k);
    } else {
      AllRequestersServed(c, r1, p, ms[1..]);
    }
    forall k: nat {
      WantsFirst(ms, k);
    }
  }

  /** One of the requests wants packet k. */
  predicate Wants(ms: seq<Message>, k: nat) {
    exists i :: 0 <= i < |ms| && ms[i].Request? && k in ms[i].wanted
  }

  lemma WantsFirst(ms: seq<Message>, k: nat)
    requires ms != [] && ms[0].Request?
    ensures Wants(ms, k) <==> k in ms[0].wanted || Wants(ms[1..], k)
  {
    if Wants(ms, k) {
      var i :| 0 <= i < |ms| && ms[i].Request? && k in ms[i].wanted;
      assert i > 0 ==> ms[1..][i - 1] == ms[i];
    }
    if Wants(ms[1..], k) {
      var i :| 0 <= i < |ms[1..]| && ms[1..][i].Request? && k in ms[1..][i].wanted;
      assert ms[i + 1] == ms[1..][i];
    }
  }

  function AfterRequests(d: NodeState, ms: seq<Message>): (r: NodeState)
    requires d.Valid() && forall i | 0 <= i < |ms| :: ms[i].Request?
    ensures r.Valid()
    decreases |ms|
  {
    if ms == [] then d else AfterRequests(OnRequest(d, ms[0]), ms[1..])
  }

  /** A request for another version, for a page beyond the table, or for a page behind the first one that is not
    * there, changes nothing. */
  lemma RequestRefused(s: NodeState, m: Message)
    requires s.Valid() && m.Request?
    requires m.version != s.version || m.page >= s.NPages() || exists j: nat :: j < m.page && j < s.NPages() && !s.pages[j].complete
    ensures OnRequest(s, m) == s
  {
  }

  // ---------------------------------------------------------------- requests without an answer

  function AfterTimers(s: NodeState, n: nat): NodeState
    decreases n
  {
    if n == 0 then s else AfterTimers(AfterRequest(s), n - 1)
  }

  /** A node that gets no answer sends CONST_LAMBDA requests, counted from the start of its series, and then waits in
    * MAINTAIN for another summary or profile. */
  lemma GivesUp(s: NodeState)
    requires s.ctl.mode == Rx && s.ctl.rxTimer && s.requests == 0
    ensures forall n: nat | 0 < n < CONST_LAMBDA ::
              AfterTimers(s, n).ctl == s.ctl && AfterTimers(s, n).requests == n
    ensures var r := AfterTimers(s, CONST_LAMBDA);
            r.ctl.mode == Maintain && !r.ctl.rxTimer && r.requests == 0 && r.pages == s.pages && r.rxPage == s.rxPage
  {
    assert AfterTimers(s, 1) == AfterRequest(s);
    assert AfterTimers(s, 2) == AfterTimers(AfterRequest(s), 1) == AfterRequest(AfterRequest(s));
  }

  // ---------------------------------------------------------------- summaries of one round

  function AfterSummaries(s: NodeState, ms: seq<Message>): (r: NodeState)
    requires s.Valid() && forall i | 0 <= i < |ms| :: ms[i].Summary?
    ensures r.Valid()
    decreases |ms|
  {
    if ms == [] then s else AfterSummaries(OnSummary(s, ms[0], false), ms[1..])
  }

  /** A node keeps quiet in a round if and only if it has heard a summary that equals its own, and it sends a
    * profile in a round with no such summary if and only if it has heard of an older version. */
  lemma {:induction false} SummariesOfRound(s: NodeState, ms: seq<Message>)
    requires s.Valid() && forall i | 0 <= i < |ms| :: ms[i].Summary?
    ensures var r := AfterSummaries(s, ms);
            && r.pages == s.pages && r.version == s.version && r.updateVersion == s.updateVersion
            && (r.recvAdv >= CONST_K <==> s.recvAdv >= CONST_K || Summary(s.version, Highest(s.pages)) in ms)
            && (r.broadcastProfile <==> s.broadcastProfile || Older(ms, s.version))
    decreases |ms|
  {
    hide Highest;
    if ms != [] {
      SummariesOfRound(OnSummary(s, ms[0], false), ms[1..]);
      assert ms == [ms[0]] + ms[1..];
      OlderIn(ms, s.version);
    }
  }

  /** One of the summaries has a version below v. */
  predicate Older(ms: seq<Message>, v: nat) {
    exists i :: 0 <= i < |ms| && ms[i].Summary? && ms[i].version < v
  }

  lemma OlderIn(ms: seq<Message>, v: nat)
    requires ms != [] && ms[0].Summary?
    ensures Older(ms, v) <==> ms[0].version < v || Older(ms[1..], v)
  {
    if Older(ms, v) {
      var i :| 0 <= i < |ms| && ms[i].Summary? && ms[i].version < v;
      assert i > 0 ==> ms[1..][i - 1] == ms[i];
    }
    if Older(ms[1..], v) {
      var i :| 0 <= i < |ms[1..]| && ms[1..][i].Summary? && ms[1..][i].version < v;
      assert ms[i + 1] == ms[1..][i];
    }
  }

  // ---------------------------------------------------------------- profiles

  /** A profile that renews a part of the pages of a complete object: reception starts at the first page with a newer
    * version; the pages that are not newer stay as they are, and so do all bytes of the file. */
  lemma ProfileRenews(s: NodeState, m: Message, first: nat)
    requires s.Valid() && m.Profile? && |m.versions| == s.NPages() && m.version > s.updateVersion
    requires forall i | 0 <= i < s.NPages() :: s.pages[i].complete
    requires first <= s.NPages() && forall i | 0 <= i < first :: m.versions[i] <= s.pages[i].version
    requires first < s.NPages() ==> m.versions[first] > s.pages[first].version
    ensures var r := OnProfile(s, m);
            && r.file == s.file && r.rxPage == first && r.updateVersion == m.version && r.version == s.version
            && r.ctl.mode == Rx && r.ctl.rxTimer
            && (forall i | 0 <= i < s.NPages() && m.versions[i] <= s.pages[i].version :: r.pages[i] == s.pages[i])
            && (forall i | 0 <= i < s.NPages() && m.versions[i] > s.pages[i].version ::
                  !r.pages[i].complete && r.pages[i].packetSet == {} && r.pages[i].version == m.versions[i])
  {
    var r := OnProfile(s, m);
    FirstIncomplete(r.pages, 0, first);
  }

  lemma {:induction false} FirstIncomplete(pages: seq<Page>, i: nat, first: nat)
    requires i <= first <= |pages| && (forall j | i <= j < first :: pages[j].complete)
    requires first < |pages| ==> !pages[first].complete
    ensures HighestFrom(pages, i) == first
    decreases first - i
  {
    if i < first {
      FirstIncomplete(pages, i + 1, first);
    }
  }
}
