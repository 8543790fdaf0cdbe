/** One Deluge node (apps/deluge/deluge.c). */
module DelugeNode {
  // The object record that every handler updates in place, and, for each handler, the function on node states that
  // the handler is proved against.
  //
  // Bit masks (packet_set, tx_set, request_set) are sets of bit positions. The object has NPages() full pages.
  // Clocks are not modelled: a pending rx or tx timer may fire at any time.

  type Byte = bv8

  const S_PKT := 64
  const N_PKT := 4
  const S_PAGE := 256
  const CONST_K := 1
  const CONST_LAMBDA := 2
  const ALL_PACKETS: set<nat> := {0, 1, 2, 3}

  /** sizeof(struct deluge_msg_packet), whose 16-bit checksum is aligned to two bytes. */
  const S_MSG_PACKET := 72

  datatype Mode = Maintain | Rx | Tx

  datatype Page = Page(packetSet: set<nat>, complete: bool, version: nat)

  datatype Message =
    | Summary(version: nat, highest: nat)
    | Request(version: nat, page: nat, wanted: set<nat>)
    | Packet(version: nat, page: nat, slot: nat, crc: bv16, payload: seq<Byte>)
    | Profile(version: nat, versions: seq<nat>)

  /** The bytes of a message without its version vector. */
  function HeadSize(m: Message): nat {
    match m
    case Summary(_, _) => 4
    case Request(_, _, _) => 5
    case Packet(_, _, _, _, _) => S_MSG_PACKET
    case Profile(_, _) => 4
  }

  function Size(m: Message): nat {
    HeadSize(m) + if m.Profile? then |m.versions| else 0
  }

  /** The length tests of command_dispatcher.  For a profile it multiplies the number of pages by the
    * first version of the vector, where the size of an entry was meant. */
  predicate Passes(m: Message, len: nat) {
    && len >= HeadSize(m)
    && (m.Profile? && m.versions != [] ==> len >= HeadSize(m) + |m.versions| * m.versions[0])
  }

  // ---------------------------------------------------------------- checksum of a packet

  function CrcAdd(b: Byte, acc: bv16): bv16 { CrcMix(acc ^ (b as bv16)) }

  function CrcMix(a: bv16): bv16 {
    var c := (a >> 8) | (a << 8);
    var d := c ^ ((c & 0xff00) << 4);
    var e := d ^ ((d >> 8) >> 4);
    e ^ ((e & 0xff00) >> 5)
  }

  function CrcData(data: seq<Byte>, acc: bv16): bv16 {
    if data == [] then acc else CrcData(data[1..], CrcAdd(data[0], acc))
  }

  // ---------------------------------------------------------------- states and their parts

  /** deluge_state and the timers it governs. */
  datatype Control = Control(mode: Mode, rxTimer: bool, txTimer: bool, summaryTimer: bool, profileTimer: bool)

  datatype NodeState = NodeState(
    version: nat,
    updateVersion: nat,
    pages: seq<Page>,
    file: seq<Byte>,
    buffer: seq<Byte>,
    rxPage: nat,
    txPage: int,
    txSet: set<nat>,
    requests: nat,
    ctl: Control,
    recvAdv: nat,
    broadcastProfile: bool)
  {
    function NPages(): nat { |pages| }

    predicate Valid() {
      && |pages| <= 255
      && |file| == |pages| * S_PAGE
      && |buffer| == S_PAGE
      && rxPage <= |pages|
      && -128 <= txPage < 128 && (txSet != {} ==> txPage < |pages|)
    }
  }

  /** The bytes of page p of a file, as read_page delivers them. */
  function PageOf(file: seq<Byte>, p: nat): (r: seq<Byte>)
    requires (p + 1) * S_PAGE <= |file|
    ensures |r| == S_PAGE
  {
    file[p * S_PAGE..(p + 1) * S_PAGE]
  }

  /** A file after write_page has overwritten page p. */
  function WithPage(file: seq<Byte>, p: nat, data: seq<Byte>): (r: seq<Byte>)
    requires (p + 1) * S_PAGE <= |file| && |data| == S_PAGE
    ensures |r| == |file|
  {
    file[..p * S_PAGE] + data + file[(p + 1) * S_PAGE..]
  }

  /** Packet k of a page. */
  function SlotOf(page: seq<Byte>, k: nat): (r: seq<Byte>)
    requires |page| == S_PAGE && k < N_PKT
    ensures |r| == S_PKT
  {
    page[k * S_PKT..(k + 1) * S_PKT]
  }

  function WithSlot(page: seq<Byte>, k: nat, data: seq<Byte>): (r: seq<Byte>)
    requires |page| == S_PAGE && k < N_PKT && |data| == S_PKT
    ensures |r| == S_PAGE
  {
    page[..k * S_PKT] + data + page[(k + 1) * S_PKT..]
  }

  lemma PageAfterWrite(file: seq<Byte>, p: nat, data: seq<Byte>, q: nat)
    requires (p + 1) * S_PAGE <= |file| && (q + 1) * S_PAGE <= |file| && |data| == S_PAGE
    ensures PageOf(WithPage(file, p, data), q) == if p == q then data else PageOf(file, q)
  {
  }

  lemma SlotAfterWrite(page: seq<Byte>, k: nat, data: seq<Byte>, j: nat)
    requires |page| == S_PAGE && k < N_PKT && j < N_PKT && |data| == S_PKT
    ensures SlotOf(WithSlot(page, k, data), j) == if j == k then data else SlotOf(page, j)
  {
  }

  /** A page is its four packets. */
  lemma PageIsItsSlots(a: seq<Byte>, b: seq<Byte>)
    requires |a| == S_PAGE && |b| == S_PAGE
    requires forall k: nat | k < N_PKT :: SlotOf(a, k) == SlotOf(b, k)
    ensures a == b
  {
    assert a == SlotOf(a, 0) + SlotOf(a, 1) + SlotOf(a, 2) + SlotOf(a, 3);
    assert b == SlotOf(b, 0) + SlotOf(b, 1) + SlotOf(b, 2) + SlotOf(b, 3);
  }

  /** A file is its pages. */
  lemma FileIsItsPages(a: seq<Byte>, b: seq<Byte>, n: nat)
    requires |a| == |b| == n * S_PAGE
    requires forall p: nat | p < n :: PageOf(a, p) == PageOf(b, p)
    ensures a == b
  {
    forall i | 0 <= i < |a|
      ensures a[i] == b[i]
    {
      var p := i / S_PAGE;
      assert a[i] == PageOf(a, p)[i - p * S_PAGE];
      assert b[i] == PageOf(b, p)[i - p * S_PAGE];
    }
  }

  /** The number of leading complete pages. */
  function HighestFrom(pages: seq<Page>, i: nat): (h: nat)
    requires i <= |pages|
    ensures i <= h <= |pages|
    ensures forall j | i <= j < h :: pages[j].complete
    ensures h < |pages| ==> !pages[h].complete
    decreases |pages| - i
  {
    if i < |pages| && pages[i].complete then HighestFrom(pages, i + 1) else i
  }

  function Highest(pages: seq<Page>): nat { HighestFrom(pages, 0) }

  /** request_set has eight bits: the complement of the packets held, truncated. */
  function Missing(have: set<nat>): set<nat> {
    set k: nat | k < 8 && k !in have
  }

  /** Storing an unsigned byte in an int8_t. */
  function ToInt8(x: nat): int
    requires x < 256
  {
    if x < 128 then x else x - 256
  }

  // ---------------------------------------------------------------- the handlers as functions

  /** Entering mode m stops the timers of the mode that is left. */
  function Transition(c: Control, m: Mode): Control {
    if m == c.mode then c
    else
      Control(m, c.rxTimer && c.mode != Rx, c.txTimer && c.mode != Tx,
              c.summaryTimer && c.mode != Maintain, c.profileTimer && c.mode != Maintain)
  }

  /** A round of the process begins. */
  function AfterRound(s: NodeState): (r: NodeState)
    ensures s.Valid() ==> r.Valid()
  {
    s.(recvAdv := 0, ctl := s.ctl.(summaryTimer := true, profileTimer := true))
  }

  /** The summary timer has expired and advertise_summary has run. */
  function AfterSummary(s: NodeState): (r: NodeState)
    ensures s.Valid() ==> r.Valid()
  {
    s.(ctl := s.ctl.(summaryTimer := false))
  }

  /** `rested` is the outcome of the comparison of last_request and last_data with the clock. */
  function OnSummary(s: NodeState, m: Message, rested: bool): (r: NodeState)
    requires s.Valid() && m.Summary?
    ensures r.Valid()
  {
    var h := Highest(s.pages);
    var start := m.version == s.updateVersion && h < m.highest <= s.NPages() && rested;
    s.(recvAdv := if m.version == s.version && m.highest == h then s.recvAdv + 1 else s.recvAdv,
       broadcastProfile := s.broadcastProfile || m.version < s.version,
       ctl := if start then Transition(s.ctl, Rx).(rxTimer := true) else s.ctl)
  }

  /** What send_request reads: beyond the page table it reads whatever is stored there. */
  function RequestedPage(s: NodeState, beyond: Page): Page
    requires s.Valid()
  {
    if s.rxPage < |s.pages| then s.pages[s.rxPage] else beyond
  }

  function RequestOf(s: NodeState, beyond: Page): Message
    requires s.Valid()
  {
    var page := RequestedPage(s, beyond);
    Request(page.version, s.rxPage, Missing(page.packetSet))
  }

  /** The rx timer has expired and send_request has run. */
  function AfterRequest(s: NodeState): (r: NodeState)
    ensures s.Valid() ==> r.Valid()
  {
    var last := s.requests + 1 == CONST_LAMBDA;
    s.(requests := if last then 0 else s.requests + 1,
       ctl := if last then Transition(s.ctl.(rxTimer := false), Maintain) else s.ctl.(rxTimer := true))
  }

  function OnRequest(s: NodeState, m: Message): (r: NodeState)
    requires s.Valid() && m.Request?
    ensures r.Valid()
  {
    if m.page >= s.NPages() || m.version != s.version || m.page > Highest(s.pages) then s
    else
      s.(txPage := ToInt8(m.page),
         txSet := if m.page == s.txPage then s.txSet + m.wanted else m.wanted,
         ctl := Transition(s.ctl, Tx).(txTimer := true))
  }

  /** Packet k of page p, as send_page labels it. */
  function PacketOf(s: NodeState, p: nat, k: nat): Message
    requires s.Valid() && p < s.NPages() && k < N_PKT
  {
    var payload := SlotOf(PageOf(s.file, p), k);
    Packet(s.pages[p].version, p, k, CrcData(payload, 0), payload)
  }

  /** The packets send_page broadcasts from slot k on. */
  function PacketsFrom(s: NodeState, p: nat, k: nat): seq<Message>
    requires s.Valid() && p < s.NPages() && k <= N_PKT
    decreases N_PKT - k
  {
    if k == N_PKT then []
    else (if k in s.txSet then [PacketOf(s, p, k)] else []) + PacketsFrom(s, p, k + 1)
  }

  function Sending(s: NodeState): bool { s.txPage >= 0 && s.txSet != {} }

  lemma PacketsFromStep(s: NodeState, p: nat, k: nat, out: seq<Message>)
    requires s.Valid() && p < s.NPages() && k < N_PKT
    ensures out + PacketsFrom(s, p, k) ==
            (if k in s.txSet then out + [PacketOf(s, p, k)] else out) + PacketsFrom(s, p, k + 1)
  {
  }

  function PacketsSent(s: NodeState): seq<Message>
    requires s.Valid()
  {
    if Sending(s) then PacketsFrom(s, s.txPage, 0) else []
  }

  /** The tx timer has expired and tx_callback has run. */
  function AfterTx(s: NodeState): (r: NodeState)
    ensures s.Valid() ==> r.Valid()
  {
    var c := s.ctl.(txTimer := false);
    if Sending(s) then s.(txSet := {}, txPage := -1, ctl := Transition(c, Maintain)) else s.(ctl := c)
  }

  /** The packet is one that handle_packet stores: it is for the page being received, carries that
    * page's version, and the page is not complete yet. */
  predicate Wanted(s: NodeState, m: Message)
    requires m.Packet?
  {
    m.page == s.rxPage && m.page < |s.pages| && m.version == s.pages[m.page].version && !s.pages[m.page].complete
  }

  /** A packet message within the bounds of the arrays that handle_packet indexes. */
  predicate InBounds(s: NodeState, m: Message)
    requires m.Packet?
  {
    m.slot < N_PKT && |m.payload| == S_PKT && (m.page == s.rxPage ==> m.page < |s.pages|)
  }

  function OnPacket(s: NodeState, m: Message): (r: NodeState)
    requires s.Valid() && m.Packet? && InBounds(s, m)
    ensures r.Valid() && r.NPages() == s.NPages()
  {
    if !Wanted(s, m) then s
    else
      var s1 := s.(buffer := WithSlot(s.buffer, m.slot, m.payload));
      if m.crc != CrcData(m.payload, 0) then s1
      else
        var page := s.pages[m.page];
        var have := page.packetSet + {m.slot};
        var s2 := s1.(pages := s.pages[m.page := page.(packetSet := have)]);
        if have == ALL_PACKETS then Completed(s2, m.page) else s2
  }

  /** The buffer holds all of page p: write it out and move on to the next page. */
  function Completed(s: NodeState, p: nat): (r: NodeState)
    requires s.Valid() && p == s.rxPage < |s.pages|
    ensures r.Valid() && r.NPages() == s.NPages()
  {
    var last := p == |s.pages| - 1;
    s.(file := WithPage(s.file, p, s.buffer),
       pages := s.pages[p := s.pages[p].(complete := true)],
       rxPage := p + 1,
       version := if last then s.updateVersion else s.version,
       ctl := Transition(if last then s.ctl else s.ctl.(rxTimer := true), Maintain))
  }

  function SendsProfile(s: NodeState): bool { s.broadcastProfile && s.recvAdv < CONST_K }

  /** The profile timer has expired and send_profile has run. */
  function AfterProfile(s: NodeState): (r: NodeState)
    ensures s.Valid() ==> r.Valid()
  {
    s.(broadcastProfile := s.broadcastProfile && !SendsProfile(s), ctl := s.ctl.(profileTimer := false))
  }

  function VersionVector(pages: seq<Page>): seq<nat> {
    seq(|pages|, i requires 0 <= i < |pages| => pages[i].version)
  }

  /** One page under a version vector entry v. */
  function Renewed(page: Page, v: nat): Page {
    if v > page.version then Page({}, false, v) else page
  }

  function RenewedPages(pages: seq<Page>, versions: seq<nat>): seq<Page>
    requires |versions| == |pages|
  {
    seq(|pages|, i requires 0 <= i < |pages| => Renewed(pages[i], versions[i]))
  }

  /** The object is marked for the version that profile m announces. */
  function Adopted(s: NodeState, m: Message): (r: NodeState)
    requires s.Valid() && m.Profile? && |m.versions| == s.NPages()
    ensures r.Valid()
  {
    var pages := RenewedPages(s.pages, m.versions);
    s.(txSet := {}, pages := pages, rxPage := Highest(pages), updateVersion := m.version)
  }

  function OnProfile(s: NodeState, m: Message): (r: NodeState)
    requires s.Valid() && m.Profile? && |m.versions| == s.NPages()
    ensures r.Valid()
  {
    if m.version <= s.updateVersion then s
    else Adopted(s, m).(ctl := Transition(s.ctl, Rx).(rxTimer := true))
  }

  /** An object loaded by init_object: every page is present. */
  function Fresh(file: seq<Byte>, n: nat, version: nat): NodeState {
    NodeState(version, version, seq(n, _ => Page(ALL_PACKETS, true, version)), file, seq(S_PAGE, _ => 0),
              0, 0, {}, 0, Control(Maintain, false, false, false, false), 0, false)
  }

  /** The message stays within the tables of the node that it is delivered to. */
  predicate Fits(s: NodeState, m: Message) {
    match m
    case Packet(_, _, _, _, _) => InBounds(s, m)
    case Profile(_, versions) => |versions| == s.NPages()
    case _ => true
  }

  function Received(s: NodeState, m: Message, rested: bool): (r: NodeState)
    requires s.Valid() && Fits(s, m)
    ensures r.Valid()
  {
    match m
    case Summary(_, _) => OnSummary(s, m, rested)
    case Request(_, _, _) => OnRequest(s, m)
    case Packet(_, _, _, _, _) => OnPacket(s, m)
    case Profile(_, _) => OnProfile(s, m)
  }

  /** command_dispatcher, for a message that arrives with `len` bytes. */
  function Dispatched(s: NodeState, m: Message, len: nat, rested: bool): (r: NodeState)
    requires s.Valid() && Fits(s, m)
    ensures r.Valid()
  {
    if Passes(m, len) then Received(s, m, rested) else s
  }

  // ---------------------------------------------------------------- the node as the program keeps it

  class Node {
    var version: nat
    var updateVersion: nat
    var pages: seq<Page>
    var file: seq<Byte>
    var buffer: array<Byte>
    var rxPage: nat
    var txPage: int
    var txSet: set<nat>
    var requests: nat
    var mode: Mode
    var rxTimer: bool
    var txTimer: bool
    var summaryTimer: bool
    var profileTimer: bool
    var recvAdv: nat
    var broadcastProfile: bool

    function View(): NodeState
      reads this, buffer
    {
      NodeState(version, updateVersion, pages, file, buffer[..], rxPage, txPage, txSet, requests,
                Control(mode, rxTimer, txTimer, summaryTimer, profileTimer), recvAdv, broadcastProfile)
    }

    ghost predicate Valid()
      reads this, buffer
    {
      View().Valid()
    }

    constructor (data: seq<Byte>, n: nat, v: nat)
      requires n <= 255 && |data| == n * S_PAGE
      ensures Valid() && fresh(buffer)
      ensures View() == Fresh(data, n, v)
    {
      version, updateVersion, file := v, v, data;
      rxPage, txPage, txSet, requests := 0, 0, {}, 0;
      mode, rxTimer, txTimer, summaryTimer, profileTimer := Maintain, false, false, false, false;
      recvAdv, broadcastProfile := 0, false;
      pages := seq(n, _ => Page(ALL_PACKETS, true, v));
      buffer := new Byte[S_PAGE](_ => 0);
      new;
      assert buffer[..] == Fresh(data, n, v).buffer;
    }

    method ChangeMode(m: Mode)
      modifies this`mode, this`rxTimer, this`txTimer, this`summaryTimer, this`profileTimer
      ensures View() == old(View()).(ctl := Transition(old(View()).ctl, m))
    {
      if m != mode {
        match mode {
          case Maintain => summaryTimer, profileTimer := false, false;
          case Rx => rxTimer := false;
          case Tx => txTimer := false;
        }
        mode := m;
      }
    }

    method HighestAvailable() returns (h: nat)
      ensures h == Highest(pages)
    {
      h := 0;
      while h < |pages| && pages[h].complete
        invariant h <= |pages|
        invariant HighestFrom(pages, 0) == HighestFrom(pages, h)
      {
        h := h + 1;
      }
    }

    method HandleSummary(m: Message, rested: bool)
      requires Valid() && m.Summary?
      modifies this
      ensures buffer == old(buffer)
      ensures View() == OnSummary(old(View()), m, rested)
      ensures Valid()
    {
      var h := HighestAvailable();
      if m.version == version && m.highest == h {
        recvAdv := recvAdv + 1;
      }
      if m.version < version {
        broadcastProfile := true;
      }
      if m.version == updateVersion && h < m.highest <= |pages| && rested {
        ChangeMode(Rx);
        rxTimer := true;
      }
    }

    /** The part of the process that begins a round. */
    method NewRound()
      requires Valid()
      modifies this`recvAdv, this`summaryTimer, this`profileTimer
      ensures View() == AfterRound(old(View())) && Valid()
    {
      recvAdv := 0;
      summaryTimer, profileTimer := true, true;
    }

    method AdvertiseSummary() returns (out: seq<Message>)
      requires Valid() && summaryTimer
      modifies this`summaryTimer
      ensures out == if recvAdv >= CONST_K then [] else [Summary(updateVersion, Highest(pages))]
      ensures View() == AfterSummary(old(View())) && Valid()
    {
      summaryTimer := false;
      if recvAdv >= CONST_K {
        return [];
      }
      var h := HighestAvailable();
      out := [Summary(updateVersion, h)];
    }

    method SendRequest(beyond: Page) returns (m: Message)
      requires Valid() && rxTimer
      modifies this
      ensures buffer == old(buffer)
      ensures m == old(RequestOf(View(), beyond))
      ensures View() == AfterRequest(old(View()))
      ensures Valid()
    {
      rxTimer := false;
      var page := if rxPage < |pages| then pages[rxPage] else beyond;
      m := Request(page.version, rxPage, Missing(page.packetSet));
      requests := requests + 1;
      if requests == CONST_LAMBDA {
        requests := 0;
        ChangeMode(Maintain);
      } else {
        rxTimer := true;
      }
    }

    method HandleRequest(m: Message)
      requires Valid() && m.Request?
      modifies this
      ensures buffer == old(buffer)
      ensures View() == OnRequest(old(View()), m)
      ensures Valid()
    {
      var h := HighestAvailable();
      if m.page < |pages| && m.version == version && m.page <= h {
        if m.page == txPage {
          txSet := txSet + m.wanted;
        } else {
          txPage := ToInt8(m.page);
          txSet := m.wanted;
        }
        ChangeMode(Tx);
        txTimer := true;
      }
    }

    method SendPage(p: nat) returns (out: seq<Message>)
      requires Valid() && p < |pages|
      modifies this`txSet
      ensures out == PacketsFrom(old(View()), p, 0)
      ensures txSet == {}
    {
      hide CrcData, PacketOf, PageOf;
      ghost var s := View();
      var data := PageOf(file, p);
      out := [];
      assert out + PacketsFrom(s, p, 0) == PacketsFrom(s, p, 0);
      for k := 0 to N_PKT
        invariant View() == s && out + PacketsFrom(s, p, k) == PacketsFrom(s, p, 0)
      {
        var m := MakePacket(p, data, k);
        PacketsFromStep(s, p, k, out);
        if k in txSet {
          out := out + [m];
        }
      }
      txSet := {};
    }

    method MakePacket(p: nat, data: seq<Byte>, k: nat) returns (m: Message)
      requires Valid() && p < |pages| && k < N_PKT && data == PageOf(file, p)
      ensures m == PacketOf(View(), p, k)
    {
      var payload := SlotOf(data, k);
      m := Packet(pages[p].version, p, k, CrcData(payload, 0), payload);
    }

    method TxCallback() returns (out: seq<Message>)
      requires Valid() && txTimer
      modifies this
      ensures buffer == old(buffer)
      ensures out == PacketsSent(old(View()))
      ensures View() == AfterTx(old(View()))
      ensures Valid()
    {
      if txPage >= 0 && txSet != {} {
        out := SendPage(txPage);
        txPage, txTimer := -1, false;
        ChangeMode(Maintain);
      } else {
        out := [];
        txTimer := false;
      }
    }

    method CopyToBuffer(k: nat, data: seq<Byte>)
      requires k < N_PKT && |data| == S_PKT && buffer.Length == S_PAGE
      modifies buffer
      ensures buffer[..] == WithSlot(old(buffer[..]), k, data)
    {
      forall i | 0 <= i < S_PKT {
        buffer[k * S_PKT + i] := data[i];
      }
    }

    method FinishPage(p: nat)
      requires Valid() && p == rxPage < |pages|
      modifies this
      ensures buffer == old(buffer)
      ensures View() == Completed(old(View()), p)
    {
      hide WithPage, Transition;
      file := WithPage(file, p, buffer[..]);
      pages := pages[p := pages[p].(complete := true)];
      rxPage := rxPage + 1;
      if p == |pages| - 1 {
        version := updateVersion;
      } else {
        rxTimer := true;
      }
      ChangeMode(Maintain);
    }

    method StorePacket(m: Message) returns (whole: bool)
      requires Valid() && m.Packet? && InBounds(View(), m) && Wanted(View(), m)
      modifies this`pages, buffer
      ensures View() ==
        var s1 := old(View()).(buffer := WithSlot(old(buffer[..]), m.slot, m.payload));
        var page := old(pages[m.page]);
        if m.crc != CrcData(m.payload, 0) then s1
        else s1.(pages := old(pages)[m.page := page.(packetSet := page.packetSet + {m.slot})])
      ensures whole <==> m.crc == CrcData(m.payload, 0) && old(pages[m.page]).packetSet + {m.slot} == ALL_PACKETS
    {
      CopyToBuffer(m.slot, m.payload);
      whole := false;
      if m.crc == CrcData(m.payload, 0) {
        var page := pages[m.page];
        pages := pages[m.page := page.(packetSet := page.packetSet + {m.slot})];
        whole := page.packetSet + {m.slot} == ALL_PACKETS;
      }
    }

    method HandlePacket(m: Message)
      requires Valid() && m.Packet? && InBounds(View(), m)
      modifies this, buffer
      ensures buffer == old(buffer)
      ensures View() == OnPacket(old(View()), m)
      ensures Valid()
    {
      if m.page == rxPage && m.version == pages[m.page].version && !pages[m.page].complete {
        var whole := StorePacket(m);
        if whole {
          FinishPage(m.page);
        }
      }
    }

    method SendProfile() returns (out: seq<Message>)
      requires Valid() && profileTimer
      modifies this`broadcastProfile, this`profileTimer
      ensures View() == AfterProfile(old(View())) && Valid()
      ensures out == old(if SendsProfile(View()) then [Profile(version, VersionVector(pages))] else [])
    {
      out, profileTimer := [], false;
      if broadcastProfile && recvAdv < CONST_K {
        broadcastProfile := false;
        var vector: seq<nat> := [];
        ghost var all := VersionVector(pages);
        for i := 0 to |pages|
          invariant vector == all[..i]
        {
          vector := vector + [pages[i].version];
        }
        assert vector == all;
        out := [Profile(version, vector)];
      }
    }

    /** The page table in its newly allocated copy. */
    static method RenewPages(table: seq<Page>, versions: seq<nat>) returns (copy: seq<Page>)
      requires |versions| == |table|
      ensures copy == RenewedPages(table, versions)
    {
      copy := table;
      for i := 0 to |table|
        invariant |copy| == |table|
        invariant forall j | 0 <= j < i :: copy[j] == Renewed(table[j], versions[j])
        invariant copy[i..] == table[i..]
      {
        if versions[i] > copy[i].version {
          copy := copy[i := Page({}, false, versions[i])];
        }
      }
    }

    method Adopt(m: Message)
      requires Valid() && m.Profile? && |m.versions| == |pages|
      modifies this`txSet, this`pages, this`rxPage, this`updateVersion
      ensures View() == Adopted(old(View()), m)
    {
      var copy := RenewPages(pages, m.versions);
      txSet, pages, updateVersion := {}, copy, m.version;
      rxPage := HighestAvailable();
    }

    method HandleProfile(m: Message)
      requires Valid() && m.Profile? && |m.versions| == |pages|
      modifies this
      ensures buffer == old(buffer)
      ensures View() == OnProfile(old(View()), m)
      ensures Valid()
    {
      if m.version > updateVersion {
        Adopt(m);
        ChangeMode(Rx);
        rxTimer := true;
      }
    }

    /** command_dispatcher. */
    method Dispatch(m: Message, len: nat, rested: bool)
      requires Valid() && Fits(View(), m)
      modifies this, buffer
      ensures buffer == old(buffer)
      ensures View() == Dispatched(old(View()), m, len, rested)
      ensures Valid()
    {
      if len < HeadSize(m) {
        return;
      }
      match m
      case Summary(_, _) => HandleSummary(m, rested);
      case Request(_, _, _) => HandleRequest(m);
      case Packet(_, _, _, _, _) => HandlePacket(m);
      case Profile(_, versions) =>
        if versions == [] || len >= HeadSize(m) + |versions| * versions[0] {
          HandleProfile(m);
        }
    }
  }
}
