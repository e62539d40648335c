/** Runs of a lockstep game: peers that exchange control packets over a network that loses, duplicates and
  reorders them.  The network is the set of all packets ever sent; a delivery takes any of them, at any time. */
module Lockstep {
  import opened Arithmetic
  import opened Controls

  /** `accepted` is history only: `(b, a)` is in it once `b` has accepted a packet from `a`. */
  datatype Network = Network(peers: seq<State>, sent: set<Packet>, accepted: set<(int, int)>)

  datatype Step =
    | ReadStep(peer: int, state: Byte)
    | UnreadStep(peer: int)
    | SendStep(peer: int, checksum: int)
    | DeliverStep(peer: int, packet: Packet)
    | MarkValidStep(peer: int)

  ghost predicate Init(w: Network) {
    && 1 <= |w.peers| <= MAX_PLAYERS
    && (forall i :: 0 <= i < |w.peers| ==> w.peers[i] == NewLevel(w.peers[i], w.peers[i].startingCycles, |w.peers|, i))
    && w.sent == {} && w.accepted == {}
  }

  /** The state of the peer that sits in seat `i` of a game of `n` players. */
  ghost predicate SeatOk(s: State, n: int, i: int) {
    && 0 <= i < n <= MAX_PLAYERS
    && s.Consistent() && s.nplayers == n && s.localPlayer == i && IsInt32(|s.rows[i]|)
  }

  ghost predicate SeatsOk(w: Network) {
    forall i :: 0 <= i < |w.peers| ==> SeatOk(w.peers[i], |w.peers|, i)
  }

  /** A local row stays within the 32 bits of its counter, and a cycle that was sent is never unread. */
  ghost predicate Enabled(w: Network, step: Step) {
    && 0 <= step.peer < |w.peers|
    && SeatOk(w.peers[step.peer], |w.peers|, step.peer)
    && match step
       case ReadStep(i, _) => IsInt32(|w.peers[i].rows[i]| + 1)
       case UnreadStep(i) => forall p :: p in w.sent && p.slot == i ==> p.current < |w.peers[i].rows[i]| - 1
       case SendStep(_, checksum) => IsInt32(checksum)
       case DeliverStep(_, packet) => packet in w.sent && packet.Valid()
       case MarkValidStep(_) => true
  }

  ghost function Apply(w: Network, step: Step): Network
    requires Enabled(w, step)
  {
    var s := w.peers[step.peer];
    match step
    case ReadStep(i, state) => w.(peers := w.peers[i := ReadLocal(s, state)])
    case UnreadStep(i) => w.(peers := w.peers[i := UnreadLocal(s)])
    case SendStep(i, checksum) => w.(sent := w.sent + {PacketOf(s, checksum)})
    case DeliverStep(i, packet) =>
      EncodeRoundTrip(packet);
      w.(peers := w.peers[i := Receive(s, Encode(packet))],
         accepted := if InOrder(s, packet.slot, packet.current) then w.accepted + {(i, packet.slot)} else w.accepted)
    case MarkValidStep(i) => w.(peers := w.peers[i := s.(firstInvalid := -1)])
  }

  ghost predicate Next(w: Network, w': Network) {
    exists step :: Enabled(w, step) && w' == Apply(w, step)
  }

  ghost predicate IsRun(run: seq<Network>) {
    run != [] && forall i :: 0 <= i < |run| - 1 ==> Next(run[i], run[i + 1])
  }

  ghost predicate Reachable(w: Network) {
    exists run :: IsRun(run) && Init(run[0]) && run[|run| - 1] == w
  }

  // ---------------------------------------------------------------------------------------------
  // The invariant
  // ---------------------------------------------------------------------------------------------

  /** The packet carries a window of the row of its sender `s`, and acknowledges no more than `s` has confirmed. */
  ghost predicate Carries(p: Packet, s: State, n: int)
    requires s.Valid() && 0 <= n <= MAX_PLAYERS
  {
    && p.Valid() && p.slot < n
    && 0 <= p.Start() && p.current < |s.rows[p.slot]|
    && p.states == s.rows[p.slot][p.Start()..p.current + 1]
    && forall b :: 0 <= b < n && b != p.slot ==> p.ack <= s.confirmed[b]
  }

  /** The window starts at or below what the receiver `s` has confirmed: accepting it leaves no gap. */
  ghost predicate LeavesNoGap(p: Packet, s: State)
    requires s.Valid() && 0 <= p.slot < MAX_PLAYERS
  {
    p.Start() <= s.confirmed[p.slot]
  }

  /** The row that `sb` keeps for `a` is the own row of `sa` up to the cycle that `sb` has confirmed. */
  ghost predicate Agrees(sa: State, sb: State, a: int)
    requires sa.Valid() && sb.Valid() && 0 <= a < MAX_PLAYERS
  {
    var confirmed := sb.confirmed[a];
    && confirmed < |sa.rows[a]| && confirmed < |sb.rows[a]|
    && sb.rows[a][..confirmed + 1] == sa.rows[a][..confirmed + 1]
  }

  ghost predicate WasSent(sent: set<Packet>, a: int, current: int) {
    exists p :: p in sent && p.slot == a && p.current == current
  }

  ghost predicate AllZero(row: seq<Byte>) {
    forall i :: 0 <= i < |row| ==> row[i] == 0
  }

  /** What peer `a` believes `b` has confirmed is true.  What `b` has confirmed of `a` was sent and agrees; before it
      has accepted a packet it predicts nothing but zeros. */
  ghost predicate Linked(sa: State, sb: State, a: int, b: int, accepted: bool, sent: set<Packet>)
    requires sa.Valid() && sb.Valid() && 0 <= a < MAX_PLAYERS && 0 <= b < MAX_PLAYERS
  {
    && sa.acked[b] <= sb.confirmed[a]
    && (!accepted ==> sb.confirmed[a] == 0 && AllZero(sb.rows[a]))
    && (accepted ==> Agrees(sa, sb, a) && WasSent(sent, a, sb.confirmed[a]))
  }

  ghost predicate PacketOk(w: Network, p: Packet)
    requires SeatsOk(w)
  {
    && 0 <= p.slot < |w.peers|
    && Carries(p, w.peers[p.slot], |w.peers|)
    && forall b :: 0 <= b < |w.peers| && b != p.slot ==> LeavesNoGap(p, w.peers[b])
  }

  ghost predicate PairOk(w: Network, a: int, b: int)
    requires SeatsOk(w) && 0 <= a < |w.peers| && 0 <= b < |w.peers|
  {
    Linked(w.peers[a], w.peers[b], a, b, (b, a) in w.accepted, w.sent)
  }

  ghost predicate Inv(w: Network) {
    && 1 <= |w.peers| <= MAX_PLAYERS
    && SeatsOk(w)
    && (forall p :: p in w.sent ==> PacketOk(w, p))
    && (forall a, b :: 0 <= a < |w.peers| && 0 <= b < |w.peers| && a != b ==> PairOk(w, a, b))
  }

  lemma InitEstablishesInv(w: Network)
    requires Init(w)
    ensures Inv(w)
  {
    forall i | 0 <= i < |w.peers|
      ensures SeatOk(w.peers[i], |w.peers|, i)
    {
      assert w.peers[i] == NewLevel(w.peers[i], w.peers[i].startingCycles, |w.peers|, i);
    }
  }

  /** A step that changes one peer only has to look at that peer and its links. */
  lemma ReplacingKeepsInv(w: Network, i: int, s: State, accepted: set<(int, int)>)
    requires Inv(w) && 0 <= i < |w.peers| && SeatOk(s, |w.peers|, i)
    requires forall p :: p in w.sent && p.slot == i ==> Carries(p, s, |w.peers|)
    requires forall a :: 0 <= a < |w.peers| && a != i ==> s.confirmed[a] >= w.peers[i].confirmed[a]
    requires forall a :: 0 <= a < |w.peers| && a != i ==>
               && Linked(w.peers[a], s, a, i, (i, a) in accepted, w.sent)
               && Linked(s, w.peers[a], i, a, (a, i) in accepted, w.sent)
    requires forall a, b :: b != i ==> ((b, a) in accepted <==> (b, a) in w.accepted)
    ensures Inv(Network(w.peers[i := s], w.sent, accepted))
  {
    var w' := Network(w.peers[i := s], w.sent, accepted);
    assert SeatsOk(w');
    forall p | p in w'.sent
      ensures PacketOk(w', p)
    {
      assert PacketOk(w, p);
      forall b | 0 <= b < |w.peers| && b != p.slot
        ensures LeavesNoGap(p, w'.peers[b])
      {
        assert LeavesNoGap(p, w.peers[b]);
      }
    }
    forall a, b | 0 <= a < |w.peers| && 0 <= b < |w.peers| && a != b
      ensures PairOk(w', a, b)
    {
      assert PairOk(w, a, b);
    }
  }

  lemma ExtendedAgrees(own: seq<Byte>, row: seq<Byte>, len: nat, k: nat)
    requires k < |own| && k < |row| && row[..k + 1] == own[..k + 1]
    ensures k < |Extended(row, len)| && Extended(row, len)[..k + 1] == own[..k + 1]
  {
    assert Extended(row, len)[..k + 1] == row[..k + 1];
  }

  lemma ExtendedStaysZero(row: seq<Byte>, len: nat)
    requires AllZero(row)
    ensures AllZero(Extended(row, len))
  {
  }

  lemma ReadKeepsLinks(s: State, state: Byte, other: State, i: int, a: int, n: int, ia: bool, ai: bool,
                       sent: set<Packet>)
    requires SeatOk(s, n, i) && SeatOk(other, n, a) && a != i
    requires Linked(other, s, a, i, ia, sent) && Linked(s, other, i, a, ai, sent)
    ensures var t := ReadLocal(s, state);
      t.Valid() && Linked(other, t, a, i, ia, sent) && Linked(t, other, i, a, ai, sent)
  {
    hide Extended;
    ReadLocalKeepsConsistent(s, state);
    var t, len := ReadLocal(s, state), |s.rows[i]| + 1;
    assert t.rows[a] == Extended(s.rows[a], len) && t.rows[i] == s.rows[i] + [state];
    if ia {
      ExtendedAgrees(other.rows[a], s.rows[a], len, s.confirmed[a]);
    } else {
      ExtendedStaysZero(s.rows[a], len);
    }
    if ai {
      var k := other.confirmed[i] + 1;
      assert t.rows[i][..k] == s.rows[i][..k];
    }
  }

  lemma ReadKeepsInv(w: Network, i: int, state: Byte)
    requires Inv(w) && Enabled(w, ReadStep(i, state))
    ensures Inv(Apply(w, ReadStep(i, state)))
  {
    hide Linked, ReadLocal;
    var s := w.peers[i];
    var t := ReadLocal(s, state);
    ReadLocalKeepsConsistent(s, state);
    ReadingIsLocal(s, state, i, |w.peers|);
    forall p | p in w.sent && p.slot == i
      ensures Carries(p, t, |w.peers|)
    {
      assert PacketOk(w, p);
      assert t.rows[i][p.Start()..p.current + 1] == s.rows[i][p.Start()..p.current + 1];
    }
    forall a | 0 <= a < |w.peers| && a != i
      ensures Linked(w.peers[a], t, a, i, (i, a) in w.accepted, w.sent)
      ensures Linked(t, w.peers[a], i, a, (a, i) in w.accepted, w.sent)
    {
      assert PairOk(w, a, i) && PairOk(w, i, a);
      ReadKeepsLinks(s, state, w.peers[a], i, a, |w.peers|, (i, a) in w.accepted, (a, i) in w.accepted, w.sent);
    }
    ReplacingKeepsInv(w, i, t, w.accepted);
  }

  /** What a local read changes for the peer in seat `i`. */
  lemma ReadingIsLocal(s: State, state: Byte, i: int, n: int)
    requires SeatOk(s, n, i)
    ensures var t := ReadLocal(s, state);
      && t.Consistent() && t.nplayers == n && t.localPlayer == i
      && t.rows[i] == s.rows[i] + [state]
      && forall a :: 0 <= a < n && a != i ==> t.confirmed[a] == s.confirmed[a]
  {
    ReadLocalKeepsConsistent(s, state);
  }

  /** What taking a local read back changes for the peer in seat `i`, if it was not sent. */
  lemma UnreadingIsLocal(w: Network, i: int)
    requires Enabled(w, UnreadStep(i))
    ensures var s, t := w.peers[i], UnreadLocal(w.peers[i]);
      && SeatOk(t, |w.peers|, i)
      && t.rows[i] <= s.rows[i]
      && (forall a :: 0 <= a < |w.peers| && a != i ==> t.confirmed[a] == s.confirmed[a] && t.rows[a] == s.rows[a])
      && t.acked == s.acked
      && forall p :: p in w.sent && p.slot == i ==> p.current < |t.rows[i]|
  {
    UnreadLocalKeepsConsistent(w.peers[i]);
  }

  lemma UnreadKeepsLinks(s: State, t: State, other: State, i: int, a: int, n: int, ia: bool, ai: bool,
                         sent: set<Packet>)
    requires SeatOk(s, n, i) && SeatOk(t, n, i) && SeatOk(other, n, a) && a != i
    requires t.rows[i] <= s.rows[i] && t.rows[a] == s.rows[a] && t.confirmed[a] == s.confirmed[a] && t.acked == s.acked
    requires forall p :: p in sent && p.slot == i ==> p.current < |t.rows[i]|
    requires Linked(other, s, a, i, ia, sent) && Linked(s, other, i, a, ai, sent)
    ensures Linked(other, t, a, i, ia, sent) && Linked(t, other, i, a, ai, sent)
  {
    if ai {
      var k := other.confirmed[i];
      var p :| p in sent && p.slot == i && p.current == k;
      assert t.rows[i][..k + 1] == s.rows[i][..k + 1];
    }
  }

  lemma UnreadKeepsInv(w: Network, i: int)
    requires Inv(w) && Enabled(w, UnreadStep(i))
    ensures Inv(Apply(w, UnreadStep(i)))
  {
    hide Linked, UnreadLocal;
    var s := w.peers[i];
    var t := UnreadLocal(s);
    UnreadingIsLocal(w, i);
    forall p | p in w.sent && p.slot == i
      ensures Carries(p, t, |w.peers|)
    {
      assert PacketOk(w, p);
      assert t.rows[i][p.Start()..p.current + 1] == s.rows[i][p.Start()..p.current + 1];
    }
    forall a | 0 <= a < |w.peers| && a != i
      ensures Linked(w.peers[a], t, a, i, (i, a) in w.accepted, w.sent)
      ensures Linked(t, w.peers[a], i, a, (a, i) in w.accepted, w.sent)
    {
      assert PairOk(w, a, i) && PairOk(w, i, a);
      UnreadKeepsLinks(s, t, w.peers[a], i, a, |w.peers|, (i, a) in w.accepted, (a, i) in w.accepted, w.sent);
    }
    ReplacingKeepsInv(w, i, t, w.accepted);
  }

  /** The window of a fresh packet ends at the last cycle and starts at or below every peer's acknowledgement. */
  lemma WindowStartsAtAcknowledged(s: State, checksum: int)
    requires s.Consistent() && s.HasLocalPlayer()
    ensures var p := PacketOf(s, checksum);
      && 0 <= p.Start()
      && p.states == s.rows[s.localPlayer][p.Start()..p.current + 1]
      && (forall b :: 0 <= b < s.nplayers && b != s.localPlayer ==> p.Start() <= s.acked[b] && p.ack <= s.confirmed[b])
      && 0 <= p.ack <= s.confirmed[s.localPlayer]
  {
    LeastIsMinimum(s.acked, s.nplayers, s.localPlayer);
    LeastIsMinimum(s.confirmed, s.nplayers, -1);
  }

  lemma SendKeepsInv(w: Network, i: int, checksum: int)
    requires Inv(w) && Enabled(w, SendStep(i, checksum))
    ensures Inv(Apply(w, SendStep(i, checksum)))
  {
    var w' := Apply(w, SendStep(i, checksum));
    var packet := PacketOf(w.peers[i], checksum);
    WindowStartsAtAcknowledged(w.peers[i], checksum);
    assert SeatsOk(w');
    forall p | p in w'.sent
      ensures PacketOk(w', p)
    {
      if p == packet {
        forall b | 0 <= b < |w.peers| && b != i
          ensures LeavesNoGap(p, w.peers[b])
        {
          assert PairOk(w, i, b);
        }
      } else {
        assert PacketOk(w, p);
      }
    }
    forall a, b | 0 <= a < |w.peers| && 0 <= b < |w.peers| && a != b
      ensures PairOk(w', a, b)
    {
      assert PairOk(w, a, b);
    }
  }

  /** What a merge leaves between the confirmed cycle and the window: the prediction, or the first state of the window
      where there was none. */
  function Guess(row: seq<Byte>, states: seq<Byte>, i: nat): Byte {
    if i < |row| then row[i] else if states != [] then states[0] else 0
  }

  /** A packet says, and leaves to be guessed, what the sender's row has from the confirmed cycle to the packet's last:
      that cycle is stored, the guesses before the window are right, and the window has the sender's states. */
  ghost predicate SaysWhatFollows(own: seq<Byte>, row: seq<Byte>, confirmed: nat, current: nat, states: seq<Byte>)
    requires confirmed <= current < |own|
  {
    var start := 1 + current - |states|;
    && (states != [] || current < |row|)
    && (forall i :: confirmed <= i < start ==> own[i] == Guess(row, states, i))
    && Fresh(start, confirmed, states) == own[Max(start, confirmed)..current + 1]
  }

  lemma MergedEntry(own: seq<Byte>, row: seq<Byte>, confirmed: nat, current: nat, states: seq<Byte>, i: nat)
    requires confirmed <= current < |own| && i <= current
    requires confirmed == 0 || (confirmed < |row| && row[..confirmed + 1] == own[..confirmed + 1])
    requires current < |Merged(row, confirmed, current, states)|
    ensures var first := Max(1 + current - |states|, confirmed);
      var bytes := Fresh(1 + current - |states|, confirmed, states);
      && first + |bytes| == current + 1
      && Merged(row, confirmed, current, states)[i]
         == if i < confirmed then own[i] else if i < first then Guess(row, states, i) else bytes[i - first]
  {
    hide Merged;
    MergedEntries(row, confirmed, current, states);
    if i < confirmed {
      assert row[..confirmed + 1][i] == own[..confirmed + 1][i];
    }
  }

  /** A merge agrees with the sender's row to the packet's last cycle if and only if the packet says what follows. */
  lemma MergedAgreesExactly(own: seq<Byte>, row: seq<Byte>, confirmed: nat, current: nat, states: seq<Byte>)
    requires confirmed <= current < |own|
    requires confirmed == 0 || (confirmed < |row| && row[..confirmed + 1] == own[..confirmed + 1])
    ensures var r := Merged(row, confirmed, current, states);
      current < |r| && r[..current + 1] == own[..current + 1]
      <==> SaysWhatFollows(own, row, confirmed, current, states)
  {
    hide Merged, Fresh, Guess;
    var start, r := 1 + current - |states|, Merged(row, confirmed, current, states);
    StoredAfterMerge(row, confirmed, current, states);
    if current < |r| {
      var first, bytes := Max(start, confirmed), Fresh(start, confirmed, states);
      MergedEntry(own, row, confirmed, current, states, 0);
      forall i | 0 <= i <= current
        ensures r[i] == if i < confirmed then own[i] else if i < first then Guess(row, states, i) else bytes[i - first]
      {
        MergedEntry(own, row, confirmed, current, states, i);
      }
      EntriesAgreeExactly(own, row, confirmed, current, states, r);
    }
  }

  lemma StoredAfterMerge(row: seq<Byte>, confirmed: nat, current: nat, states: seq<Byte>)
    requires confirmed <= current
    ensures current < |Merged(row, confirmed, current, states)| <==> states != [] || current < |row|
  {
    FreshIsEmptyExactly(confirmed, current, states);
  }

  lemma EntriesAgreeExactly(own: seq<Byte>, row: seq<Byte>, confirmed: nat, current: nat, states: seq<Byte>,
                            r: seq<Byte>)
    requires confirmed <= current < |own| && current < |r| && (states != [] || current < |row|)
    requires var first := Max(1 + current - |states|, confirmed);
      var bytes := Fresh(1 + current - |states|, confirmed, states);
      && first + |bytes| == current + 1
      && forall i :: 0 <= i <= current ==>
           r[i] == if i < confirmed then own[i] else if i < first then Guess(row, states, i) else bytes[i - first]
    ensures r[..current + 1] == own[..current + 1] <==> SaysWhatFollows(own, row, confirmed, current, states)
  {
    hide Fresh, Guess;
    var first := Max(1 + current - |states|, confirmed);
    var bytes := Fresh(1 + current - |states|, confirmed, states);
    if r[..current + 1] == own[..current + 1] {
      forall i | 0 <= i <= current
        ensures r[i] == own[i]
      {
        assert r[..current + 1][i] == own[..current + 1][i];
      }
      assert bytes == own[first..current + 1];
    }
    if SaysWhatFollows(own, row, confirmed, current, states) {
      forall i | 0 <= i <= current
        ensures r[i] == own[i]
      {
        if first <= i {
          assert own[first..current + 1][i - first] == own[i];
        }
      }
    }
  }

  lemma MergedAgrees(own: seq<Byte>, row: seq<Byte>, confirmed: nat, current: nat, states: seq<Byte>)
    requires confirmed <= current < |own|
    requires var start := 1 + current - |states|; 0 <= start <= confirmed && states == own[start..current + 1]
    requires confirmed == 0 || (confirmed < |row| && row[..confirmed + 1] == own[..confirmed + 1])
    ensures var r := Merged(row, confirmed, current, states);
      current < |r| && r[..current + 1] == own[..current + 1]
  {
    hide Merged;
    var start := 1 + current - |states|;
    FreshOfWindow(own, start, confirmed, current);
    assert states != [];
    MergedAgreesExactly(own, row, confirmed, current, states);
  }

  lemma FreshOfWindow(own: seq<Byte>, start: nat, confirmed: nat, current: nat)
    requires start <= confirmed <= current < |own|
    ensures Fresh(start, confirmed, own[start..current + 1]) == own[confirmed..current + 1]
  {
  }

  /** What an accepted packet changes in the state of its receiver. */
  lemma ReceivePacketEffect(s: State, p: Packet, n: int, b: int)
    requires SeatOk(s, n, b) && InOrder(s, p.slot, p.current)
    ensures var t := ReceivePacket(s, p);
      && SeatOk(t, n, b)
      && t.rows == s.rows[p.slot := Merged(s.rows[p.slot], s.confirmed[p.slot], p.current, p.states)]
      && t.confirmed == s.confirmed[p.slot := p.current]
      && t.acked == s.acked[p.slot := Max(s.acked[p.slot], p.ack)]
  {
    AcceptedKeepsConsistent(Acknowledged(s, p.slot, p.ack), p.slot, p.current, p.states);
  }

  /** `t` is what the receiver `sb` becomes: it agrees with `sa` up to the packet's last cycle. */
  lemma LinksAfterAcceptance(sa: State, sb: State, t: State, a: int, b: int, p: Packet, ba: bool, ab: bool,
                             sent: set<Packet>)
    requires a != b && 0 <= a < MAX_PLAYERS && 0 <= b < MAX_PLAYERS && sa.Valid() && sb.Valid() && t.Valid()
    requires p in sent && p.slot == a && 0 <= p.current < |sa.rows[a]| && p.ack <= sa.confirmed[b]
    requires Linked(sa, sb, a, b, ba, sent) && Linked(sb, sa, b, a, ab, sent)
    requires sb.confirmed[a] <= p.current && t.confirmed == sb.confirmed[a := p.current]
    requires t.acked == sb.acked[a := Max(sb.acked[a], p.ack)]
    requires t.rows[b] == sb.rows[b]
    requires p.current < |t.rows[a]| && t.rows[a][..p.current + 1] == sa.rows[a][..p.current + 1]
    ensures Linked(sa, t, a, b, true, sent) && Linked(t, sa, b, a, ab, sent)
  {
  }

  lemma DeliverKeepsLinks(sa: State, sb: State, a: int, b: int, n: int, p: Packet, ba: bool, ab: bool,
                          sent: set<Packet>)
    requires a != b && SeatOk(sa, n, a) && SeatOk(sb, n, b)
    requires p in sent && p.slot == a && Carries(p, sa, n) && LeavesNoGap(p, sb) && InOrder(sb, a, p.current)
    requires Linked(sa, sb, a, b, ba, sent) && Linked(sb, sa, b, a, ab, sent)
    ensures var t := ReceivePacket(sb, p);
      && SeatOk(t, n, b)
      && Linked(sa, t, a, b, true, sent) && Linked(t, sa, b, a, ab, sent)
  {
    ReceivePacketEffect(sb, p, n, b);
    RowAfterAcceptance(sa, sb, a, b, n, p, ba, sent);
    LinksAfterAcceptance(sa, sb, ReceivePacket(sb, p), a, b, p, ba, ab, sent);
  }

  lemma RowAfterAcceptance(sa: State, sb: State, a: int, b: int, n: int, p: Packet, ba: bool, sent: set<Packet>)
    requires sa.Valid() && sb.Valid() && 0 <= a < n <= MAX_PLAYERS && 0 <= b < MAX_PLAYERS
    requires p.slot == a && Carries(p, sa, n) && LeavesNoGap(p, sb) && InOrder(sb, a, p.current)
    requires Linked(sa, sb, a, b, ba, sent)
    ensures var row := Merged(sb.rows[a], sb.confirmed[a], p.current, p.states);
      p.current < |row| && row[..p.current + 1] == sa.rows[a][..p.current + 1]
  {
    hide Merged, Carries, LeavesNoGap, Linked;
    var own, row, confirmed := sa.rows[a], sb.rows[a], sb.confirmed[a];
    CarriedWindow(sa, sb, a, n, p);
    LinkedRowAgrees(sa, sb, a, b, ba, sent);
    MergedAgrees(own, row, confirmed, p.current, p.states);
  }

  lemma CarriedWindow(sa: State, sb: State, a: int, n: int, p: Packet)
    requires sa.Valid() && sb.Valid() && 0 <= a < n <= MAX_PLAYERS
    requires p.slot == a && Carries(p, sa, n) && LeavesNoGap(p, sb) && InOrder(sb, a, p.current)
    ensures sb.confirmed[a] <= p.current < |sa.rows[a]|
    ensures var start := 1 + p.current - |p.states|;
      0 <= start <= sb.confirmed[a] && p.states == sa.rows[a][start..p.current + 1]
  {
  }

  lemma LinkedRowAgrees(sa: State, sb: State, a: int, b: int, accepted: bool, sent: set<Packet>)
    requires sa.Valid() && sb.Valid() && 0 <= a < MAX_PLAYERS && 0 <= b < MAX_PLAYERS
    requires Linked(sa, sb, a, b, accepted, sent)
    ensures var confirmed := sb.confirmed[a];
      || confirmed == 0
      || (confirmed < |sb.rows[a]| && confirmed < |sa.rows[a]|
          && sb.rows[a][..confirmed + 1] == sa.rows[a][..confirmed + 1])
  {
  }

  lemma ReceiverStillCarried(w: Network, b: int, t: State, p: Packet, q: Packet)
    requires Inv(w) && 0 <= b < |w.peers| && 0 <= p.slot < |w.peers| && p.slot != b
    requires q in w.sent && q.slot == b && t.Valid()
    requires t.rows[b] == w.peers[b].rows[b]
    requires forall a :: 0 <= a < |w.peers| ==> t.confirmed[a] >= w.peers[b].confirmed[a]
    ensures Carries(q, t, |w.peers|)
  {
    assert PacketOk(w, q);
  }

  lemma AcceptedPacketKeepsInv(w: Network, b: int, p: Packet)
    requires Inv(w) && p in w.sent && 0 <= b < |w.peers| && InOrder(w.peers[b], p.slot, p.current)
    ensures Inv(Network(w.peers[b := ReceivePacket(w.peers[b], p)], w.sent, w.accepted + {(b, p.slot)}))
  {
    hide Merged, ReceivePacket, Carries;
    var s, n, accepted := w.peers[b], |w.peers|, w.accepted + {(b, p.slot)};
    var t := ReceivePacket(s, p);
    ReceivePacketEffect(s, p, n, b);
    assert PacketOk(w, p);
    forall q | q in w.sent && q.slot == b
      ensures Carries(q, t, n)
    {
      ReceiverStillCarried(w, b, t, p, q);
    }
    forall a | 0 <= a < n && a != b
      ensures Linked(w.peers[a], t, a, b, (b, a) in accepted, w.sent)
      ensures Linked(t, w.peers[a], b, a, (a, b) in accepted, w.sent)
    {
      assert PairOk(w, a, b) && PairOk(w, b, a);
      if a == p.slot {
        assert LeavesNoGap(p, s);
        DeliverKeepsLinks(w.peers[a], s, a, b, n, p, (b, a) in w.accepted, (a, b) in w.accepted, w.sent);
      }
    }
    ReplacingKeepsInv(w, b, t, accepted);
  }

  lemma DeliverKeepsInv(w: Network, b: int, p: Packet)
    requires Inv(w) && Enabled(w, DeliverStep(b, p))
    ensures Inv(Apply(w, DeliverStep(b, p)))
  {
    ReceiveDecodes(w.peers[b], p);
    if InOrder(w.peers[b], p.slot, p.current) {
      AcceptedPacketKeepsInv(w, b, p);
    } else {
      assert w.peers[b := w.peers[b]] == w.peers;
    }
  }

  lemma MarkValidKeepsInv(w: Network, i: int)
    requires Inv(w) && Enabled(w, MarkValidStep(i))
    ensures Inv(Apply(w, MarkValidStep(i)))
  {
    var t := w.peers[i].(firstInvalid := -1);
    forall p | p in w.sent && p.slot == i
      ensures Carries(p, t, |w.peers|)
    {
      assert PacketOk(w, p);
    }
    forall a | 0 <= a < |w.peers| && a != i
      ensures Linked(w.peers[a], t, a, i, (i, a) in w.accepted, w.sent)
      ensures Linked(t, w.peers[a], i, a, (a, i) in w.accepted, w.sent)
    {
      assert PairOk(w, a, i) && PairOk(w, i, a);
    }
    ReplacingKeepsInv(w, i, t, w.accepted);
  }

  lemma NextKeepsInv(w: Network, w': Network)
    requires Inv(w) && Next(w, w')
    ensures Inv(w')
  {
    var step :| Enabled(w, step) && w' == Apply(w, step);
    match step
    case ReadStep(i, state) => ReadKeepsInv(w, i, state);
    case UnreadStep(i) => UnreadKeepsInv(w, i);
    case SendStep(i, checksum) => SendKeepsInv(w, i, checksum);
    case DeliverStep(i, packet) => DeliverKeepsInv(w, i, packet);
    case MarkValidStep(i) => MarkValidKeepsInv(w, i);
  }

  lemma {:induction false} RunKeepsInv(run: seq<Network>, i: nat)
    requires IsRun(run) && Inv(run[0]) && i < |run|
    ensures Inv(run[i])
  {
    if i > 0 {
      RunKeepsInv(run, i - 1);
      NextKeepsInv(run[i - 1], run[i]);
    }
  }

  lemma ReachableInv(w: Network)
    requires Reachable(w)
    ensures Inv(w)
  {
    var run :| IsRun(run) && Init(run[0]) && run[|run| - 1] == w;
    InitEstablishesInv(run[0]);
    RunKeepsInv(run, |run| - 1);
  }

  // ---------------------------------------------------------------------------------------------
  // What holds in every reachable state
  // ---------------------------------------------------------------------------------------------

  /** Agreement: once `b` has accepted a packet from `a`, the two rows for `a` are equal up to what `b` has
      confirmed, whatever was lost, duplicated or reordered. */
  lemma Agreement(w: Network, a: int, b: int)
    requires Reachable(w) && 0 <= a < |w.peers| && 0 <= b < |w.peers| && a != b && (b, a) in w.accepted
    ensures w.peers[a].Valid() && w.peers[b].Valid() && a < MAX_PLAYERS && Agrees(w.peers[a], w.peers[b], a)
  {
    ReachableInv(w);
    assert PairOk(w, a, b);
  }

  /** No gaps: acknowledgements are never ahead of the truth, so no window that was sent, or would be sent now,
      starts above what any other peer has confirmed. */
  lemma NoGaps(w: Network, a: int, b: int, checksum: int)
    requires Reachable(w) && 0 <= a < |w.peers| && 0 <= b < |w.peers| && a != b
    ensures SeatsOk(w)
    ensures w.peers[a].acked[b] <= w.peers[b].confirmed[a]
    ensures PacketOf(w.peers[a], checksum).Start() <= w.peers[b].confirmed[a]
    ensures forall p :: p in w.sent && p.slot == a ==> LeavesNoGap(p, w.peers[b])
  {
    ReachableInv(w);
    assert PairOk(w, a, b);
    WindowStartsAtAcknowledged(w.peers[a], checksum);
    forall p | p in w.sent && p.slot == a
      ensures LeavesNoGap(p, w.peers[b])
    {
      assert PacketOk(w, p);
    }
  }

  lemma DeliveredPacketAgrees(w: Network, b: int, p: Packet)
    requires Inv(w) && Enabled(w, DeliverStep(b, p)) && InOrder(w.peers[b], p.slot, p.current)
    ensures var w' := Apply(w, DeliverStep(b, p));
      && Inv(w') && |w'.peers| == |w.peers| && p.slot < |w.peers|
      && w'.peers[p.slot] == w.peers[p.slot]
      && w'.peers[b].confirmed[p.slot] == p.current
      && Agrees(w'.peers[p.slot], w'.peers[b], p.slot)
  {
    hide Merged, Carries;
    DeliverKeepsInv(w, b, p);
    ReceiveDecodes(w.peers[b], p);
    ReceivePacketEffect(w.peers[b], p, |w.peers|, b);
    assert PacketOk(w, p);
    assert PairOk(Apply(w, DeliverStep(b, p)), p.slot, b);
  }

  /** Whatever came before, one packet that is not out of order brings its receiver to the packet's last cycle. */
  lemma OnePacketRecovery(w: Network, b: int, p: Packet)
    requires Reachable(w) && Enabled(w, DeliverStep(b, p)) && InOrder(w.peers[b], p.slot, p.current)
    ensures var w' := Apply(w, DeliverStep(b, p));
      && Inv(w') && |w'.peers| == |w.peers| && p.slot < |w.peers|
      && w'.peers[b].confirmed[p.slot] == p.current
      && Agrees(w'.peers[p.slot], w'.peers[b], p.slot)
  {
    ReachableInv(w);
    DeliveredPacketAgrees(w, b, p);
  }

  lemma FreshPacketIsDeliverable(w: Network, a: int, b: int, checksum: int)
    requires Inv(w) && 0 <= a < |w.peers| && 0 <= b < |w.peers| && a != b && IsInt32(checksum)
    requires w.peers[a].rows[a] != []
    ensures Enabled(w, SendStep(a, checksum))
    ensures var v := Apply(w, SendStep(a, checksum));
      var p := PacketOf(w.peers[a], checksum);
      && Inv(v) && v.peers == w.peers && Enabled(v, DeliverStep(b, p)) && InOrder(v.peers[b], a, p.current)
      && p.slot == a && p.current == |w.peers[a].rows[a]| - 1
  {
    hide Linked, CyclesToWrite;
    var p := PacketOf(w.peers[a], checksum);
    SendKeepsInv(w, a, checksum);
    var v := Apply(w, SendStep(a, checksum));
    assert PacketOk(v, p);
    assert PairOk(v, a, b);
    ConfirmedWithinRow(v, a, b);
  }

  /** Nobody has confirmed more of a row than there is. */
  lemma ConfirmedWithinRow(w: Network, a: int, b: int)
    requires Inv(w) && 0 <= a < |w.peers| && 0 <= b < |w.peers| && a != b
    ensures w.peers[b].confirmed[a] == 0 || w.peers[b].confirmed[a] < |w.peers[a].rows[a]|
  {
    assert PairOk(w, a, b);
  }

  /** In a run every confirmed cycle is stored. */
  lemma ConfirmedIsStored(w: Network, b: int)
    requires Reachable(w) && 0 <= b < |w.peers|
    ensures w.peers[b].Valid() && ConfirmedStored(w.peers[b])
  {
    ReachableInv(w);
    forall a | 0 <= a < |w.peers| && a != b
      ensures w.peers[b].confirmed[a] == 0 || w.peers[b].confirmed[a] < |w.peers[b].rows[a]|
    {
      assert PairOk(w, a, b);
    }
  }

  /** A packet sent now is never out of order for anybody: delivered, it hands over the sender's whole row. */
  lemma FreshPacketHandsOverRow(w: Network, a: int, b: int, checksum: int)
    requires Reachable(w) && SeatsOk(w) && 0 <= a < |w.peers| && 0 <= b < |w.peers| && a != b && IsInt32(checksum)
    requires w.peers[a].rows[a] != []
    ensures Enabled(w, SendStep(a, checksum))
    ensures var v := Apply(w, SendStep(a, checksum));
      var p := PacketOf(w.peers[a], checksum);
      && Enabled(v, DeliverStep(b, p))
      && var w' := Apply(v, DeliverStep(b, p));
         var row := w.peers[a].rows[a];
         && SeatsOk(w') && |w'.peers| == |w.peers|
         && w'.peers[b].confirmed[a] == |row| - 1
         && |w'.peers[b].rows[a]| >= |row| && w'.peers[b].rows[a][..|row|] == row
  {
    hide Apply, Enabled, PacketOf, PacketOk, PairOk;
    ReachableInv(w);
    FreshPacketIsDeliverable(w, a, b, checksum);
    var row := w.peers[a].rows[a];
    DeliveredPacketAgrees(Apply(w, SendStep(a, checksum)), b, PacketOf(w.peers[a], checksum));
    assert row[..|row|] == row;
  }

  // ---------------------------------------------------------------------------------------------
  // The outputs the game sees
  // ---------------------------------------------------------------------------------------------

  /** What peer `p` answers for index `c` of `player`, or an outcome without states. */
  ghost function Answer(w: Network, p: int, player: int, cycle: int): Outcome
    requires 0 <= p < |w.peers| && w.peers[p].Valid() && 0 <= player < MAX_PLAYERS
  {
    ControlStatus(w.peers[p], cycle, player)
  }

  ghost predicate Answers(w: Network, p: int, player: int, cycle: int, c: int) {
    && 0 <= p < |w.peers| && w.peers[p].Valid() && 0 <= player < |w.peers| <= MAX_PLAYERS
    && CycleIndex(w.peers[p], cycle) == c
    && Answer(w, p, player, cycle).Status?
  }

  /** Whether a peer's row for a player comes from that player, and not from prediction alone. */
  ghost predicate Knows(w: Network, p: int, player: int) {
    p == player || (p, player) in w.accepted
  }

  /** The state of a player in its own row. */
  ghost predicate HasOwnState(w: Network, player: int, c: int) {
    0 <= player < |w.peers| && player < |w.peers[player].rows| && 0 <= c < |w.peers[player].rows[player]|
  }

  ghost function OwnState(w: Network, player: int, c: int): Byte
    requires HasOwnState(w, player, c)
  {
    w.peers[player].rows[player][c]
  }

  /** No key is pressed in the first state of a player. */
  ghost predicate StartsIdle(w: Network, player: int) {
    HasOwnState(w, player, 0) && OwnState(w, player, 0) % 128 == 0
  }

  /** A known answer is the player's own state at that index. */
  lemma AnswerIsOwnState(w: Network, p: int, player: int, cycle: int, c: int)
    requires Inv(w) && Answers(w, p, player, cycle, c) && (c >= 1 || Knows(w, p, player))
    ensures HasOwnState(w, player, c)
    ensures Answer(w, p, player, cycle) == Status(Bits(OwnState(w, player, c)))
    ensures p != player ==> (p, player) in w.accepted && c <= w.peers[p].confirmed[player]
  {
    hide Bits;
    if p != player {
      assert PairOk(w, player, p);
      var confirmed := w.peers[p].confirmed[player];
      assert w.peers[p].rows[player][..confirmed + 1][c] == w.peers[player].rows[player][..confirmed + 1][c];
    }
  }

  /** Without a packet from the player, the answer is that no key is pressed, and it can only be for index 0. */
  lemma UnknownAnswerIsIdle(w: Network, p: int, player: int, cycle: int, c: int)
    requires Inv(w) && Answers(w, p, player, cycle, c) && !Knows(w, p, player)
    ensures c == 0 && Answer(w, p, player, cycle) == Status(Bits(0))
  {
    hide Bits;
    assert PairOk(w, player, p);
  }

  /** Exactly when a peer's answer is the player's own state: past index 0 always; at index 0 if it is the player, has
      accepted a packet from the player, or happens to be right in saying that no key is pressed. */
  lemma AnswerIsOwnStateExactly(w: Network, p: int, player: int, cycle: int, c: int)
    requires Reachable(w) && Answers(w, p, player, cycle, c) && HasOwnState(w, player, 0)
    ensures HasOwnState(w, player, c)
    ensures Answer(w, p, player, cycle) == Status(Bits(OwnState(w, player, c)))
            <==> c >= 1 || Knows(w, p, player) || StartsIdle(w, player)
  {
    hide Inv, Bits, Answer, Answers, HasOwnState, Reachable;
    ReachableInv(w);
    if c >= 1 || Knows(w, p, player) {
      AnswerIsOwnState(w, p, player, cycle, c);
    } else {
      UnknownAnswerIsIdle(w, p, player, cycle, c);
      BitsTellApart(OwnState(w, player, 0), 0);
    }
  }

  /** Exactly when two peers answer the same for an index of a player.  Past index 0 always; at index 0 if both know
      the player's row, or neither does, or the player starts idle. */
  lemma AnswersAgreeExactly(w: Network, p: int, q: int, player: int, cycleP: int, cycleQ: int, c: int)
    requires Reachable(w) && Answers(w, p, player, cycleP, c) && Answers(w, q, player, cycleQ, c)
    ensures Answer(w, p, player, cycleP) == Answer(w, q, player, cycleQ)
            <==> c >= 1 || Knows(w, p, player) == Knows(w, q, player) || StartsIdle(w, player)
  {
    hide Inv, Answer, Answers, Reachable;
    ReachableInv(w);
    AnswersCompared(w, p, player, cycleP, w, q, cycleQ, c);
  }

  /** The same for two states of the network, if what is known in the first is the player's own state in the second. */
  lemma AnswersCompared(v: Network, p: int, player: int, cycleP: int, w: Network, q: int, cycleQ: int, c: int)
    requires Inv(v) && Inv(w) && Answers(v, p, player, cycleP, c) && Answers(w, q, player, cycleQ, c)
    requires (c >= 1 || Knows(v, p, player)) && HasOwnState(v, player, c) ==>
               HasOwnState(w, player, c) && OwnState(v, player, c) == OwnState(w, player, c)
    ensures Answer(v, p, player, cycleP) == Answer(w, q, player, cycleQ)
            <==> c >= 1 || Knows(v, p, player) == Knows(w, q, player) || StartsIdle(w, player)
  {
    hide Inv, Bits, Answer, Answers, HasOwnState, OwnState, Knows;
    if c >= 1 || Knows(v, p, player) {
      AnswerIsOwnState(v, p, player, cycleP, c);
    } else {
      UnknownAnswerIsIdle(v, p, player, cycleP, c);
    }
    if c >= 1 || Knows(w, q, player) {
      AnswerIsOwnState(w, q, player, cycleQ, c);
    } else {
      UnknownAnswerIsIdle(w, q, player, cycleQ, c);
    }
    if HasOwnState(w, player, 0) {
      BitsTellApart(OwnState(w, player, 0), 0);
    }
  }

  ghost predicate SameAnswer(w: Network, p: int, q: int, player: int, cycleP: int, cycleQ: int, c: int) {
    Answers(w, p, player, cycleP, c) && Answers(w, q, player, cycleQ, c) ==>
      Answer(w, p, player, cycleP) == Answer(w, q, player, cycleQ)
  }

  /** In every reachable state all peers that answer for index `c` of a player give the same answer. */
  ghost predicate AlwaysSame(c: nat) {
    forall w, p, q, player, cycleP, cycleQ :: Reachable(w) ==> SameAnswer(w, p, q, player, cycleP, cycleQ, c)
  }

  /** Index 0 is the only one at which peers can differ: 0 also stands for "nothing confirmed yet", so the prediction
      may be given out. */
  lemma AnswersAgreeExactlyFromIndexOne(c: nat)
    ensures AlwaysSame(c) <==> c >= 1
  {
    hide Answer, Reachable, Answers;
    if c >= 1 {
      forall w, p, q, player, cycleP, cycleQ | Reachable(w)
        ensures SameAnswer(w, p, q, player, cycleP, cycleQ, c)
      {
        if Answers(w, p, player, cycleP, c) && Answers(w, q, player, cycleQ, c) {
          AnswersAgreeExactly(w, p, q, player, cycleP, cycleQ, c);
        }
      }
    } else {
      var w := PredictionGivenOut();
      assert !SameAnswer(w, 0, 1, 0, 1, 1, 0);
    }
  }

  ghost function Seated(i: int): State {
    State(seq(MAX_PLAYERS, _ => []), seq(MAX_PLAYERS, _ => 0), seq(MAX_PLAYERS, _ => 0), 0, 2, i, 0, -1)
  }

  lemma FirstRead(i: int, state: Byte)
    requires 0 <= i < 2
    ensures SeatOk(Seated(i), 2, i)
    ensures var s := ReadLocal(Seated(i), state);
      s.Valid() && s.rows[i] == [state] && s.rows[1 - i] == [0] && s.confirmed[1 - i] == 0
      && s.startingCycles == 0 && s.delay == 0 && s.localPlayer == i
  {
    var s := ReadLocal(Seated(i), state);
    assert s.rows[1 - i] == Extended([], 1) == [0];
  }

  /** Two reads, one in each seat, are a run. */
  lemma TwoReadsAreARun(x: Byte, y: Byte)
    ensures Reachable(Network([ReadLocal(Seated(0), x), ReadLocal(Seated(1), y)], {}, {}))
  {
    hide ReadLocal, SeatOk, Receive, PacketOf, UnreadLocal;
    FirstRead(0, x);
    FirstRead(1, y);
    var s0, s1 := ReadLocal(Seated(0), x), ReadLocal(Seated(1), y);
    var w0 := Network([Seated(0), Seated(1)], {}, {});
    var w1 := Network([s0, Seated(1)], {}, {});
    var w := Network([s0, s1], {}, {});
    assert Enabled(w0, ReadStep(0, x)) && Apply(w0, ReadStep(0, x)) == w1;
    assert Enabled(w1, ReadStep(1, y)) && Apply(w1, ReadStep(1, y)) == w;
    var run := [w0, w1, w];
    assert Next(run[0], run[1]) && Next(run[1], run[2]);
    assert IsRun(run) && Init(run[0]) && run[|run| - 1] == w;
  }

  lemma FirstAnswer(i: int, state: Byte)
    requires 0 <= i < 2
    ensures var s := ReadLocal(Seated(i), state);
      s.Valid() && CycleIndex(s, 1) == 0 && ControlStatus(s, 1, 0) == Status(Bits(if i == 0 then state else 0))
  {
    hide ReadLocal, Bits;
    FirstRead(i, state);
  }

  /** Player 0 reads a pressed key; player 1 reads nothing and answers with its prediction for player 0. */
  lemma PredictionGivenOut() returns (w: Network)
    ensures Reachable(w)
    ensures Answers(w, 0, 0, 1, 0) && Answers(w, 1, 0, 1, 0) && Answer(w, 0, 0, 1) != Answer(w, 1, 0, 1)
  {
    hide ReadLocal, Reachable, Bits, ControlStatus, SeatOk;
    w := Network([ReadLocal(Seated(0), 1), ReadLocal(Seated(1), 0)], {}, {});
    TwoReadsAreARun(1, 0);
    FirstAnswer(0, 1);
    FirstAnswer(1, 0);
    BitsTellApart(1, 0);
  }

  // ---------------------------------------------------------------------------------------------
  // Packets of an earlier level
  // ---------------------------------------------------------------------------------------------

  /** Packets do not say which level they belong to.  One that is accepted in a level it was not sent in, wherever its
      window starts, leaves the rows in agreement exactly if it says what follows in the sender's row now. */
  lemma StalePacketAgreesExactly(sa: State, sb: State, a: int, b: int, n: int, p: Packet)
    requires SeatOk(sa, n, a) && SeatOk(sb, n, b) && a != b
    requires p.Valid() && p.slot == a && InOrder(sb, a, p.current)
    requires sb.confirmed[a] == 0 || Agrees(sa, sb, a)
    ensures ReceivePacket(sb, p).Valid()
    ensures Agrees(sa, ReceivePacket(sb, p), a)
            <==> && p.current < |sa.rows[a]|
                 && SaysWhatFollows(sa.rows[a], sb.rows[a], sb.confirmed[a], p.current, p.states)
  {
    hide Merged, ReceivePacket, Agrees, SaysWhatFollows;
    ReceivePacketEffect(sb, p, n, b);
    AgreesUpTo(sa, sb, a);
    AgreesUpTo(sa, ReceivePacket(sb, p), a);
    if p.current < |sa.rows[a]| {
      MergedAgreesExactly(sa.rows[a], sb.rows[a], sb.confirmed[a], p.current, p.states);
    }
  }

  lemma AgreesUpTo(sa: State, sb: State, a: int)
    requires sa.Valid() && sb.Valid() && 0 <= a < MAX_PLAYERS
    ensures var confirmed := sb.confirmed[a];
      Agrees(sa, sb, a)
      <==> && confirmed < |sa.rows[a]| && confirmed < |sb.rows[a]|
           && sb.rows[a][..confirmed + 1] == sa.rows[a][..confirmed + 1]
  {
  }

  /** Both players have read nothing pressed in a new level; a packet of the last one says that player 0 pressed a
      key, and player 1 takes its word. */
  lemma StalePacketTakesOver() returns (w: Network, p: Packet)
    ensures Reachable(w) && p.Valid() && p !in w.sent && |w.peers| == 2
    ensures w.peers[0].Valid() && w.peers[1].Valid() && InOrder(w.peers[1], 0, p.current)
    ensures ReceivePacket(w.peers[1], p).Valid()
    ensures p.slot == 0 && !Agrees(w.peers[0], ReceivePacket(w.peers[1], p), 0)
  {
    hide ReadLocal, Reachable, Merged, ReceivePacket;
    w := Network([ReadLocal(Seated(0), 0), ReadLocal(Seated(1), 0)], {}, {});
    p := Packet(0, 0, 0, 0, [1]);
    TwoReadsAreARun(0, 0);
    FirstRead(0, 0);
    FirstRead(1, 0);
    ReachableInv(w);
    assert SeatOk(w.peers[0], 2, 0) && SeatOk(w.peers[1], 2, 1);
    assert ReadLocal(Seated(0), 0).rows[0][0..1] == [0];
    StalePacketAgreesExactly(w.peers[0], w.peers[1], 0, 1, 2, p);
  }

  lemma ReachableNext(w: Network, w': Network)
    requires Reachable(w) && Next(w, w')
    ensures Reachable(w')
  {
    hide Next, Init;
    var run :| IsRun(run) && Init(run[0]) && run[|run| - 1] == w;
    var longer := run + [w'];
    forall i | 0 <= i < |longer| - 1
      ensures Next(longer[i], longer[i + 1])
    {
      if i < |run| - 1 {
        assert Next(run[i], run[i + 1]);
      }
    }
    assert IsRun(longer) && longer[|longer| - 1] == w' && longer[0] == run[0];
  }

  lemma ReadNext(w: Network, i: int, state: Byte)
    requires Reachable(w) && 0 <= i < |w.peers| && Enabled(w, ReadStep(i, state))
    ensures Reachable(w.(peers := w.peers[i := ReadLocal(w.peers[i], state)]))
  {
    hide Reachable, ReadLocal;
    assert Next(w, Apply(w, ReadStep(i, state)));
    ReachableNext(w, Apply(w, ReadStep(i, state)));
  }

  /** Player 0 has read nothing, a key and nothing in a new level.  A packet of the last one has no other state than
      that of cycle 2, and it is right; but player 1 takes it for the cycle in between as well. */
  lemma StaleGapTakesOver() returns (w: Network, p: Packet)
    ensures Reachable(w) && p.Valid() && p !in w.sent && |w.peers| == 2
    ensures w.peers[0].Valid() && w.peers[1].Valid() && InOrder(w.peers[1], 0, p.current)
    ensures w.peers[1].confirmed[0] < p.Start() && p.slot == 0
    ensures p.current < |w.peers[0].rows[0]| && p.states == w.peers[0].rows[0][p.Start()..p.current + 1]
    ensures ReceivePacket(w.peers[1], p).Valid() && !Agrees(w.peers[0], ReceivePacket(w.peers[1], p), 0)
  {
    hide ReadLocal, Reachable, Merged, ReceivePacket, Agrees, Inv;
    var s, t := ReadLocal(Seated(0), 0), ReadLocal(Seated(1), 0);
    TwoReadsAreARun(0, 0);
    FirstRead(0, 0);
    FirstRead(1, 0);
    var w1 := Network([s, t], {}, {});
    SeatedInReach(w1);
    assert SeatOk(w1.peers[0], 2, 0);
    ReadingIsLocal(s, 1, 0, 2);
    ReadNext(w1, 0, 1);
    var s1 := ReadLocal(s, 1);
    var w2 := Network([s1, t], {}, {});
    assert w1.(peers := w1.peers[0 := s1]) == w2;
    SeatedInReach(w2);
    assert SeatOk(w2.peers[0], 2, 0);
    ReadingIsLocal(s1, 0, 0, 2);
    ReadNext(w2, 0, 0);
    var s2 := ReadLocal(s1, 0);
    w := Network([s2, t], {}, {});
    assert w2.(peers := w2.peers[0 := s2]) == w;
    SeatedInReach(w);
    assert SeatOk(w.peers[0], 2, 0) && SeatOk(w.peers[1], 2, 1);
    p := Packet(0, 2, 0, 0, [0]);
    var own, row := s2.rows[0], t.rows[0];
    assert own == [0, 1, 0] && row == [0] && own[2..3] == [0];
    assert own[1] != Guess(row, p.states, 1);
    StalePacketAgreesExactly(s2, t, 0, 1, 2, p);
  }

  lemma SeatedInReach(w: Network)
    requires Reachable(w)
    ensures SeatsOk(w)
  {
    ReachableInv(w);
  }

  /** `b` has accepted a packet of `a` and confirmed index `i`, with state `v` in `a`'s own row. */
  ghost predicate Settled(w: Network, a: int, b: int, i: int, v: Byte) {
    && Inv(w) && 0 <= a < |w.peers| && 0 <= b < |w.peers| && a != b
    && (b, a) in w.accepted && 0 <= i <= w.peers[b].confirmed[a]
    && i < |w.peers[a].rows[a]| && w.peers[a].rows[a][i] == v
  }

  lemma DeliveryKeepsOwnRow(s: State, b: int, n: int, p: Packet)
    requires SeatOk(s, n, b) && p.Valid()
    ensures var t := Receive(s, Encode(p));
      && t.rows[b] == s.rows[b]
      && forall a :: 0 <= a < n && a != b ==> t.confirmed[a] >= s.confirmed[a]
  {
    hide Merged, Encode;
    ReceiveDecodes(s, p);
    if InOrder(s, p.slot, p.current) {
      ReceivePacketEffect(s, p, n, b);
    }
  }

  /** The guard on unreading protects every index that was ever sent. */
  lemma UnreadingKeepsSent(w: Network, a: int, current: int, i: int)
    requires Enabled(w, UnreadStep(a)) && WasSent(w.sent, a, current) && 0 <= i <= current
    ensures var t := UnreadLocal(w.peers[a]);
      && i < |w.peers[a].rows[a]| && i < |t.rows[a]| && t.rows[a][i] == w.peers[a].rows[a][i]
  {
  }

  /** Replacing the state of peer `c` keeps what is settled if it keeps the entry and takes back no confirmation. */
  lemma ReplacingKeepsSettled(w: Network, w': Network, c: int, t: State, a: int, b: int, i: int, v: Byte)
    requires Settled(w, a, b, i, v) && Inv(w') && 0 <= c < |w.peers| && t.Valid()
    requires w'.peers == w.peers[c := t] && w.accepted <= w'.accepted
    requires c == a ==> i < |t.rows[a]| && t.rows[a][i] == v
    requires c == b ==> t.confirmed[a] >= w.peers[b].confirmed[a]
    ensures Settled(w', a, b, i, v)
  {
    hide Inv;
  }

  lemma SettledAfterRead(w: Network, c: int, state: Byte, a: int, b: int, i: int, v: Byte)
    requires Settled(w, a, b, i, v) && Enabled(w, ReadStep(c, state)) && Inv(Apply(w, ReadStep(c, state)))
    ensures Settled(Apply(w, ReadStep(c, state)), a, b, i, v)
  {
    hide Inv, ReadLocal;
    ReadingIsLocal(w.peers[c], state, c, |w.peers|);
    ReplacingKeepsSettled(w, Apply(w, ReadStep(c, state)), c, ReadLocal(w.peers[c], state), a, b, i, v);
  }

  lemma SettledAfterUnread(w: Network, c: int, a: int, b: int, i: int, v: Byte)
    requires Settled(w, a, b, i, v) && Enabled(w, UnreadStep(c)) && Inv(Apply(w, UnreadStep(c)))
    ensures Settled(Apply(w, UnreadStep(c)), a, b, i, v)
  {
    hide Inv;
    if c == a {
      ConfirmedWasSent(w, a, b);
      UnreadingKeepsSent(w, a, w.peers[b].confirmed[a], i);
    }
    UnreadLocalKeepsConsistent(w.peers[c]);
    ReplacingKeepsSettled(w, Apply(w, UnreadStep(c)), c, UnreadLocal(w.peers[c]), a, b, i, v);
  }

  lemma SettledAfterDelivery(w: Network, c: int, p: Packet, a: int, b: int, i: int, v: Byte)
    requires Settled(w, a, b, i, v) && Enabled(w, DeliverStep(c, p)) && Inv(Apply(w, DeliverStep(c, p)))
    ensures Settled(Apply(w, DeliverStep(c, p)), a, b, i, v)
  {
    hide Inv, Receive, Encode;
    EncodeRoundTrip(p);
    ReceiveKeepsConsistent(w.peers[c], Encode(p));
    DeliveryKeepsOwnRow(w.peers[c], c, |w.peers|, p);
    ReplacingKeepsSettled(w, Apply(w, DeliverStep(c, p)), c, Receive(w.peers[c], Encode(p)), a, b, i, v);
  }

  /** What is settled never changes again. */
  lemma SettledStaysSettled(w: Network, w': Network, a: int, b: int, i: int, v: Byte)
    requires Settled(w, a, b, i, v) && Next(w, w')
    ensures Settled(w', a, b, i, v)
  {
    hide Inv, Apply;
    SettledHasInv(w, a, b, i, v);
    NextKeepsInv(w, w');
    var step :| Enabled(w, step) && w' == Apply(w, step);
    match step
    case ReadStep(c, state) => SettledAfterRead(w, c, state, a, b, i, v);
    case UnreadStep(c) => SettledAfterUnread(w, c, a, b, i, v);
    case DeliverStep(c, packet) => SettledAfterDelivery(w, c, packet, a, b, i, v);
    case SendStep(c, checksum) => SettledAfterSend(w, c, checksum, a, b, i, v);
    case MarkValidStep(c) => SettledAfterMark(w, c, a, b, i, v);
  }

  lemma SettledHasInv(w: Network, a: int, b: int, i: int, v: Byte)
    requires Settled(w, a, b, i, v)
    ensures Inv(w)
  {
  }

  lemma SettledAfterSend(w: Network, c: int, checksum: int, a: int, b: int, i: int, v: Byte)
    requires Settled(w, a, b, i, v) && Enabled(w, SendStep(c, checksum)) && Inv(Apply(w, SendStep(c, checksum)))
    ensures Settled(Apply(w, SendStep(c, checksum)), a, b, i, v)
  {
    hide Inv, PacketOf;
  }

  lemma SettledAfterMark(w: Network, c: int, a: int, b: int, i: int, v: Byte)
    requires Settled(w, a, b, i, v) && Enabled(w, MarkValidStep(c)) && Inv(Apply(w, MarkValidStep(c)))
    ensures Settled(Apply(w, MarkValidStep(c)), a, b, i, v)
  {
    hide Inv;
  }

  lemma ConfirmedWasSent(w: Network, a: int, b: int)
    requires Inv(w) && 0 <= a < |w.peers| && 0 <= b < |w.peers| && a != b
    ensures SeatsOk(w)
    ensures (b, a) in w.accepted ==> WasSent(w.sent, a, w.peers[b].confirmed[a])
  {
    assert PairOk(w, a, b);
  }

  lemma {:induction false} SettledInRun(run: seq<Network>, j: nat, k: nat, a: int, b: int, i: int, v: Byte)
    requires IsRun(run) && j <= k < |run| && Settled(run[j], a, b, i, v)
    ensures Settled(run[k], a, b, i, v)
    decreases k - j
  {
    hide Settled, Next;
    if j < k {
      SettledInRun(run, j, k - 1, a, b, i, v);
      assert Next(run[k - 1], run[k - 1 + 1]);
      SettledStaysSettled(run[k - 1], run[k], a, b, i, v);
    }
  }

  /** A known answer of a remote peer is settled: the player's own state there stays. */
  lemma AnswerIsSettled(run: seq<Network>, j: nat, k: nat, p: int, player: int, cycle: int, c: int)
    requires IsRun(run) && j <= k < |run| && Inv(run[j])
    requires p != player && Answers(run[j], p, player, cycle, c) && (c >= 1 || Knows(run[j], p, player))
    ensures HasOwnState(run[j], player, c) && HasOwnState(run[k], player, c)
    ensures OwnState(run[j], player, c) == OwnState(run[k], player, c)
  {
    hide IsRun, Inv, Answer;
    AnswerIsOwnState(run[j], p, player, cycle, c);
    SettledInRun(run, j, k, player, p, c, OwnState(run[j], player, c));
    SettledIsOwnState(run[k], player, p, c, OwnState(run[j], player, c));
  }

  lemma SettledIsOwnState(w: Network, a: int, b: int, i: int, v: Byte)
    requires Settled(w, a, b, i, v)
    ensures HasOwnState(w, a, i) && OwnState(w, a, i) == v
  {
  }

  /** A player's own state at an index was there all the time: it was not unread in between. */
  ghost predicate Kept(run: seq<Network>, j: nat, k: nat, player: int, c: int)
    requires j <= k < |run|
  {
    forall i :: j <= i <= k ==> HasOwnState(run[i], player, c)
  }

  /** A step changes no entry of a player's own row, it can only add one or take one away. */
  lemma OwnStateStep(w: Network, w': Network, player: int, c: int)
    requires Next(w, w') && HasOwnState(w, player, c) && HasOwnState(w', player, c)
    ensures OwnState(w, player, c) == OwnState(w', player, c)
  {
    hide Receive, ReadLocal, UnreadLocal, PacketOf, Encode;
    var step :| Enabled(w, step) && w' == Apply(w, step);
    match step
    case ReadStep(i, state) => ReadingIsLocal(w.peers[i], state, i, |w.peers|);
    case UnreadStep(i) => UnreadingIsLocal(w, i);
    case DeliverStep(i, packet) => DeliveryKeepsOwnRow(w.peers[i], i, |w.peers|, packet);
    case _ =>
  }

  lemma {:induction false} KeptStateStays(run: seq<Network>, j: nat, k: nat, player: int, c: int)
    requires IsRun(run) && j <= k < |run| && Kept(run, j, k, player, c)
    ensures OwnState(run[j], player, c) == OwnState(run[k], player, c)
    decreases k - j
  {
    hide Next, HasOwnState, OwnState;
    if j < k {
      KeptStateStays(run, j, k - 1, player, c);
      assert Next(run[k - 1], run[k - 1 + 1]);
      OwnStateStep(run[k - 1], run[k], player, c);
    }
  }

  /** The player has sent a packet that goes up to the index. */
  ghost predicate SentUpTo(w: Network, player: int, c: int) {
    exists x :: x in w.sent && x.slot == player && x.current >= c
  }

  lemma {:induction false} SentInRun(run: seq<Network>, j: nat, k: nat)
    requires IsRun(run) && j <= k < |run|
    ensures run[j].sent <= run[k].sent
    decreases k - j
  {
    hide Receive, ReadLocal, UnreadLocal, PacketOf, Encode;
    if j < k {
      SentInRun(run, j, k - 1);
      assert Next(run[k - 1], run[k - 1 + 1]);
    }
  }

  lemma SentIsOwnState(w: Network, player: int, c: int)
    requires Inv(w) && SentUpTo(w, player, c) && c >= 0
    ensures HasOwnState(w, player, c)
  {
    var x :| x in w.sent && x.slot == player && x.current >= c;
    assert PacketOk(w, x);
  }

  /** What was sent is kept. */
  lemma SentIsKept(run: seq<Network>, j: nat, k: nat, player: int, c: int)
    requires IsRun(run) && Init(run[0]) && j <= k < |run| && SentUpTo(run[j], player, c) && c >= 0
    ensures Kept(run, j, k, player, c)
  {
    hide IsRun, Inv, HasOwnState;
    InitEstablishesInv(run[0]);
    forall i | j <= i <= k
      ensures HasOwnState(run[i], player, c)
    {
      RunKeepsInv(run, i);
      SentInRun(run, j, i);
      SentIsOwnState(run[i], player, c);
    }
  }

  /** Agreement over time: the answer that a peer gave for a player at one point of a run against the answer that any
      peer gives for that index, then or at any later point.  They are the same exactly if the index is not 0, or both
      peers knew the player's row when they answered, or neither did, or the player starts idle.  A player that
      answered for itself has not unread its state since. */
  lemma AnswersAgreeOverRun(run: seq<Network>, j: nat, k: nat, p: int, q: int, player: int, cycleP: int,
                            cycleQ: int, c: int)
    requires IsRun(run) && Init(run[0]) && j <= k < |run|
    requires Answers(run[j], p, player, cycleP, c) && Answers(run[k], q, player, cycleQ, c)
    requires p == player ==> Kept(run, j, k, player, c)
    ensures Answer(run[j], p, player, cycleP) == Answer(run[k], q, player, cycleQ)
            <==> c >= 1 || Knows(run[j], p, player) == Knows(run[k], q, player) || StartsIdle(run[k], player)
  {
    hide IsRun, Inv, Answers, Answer;
    InitEstablishesInv(run[0]);
    RunKeepsInv(run, j);
    RunKeepsInv(run, k);
    if p == player {
      KeptStateStays(run, j, k, player, c);
    } else if c >= 1 || Knows(run[j], p, player) {
      AnswerIsSettled(run, j, k, p, player, cycleP, c);
    }
    AnswersCompared(run[j], p, player, cycleP, run[k], q, cycleQ, c);
  }

  /** The usual order: a player answers for itself and sends its state; whoever answers for that index later, gives the
      same answer, unless it is index 0, nothing of the player has arrived, and the player did not start idle. */
  lemma SentAnswerStands(run: seq<Network>, j: nat, k: nat, q: int, player: int, cycleP: int, cycleQ: int, c: int)
    requires IsRun(run) && Init(run[0]) && j <= k < |run| && SentUpTo(run[j], player, c)
    requires Answers(run[j], player, player, cycleP, c) && Answers(run[k], q, player, cycleQ, c)
    ensures Answer(run[j], player, player, cycleP) == Answer(run[k], q, player, cycleQ)
            <==> c >= 1 || Knows(run[k], q, player) || StartsIdle(run[k], player)
  {
    hide IsRun, Answers, Answer;
    AnswersAreForCycles(run[j], player, player, cycleP, c);
    SentIsKept(run, j, k, player, c);
    AnswersAgreeOverRun(run, j, k, player, q, player, cycleP, cycleQ, c);
  }

  lemma AnswersAreForCycles(w: Network, p: int, player: int, cycle: int, c: int)
    requires Answers(w, p, player, cycle, c)
    ensures c >= 0
  {
  }

  /** Whether kept or not, a player's answer for itself is the answer that any peer gives later exactly if the same
      keys are pressed in its state of then and in what the peer goes by: the player's state of now, or nothing. */
  lemma OwnAnswerAgreesExactly(run: seq<Network>, j: nat, k: nat, q: int, player: int, cycleP: int, cycleQ: int, c: int)
    requires IsRun(run) && Init(run[0]) && j <= k < |run|
    requires Answers(run[j], player, player, cycleP, c) && Answers(run[k], q, player, cycleQ, c)
    ensures HasOwnState(run[j], player, c)
    ensures c >= 1 || Knows(run[k], q, player) ==> HasOwnState(run[k], player, c)
    ensures var now := if c >= 1 || Knows(run[k], q, player) then OwnState(run[k], player, c) else 0;
      Answer(run[j], player, player, cycleP) == Answer(run[k], q, player, cycleQ)
      <==> OwnState(run[j], player, c) % 128 == now % 128
  {
    hide IsRun, Inv, Answers, Answer, Bits, HasOwnState, OwnState;
    InitEstablishesInv(run[0]);
    RunKeepsInv(run, j);
    RunKeepsInv(run, k);
    AnswerIsOwnState(run[j], player, player, cycleP, c);
    if c >= 1 || Knows(run[k], q, player) {
      AnswerIsOwnState(run[k], q, player, cycleQ, c);
      BitsTellApart(OwnState(run[j], player, c), OwnState(run[k], player, c));
    } else {
      UnknownAnswerIsIdle(run[k], q, player, cycleQ, c);
      BitsTellApart(OwnState(run[j], player, c), 0);
    }
  }

  /** A player answers for itself, takes the state back before it was sent, and reads another one. */
  lemma RereadDifferently() returns (run: seq<Network>)
    ensures IsRun(run) && Init(run[0]) && |run| == 4
    ensures Answers(run[1], 0, 0, 1, 0) && Answers(run[3], 0, 0, 1, 0)
    ensures Answer(run[1], 0, 0, 1) != Answer(run[3], 0, 0, 1)
  {
    hide ReadLocal, UnreadLocal, SeatOk, Bits, ControlStatus, Next;
    RereadStates();
    FirstRead(1, 0);
    var s := ReadLocal(Seated(0), 1);
    var t := UnreadLocal(s);
    var u := ReadLocal(t, 0);
    var w0, w1 := Network([Seated(0), Seated(1)], {}, {}), Network([s, Seated(1)], {}, {});
    var w2, w3 := Network([t, Seated(1)], {}, {}), Network([u, Seated(1)], {}, {});
    ReadIsNext(w0, 1, w1);
    UnreadIsNext(w1, w2);
    ReadIsNext(w2, 0, w3);
    run := [w0, w1, w2, w3];
    assert forall i :: 0 <= i < |run| - 1 ==> Next(run[i], run[i + 1]);
    OwnAnswer(s, 1);
    OwnAnswer(u, 0);
    BitsTellApart(1, 0);
  }

  lemma ReadIsNext(w: Network, state: Byte, w': Network)
    requires |w.peers| == 2 && SeatOk(w.peers[0], 2, 0) && |w.peers[0].rows[0]| <= 1
    requires w' == w.(peers := w.peers[0 := ReadLocal(w.peers[0], state)])
    ensures Next(w, w')
  {
    hide ReadLocal;
    assert Enabled(w, ReadStep(0, state)) && Apply(w, ReadStep(0, state)) == w';
  }

  lemma UnreadIsNext(w: Network, w': Network)
    requires |w.peers| == 2 && SeatOk(w.peers[0], 2, 0) && w.sent == {}
    requires w' == w.(peers := w.peers[0 := UnreadLocal(w.peers[0])])
    ensures Next(w, w')
  {
    hide UnreadLocal;
    assert Enabled(w, UnreadStep(0)) && Apply(w, UnreadStep(0)) == w';
  }

  /** The states of player 0 on the way. */
  lemma RereadStates()
    ensures SeatOk(Seated(0), 2, 0) && Seated(0).rows[0] == []
    ensures var s := ReadLocal(Seated(0), 1);
      && SeatOk(s, 2, 0) && s.Consistent() && s.rows[0] == [1] && s.localPlayer == 0
      && s.startingCycles == 0 && s.delay == 0
      && var t := UnreadLocal(s);
         && SeatOk(t, 2, 0) && t.Valid() && t.rows[0] == []
         && var u := ReadLocal(t, 0);
            && u.Valid() && u.rows[0] == [0] && u.localPlayer == 0 && u.startingCycles == 0 && u.delay == 0
  {
    hide ReadLocal, UnreadLocal;
    FirstRead(0, 1);
    var s := ReadLocal(Seated(0), 1);
    ReadStaysSeated(Seated(0), 1, 0, 2);
    UnreadTakesBack(s, 0, 2);
    UnreadLocalKeepsConsistent(s);
    var t := UnreadLocal(s);
    ReadingIsLocal(t, 0, 0, 2);
    ReadKeepsClock(t, 0);
  }

  lemma ReadStaysSeated(s: State, state: Byte, i: int, n: int)
    requires SeatOk(s, n, i) && IsInt32(|s.rows[i]| + 1)
    ensures SeatOk(ReadLocal(s, state), n, i)
  {
    ReadLocalKeepsConsistent(s, state);
  }

  lemma UnreadTakesBack(s: State, i: int, n: int)
    requires SeatOk(s, n, i) && s.rows[i] != []
    ensures var t := UnreadLocal(s);
      t.rows[i] == s.rows[i][..|s.rows[i]| - 1] && t.startingCycles == s.startingCycles && t.delay == s.delay
      && t.localPlayer == s.localPlayer && SeatOk(t, n, i)
  {
    UnreadLocalKeepsConsistent(s);
  }

  lemma ReadKeepsClock(s: State, state: Byte)
    requires s.Valid()
    ensures var t := ReadLocal(s, state); t.startingCycles == s.startingCycles && t.delay == s.delay
  {
  }

  lemma OwnAnswer(s: State, state: Byte)
    requires s.Valid() && s.localPlayer == 0 && s.rows[0] == [state] && s.startingCycles == 0 && s.delay == 0
    ensures CycleIndex(s, 1) == 0 && ControlStatus(s, 1, 0) == Status(Bits(state))
  {
  }

  /** What a peer knows it goes on knowing. */
  lemma {:induction false} KnownInRun(run: seq<Network>, j: nat, k: nat, p: int, player: int)
    requires IsRun(run) && j <= k < |run| && Knows(run[j], p, player)
    ensures Knows(run[k], p, player)
    decreases k - j
  {
    hide Receive, ReadLocal, UnreadLocal, PacketOf;
    if j < k {
      KnownInRun(run, j, k - 1, p, player);
      assert Next(run[k - 1], run[k - 1 + 1]);
    }
  }

  /** From its first packet on, a peer is right about the player at every index that it answers for. */
  lemma RightFromFirstPacket(run: seq<Network>, j: nat, k: nat, p: int, player: int, cycle: int, c: int)
    requires IsRun(run) && Init(run[0]) && j <= k < |run| && Knows(run[j], p, player)
    requires Answers(run[k], p, player, cycle, c)
    ensures HasOwnState(run[k], player, c)
    ensures Answer(run[k], p, player, cycle) == Status(Bits(OwnState(run[k], player, c)))
  {
    hide IsRun, Inv, Answers, Answer, Bits;
    InitEstablishesInv(run[0]);
    RunKeepsInv(run, k);
    KnownInRun(run, j, k, p, player);
    AnswerIsOwnState(run[k], p, player, cycle, c);
  }
}
