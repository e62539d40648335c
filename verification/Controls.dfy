/** The input rows of one peer of a lockstep game (src/controls.cpp).

  Every peer stores one row of input states per player.  Its own row is filled from the keyboard; the
  rows of the others are predicted by repeating the last state and corrected by packets.

  `State` is the value of the namespace-level variables, with one function per operation; class `Peer`
  holds the same variables and updates them in place, each method being proved against its function.
 */
module Controls {
  import opened Arithmetic

  const MAX_PLAYERS := 8
  const NUM_CONTROLS := 7
  const HEADER_LENGTH := 17

  /** A byte read through a `const char*`. */
  function Signed(b: Byte): int {
    if b < 128 then b else b - 256
  }

  /** `confirmed[n]` is the last confirmed index of a remote row, but the length of the local one.
      `acked[n]` is what player `n` last said it has confirmed of everybody's input. */
  datatype State = State(
    rows: seq<seq<Byte>>, confirmed: seq<int>, acked: seq<int>,
    startingCycles: int, nplayers: int, localPlayer: int, delay: int, firstInvalid: int)
  {
    ghost predicate Valid() {
      && |rows| == |confirmed| == |acked| == MAX_PLAYERS
      && 1 <= nplayers <= MAX_PLAYERS
      && forall n :: 0 <= n < MAX_PLAYERS ==> confirmed[n] >= 0 && acked[n] >= 0
    }

    predicate HasLocalPlayer() {
      0 <= localPlayer < nplayers
    }

    /** The bookkeeping that every operation keeps: the local counter is the length of the local row, no
        other row is shorter, and past the confirmed cycle a remote row only repeats itself. */
    ghost predicate Consistent() {
      && Valid()
      && (HasLocalPlayer() ==> confirmed[localPlayer] == |rows[localPlayer]|)
      && forall n :: 0 <= n < nplayers && n != localPlayer ==>
           && (HasLocalPlayer() ==> |rows[n]| >= |rows[localPlayer]|)
           && RepeatsFrom(rows[n], confirmed[n])
    }
  }

  ghost predicate RepeatsFrom(row: seq<Byte>, from: int)
    requires from >= 0
  {
    forall i :: from <= i < |row| ==> row[i] == row[from]
  }

  // ---------------------------------------------------------------------------------------------
  // Level start, local reads
  // ---------------------------------------------------------------------------------------------

  /** The delay and the mark of the first invalid cycle survive a level change. */
  function NewLevel(s: State, startingCycles: int, nplayers: int, localPlayer: int): State {
    State(seq(MAX_PLAYERS, _ => []), seq(MAX_PLAYERS, _ => 0), seq(MAX_PLAYERS, _ => 0),
          startingCycles, nplayers, localPlayer, s.delay, s.firstInvalid)
  }

  /** A row brought to at least `len` entries by repeating its last one, or zero if it has none. */
  function Extended(row: seq<Byte>, len: nat): seq<Byte> {
    if len <= |row| then row
    else row + seq(len - |row|, _ => if row == [] then 0 else row[|row| - 1])
  }

  /** The prediction loop appends one entry at a time. */
  lemma ExtendedStep(row: seq<Byte>, len: nat)
    requires |row| <= len
    ensures var r := Extended(row, len);
      |r| == len && Extended(row, len + 1) == r + [if r == [] then 0 else r[len - 1]]
  {
  }

  function ReadLocal(s: State, state: Byte): State
    requires s.Valid()
  {
    if !s.HasLocalPlayer() then s
    else
      var own := s.rows[s.localPlayer] + [state];
      s.(rows := seq(MAX_PLAYERS, n requires 0 <= n < MAX_PLAYERS =>
                if n == s.localPlayer then own
                else if n < s.nplayers then Extended(s.rows[n], |own|)
                else s.rows[n]),
         confirmed := s.confirmed[s.localPlayer := s.confirmed[s.localPlayer] + 1])
  }

  function UnreadLocal(s: State): State
    requires s.Consistent()
  {
    if !s.HasLocalPlayer() || s.rows[s.localPlayer] == [] then s
    else
      var own := s.rows[s.localPlayer];
      s.(rows := s.rows[s.localPlayer := own[..|own| - 1]],
         confirmed := s.confirmed[s.localPlayer := s.confirmed[s.localPlayer] - 1])
  }

  /** Reading or unreading until the local row covers exactly the cycles up to `ncycle`;
      `poll(i)` is the keyboard state at the moment entry `i` is filled. */
  function ReadUntil(s: State, ncycle: nat, poll: nat -> Byte): State
    requires s.Consistent()
    decreases if s.HasLocalPlayer() then
                var len := |s.rows[s.localPlayer]|;
                if len <= ncycle then 2 * (ncycle + 1 - len) else len - ncycle
              else 0
  {
    if !s.HasLocalPlayer() then s
    else
      var len := |s.rows[s.localPlayer]|;
      if len <= ncycle then
        ReadLocalKeepsConsistent(s, poll(len));
        ReadUntil(ReadLocal(s, poll(len)), ncycle, poll)
      else if len > ncycle + 1 then
        UnreadLocalKeepsConsistent(s);
        ReadUntil(UnreadLocal(s), ncycle, poll)
      else s
  }

  lemma ReadLocalKeepsConsistent(s: State, state: Byte)
    requires s.Consistent()
    ensures ReadLocal(s, state).Consistent()
  {
  }

  lemma UnreadLocalKeepsConsistent(s: State)
    requires s.Consistent()
    ensures UnreadLocal(s).Consistent()
  {
  }

  /** `t` is `s` with the local row cut or filled to `ncycle + 1` entries: what it had is kept, the polled states
      are taken for the rest, and no confirmed remote cycle, acknowledgement or mark changes. */
  ghost predicate FilledTo(s: State, t: State, ncycle: nat, poll: nat -> Byte)
    requires s.Valid() && s.HasLocalPlayer()
  {
    && t == s.(rows := t.rows, confirmed := s.confirmed[s.localPlayer := ncycle + 1])
    && |t.rows| == MAX_PLAYERS
    && |t.rows[s.localPlayer]| == ncycle + 1
    && (forall i :: 0 <= i <= ncycle ==>
          t.rows[s.localPlayer][i]
          == if i < |s.rows[s.localPlayer]| then s.rows[s.localPlayer][i] else poll(i))
    && (forall n :: 0 <= n < MAX_PLAYERS && n != s.localPlayer ==>
          t.rows[n] == if n < s.nplayers then Extended(s.rows[n], ncycle + 1) else s.rows[n])
  }

  lemma ExtendedTwice(row: seq<Byte>, len: nat, more: nat)
    requires len <= more
    ensures Extended(Extended(row, len), more) == Extended(row, more)
  {
  }

  lemma FilledAfterRead(s: State, r: State, t: State, ncycle: nat, poll: nat -> Byte)
    requires s.Valid() && s.HasLocalPlayer() && r.Valid()
    requires var len := |s.rows[s.localPlayer]|; len <= ncycle && r == ReadLocal(s, poll(len))
    requires FilledTo(r, t, ncycle, poll)
    ensures FilledTo(s, t, ncycle, poll)
  {
    hide Extended;
    forall n | 0 <= n < MAX_PLAYERS && n != s.localPlayer
      ensures t.rows[n] == if n < s.nplayers then Extended(s.rows[n], ncycle + 1) else s.rows[n]
    {
      ExtendedTwice(s.rows[n], |s.rows[s.localPlayer]| + 1, ncycle + 1);
    }
  }

  /** `read_until` ends with exactly `ncycle + 1` local entries, from any bookkeeping. */
  lemma {:induction false} ReadUntilFillsLocalRow(s: State, ncycle: nat, poll: nat -> Byte)
    requires s.Consistent() && s.HasLocalPlayer()
    ensures ReadUntil(s, ncycle, poll).Consistent()
    ensures FilledTo(s, ReadUntil(s, ncycle, poll), ncycle, poll)
    decreases var len := |s.rows[s.localPlayer]|;
              if len <= ncycle then 2 * (ncycle + 1 - len) else len - ncycle
  {
    var len := |s.rows[s.localPlayer]|;
    if len <= ncycle {
      ReadLocalKeepsConsistent(s, poll(len));
      ReadUntilFillsLocalRow(ReadLocal(s, poll(len)), ncycle, poll);
      FilledAfterRead(s, ReadLocal(s, poll(len)), ReadUntil(s, ncycle, poll), ncycle, poll);
    } else if len > ncycle + 1 {
      UnreadLocalKeepsConsistent(s);
      ReadUntilFillsLocalRow(UnreadLocal(s), ncycle, poll);
    }
  }

  // ---------------------------------------------------------------------------------------------
  // What is confirmed by everybody
  // ---------------------------------------------------------------------------------------------

  /** The minimum of the first `n` values, leaving out index `skip`; -1 stands for "none yet". */
  function LeastOf(vals: seq<int>, n: nat, skip: int): int
    requires n <= |vals|
  {
    if n == 0 then -1
    else
      var res := LeastOf(vals, n - 1, skip);
      if n - 1 == skip then res
      else if res == -1 || vals[n - 1] < res then vals[n - 1]
      else res
  }

  /** With no negative value around, -1 is no value and the result is the minimum. */
  lemma {:induction false} LeastIsMinimum(vals: seq<int>, n: nat, skip: int)
    requires n <= |vals| && forall i :: 0 <= i < n ==> vals[i] >= 0
    ensures LeastOf(vals, n, skip) == -1 <==> n == 0 || (n == 1 && skip == 0)
    ensures forall i :: 0 <= i < n && i != skip ==> LeastOf(vals, n, skip) <= vals[i]
    ensures LeastOf(vals, n, skip) != -1 ==>
              exists i :: 0 <= i < n && i != skip && LeastOf(vals, n, skip) == vals[i]
  {
    if n > 0 {
      LeastIsMinimum(vals, n - 1, skip);
      var res := LeastOf(vals, n - 1, skip);
      if n - 1 != skip {
        assert vals[n - 1] >= 0;
        if res != -1 && res <= vals[n - 1] {
          var i :| 0 <= i < n - 1 && i != skip && res == vals[i];
          assert LeastOf(vals, n, skip) == vals[i];
        } else {
          assert LeastOf(vals, n, skip) == vals[n - 1];
        }
      }
    }
  }

  function OurHighestConfirmed(s: State): int
    requires s.Valid()
  {
    LeastOf(s.confirmed, s.nplayers, -1)
  }

  function TheirHighestConfirmed(s: State): int
    requires s.Valid()
  {
    LeastOf(s.acked, s.nplayers, s.localPlayer)
  }

  // ---------------------------------------------------------------------------------------------
  // Packets
  // ---------------------------------------------------------------------------------------------

  ghost predicate IsInt32(v: int) {
    -0x8000_0000 <= v < 0x8000_0000
  }

  function LowByte(u: int): Byte {
    u % 256
  }

  /** Four bytes in network order. */
  function Int32Bytes(v: int): (b: seq<Byte>)
    ensures |b| == 4
  {
    var u: int := v % 0x1_0000_0000;
    [LowByte(u / 0x100_0000), LowByte(u / 0x1_0000), LowByte(u / 0x100), LowByte(u)]
  }

  function Int32At(buf: seq<Byte>, i: nat): int
    requires i + 4 <= |buf|
  {
    var u := (buf[i] as int) * 0x100_0000 + (buf[i + 1] as int) * 0x1_0000
             + (buf[i + 2] as int) * 0x100 + buf[i + 3] as int;
    if u < 0x8000_0000 then u else u - 0x1_0000_0000
  }

  lemma BytesRecompose(u: int)
    requires 0 <= u < 0x1_0000_0000
    ensures u == u / 0x100_0000 * 0x100_0000 + u / 0x1_0000 % 256 * 0x1_0000 + u / 0x100 % 256 * 0x100 + u % 256
    ensures u / 0x100_0000 < 256
  {
    assert u / 0x100 == u / 0x100 / 0x100 * 256 + u / 0x100 % 256;
    assert u / 0x1_0000 == u / 0x1_0000 / 0x100 * 256 + u / 0x1_0000 % 256;
  }

  lemma Int32RoundTrip(v: int, pre: seq<Byte>, post: seq<Byte>)
    requires IsInt32(v)
    ensures Int32At(pre + Int32Bytes(v) + post, |pre|) == v
  {
    var b := Int32Bytes(v);
    var buf := pre + b + post;
    assert buf[|pre|] == b[0] && buf[|pre| + 1] == b[1] && buf[|pre| + 2] == b[2] && buf[|pre| + 3] == b[3];
    BytesRecompose(v % 0x1_0000_0000);
  }

  /** Network order: the first byte counts most, and a negative number is written as its complement to 2^32. */
  lemma NetworkOrder(v: int)
    requires IsInt32(v)
    ensures var b := Int32Bytes(v);
      b[0] as int * 0x100_0000 + b[1] as int * 0x1_0000 + b[2] as int * 0x100 + b[3] as int
      == if v < 0 then v + 0x1_0000_0000 else v
  {
    var u := if v < 0 then v + 0x1_0000_0000 else v;
    assert v % 0x1_0000_0000 == u;
    BytesRecompose(u);
  }

  /** The window of the sender's own states that ends at `current`. */
  datatype Packet = Packet(slot: int, current: int, checksum: int, ack: int, states: seq<Byte>)
  {
    function Start(): int {
      1 + current - |states|
    }

    ghost predicate Valid() {
      0 <= slot < MAX_PLAYERS && IsInt32(current) && IsInt32(checksum) && IsInt32(ack) && IsInt32(|states|)
    }
  }

  function Encode(p: Packet): seq<Byte>
    requires 0 <= p.slot < 256
  {
    [p.slot] + Int32Bytes(p.current) + Int32Bytes(p.checksum) + Int32Bytes(p.ack)
    + Int32Bytes(|p.states|) + p.states
  }

  lemma EncodeRoundTrip(p: Packet)
    requires p.Valid()
    ensures var b := Encode(p);
      && |b| == HEADER_LENGTH + |p.states|
      && Signed(b[0]) == p.slot
      && Int32At(b, 1) == p.current && Int32At(b, 5) == p.checksum
      && Int32At(b, 9) == p.ack && Int32At(b, 13) == |p.states|
      && b[HEADER_LENGTH..] == p.states
  {
    var c, k, a, n := Int32Bytes(p.current), Int32Bytes(p.checksum), Int32Bytes(p.ack), Int32Bytes(|p.states|);
    var b := Encode(p);
    Int32RoundTrip(p.current, [p.slot], k + a + n + p.states);
    Int32RoundTrip(p.checksum, [p.slot] + c, a + n + p.states);
    Int32RoundTrip(p.ack, [p.slot] + c + k, n + p.states);
    Int32RoundTrip(|p.states|, [p.slot] + c + k + a, p.states);
    assert b == [p.slot] + c + (k + a + n + p.states);
    assert b == [p.slot] + c + k + (a + n + p.states);
    assert b == [p.slot] + c + k + a + (n + p.states);
    assert b == [p.slot] + c + k + a + n + p.states;
  }

  /** The number of cycles a packet carries; a negative count is a huge unsigned one, so it is clamped too. */
  function CyclesToWrite(s: State): nat
    requires s.Valid() && s.HasLocalPlayer()
  {
    var len := |s.rows[s.localPlayer]|;
    var n := len - TheirHighestConfirmed(s);
    if n < 0 || n > len then len else n
  }

  function PacketOf(s: State, checksum: int): Packet
    requires s.Valid() && s.HasLocalPlayer()
  {
    var own := s.rows[s.localPlayer];
    Packet(s.localPlayer, |own| - 1, checksum, OurHighestConfirmed(s), own[|own| - CyclesToWrite(s)..])
  }

  /** What a packet says, apart from its states: whose it is, the last cycle of that row, and as acknowledgement the
      least of the confirmed cycles, which one of the players has. */
  lemma PacketHeader(s: State, checksum: int)
    requires s.Consistent() && s.HasLocalPlayer()
    ensures var p := PacketOf(s, checksum);
      && p.slot == s.localPlayer && p.current == |s.rows[s.localPlayer]| - 1 && p.checksum == checksum
      && (forall b :: 0 <= b < s.nplayers ==> p.ack <= s.confirmed[b])
      && exists b :: 0 <= b < s.nplayers && p.ack == s.confirmed[b]
  {
    hide CyclesToWrite;
    LeastIsMinimum(s.confirmed, s.nplayers, -1);
  }

  /** Some other player has acknowledged no more than there is. */
  ghost predicate SomeoneIsWithin(s: State)
    requires s.Valid() && s.HasLocalPlayer()
  {
    exists b :: 0 <= b < s.nplayers && b != s.localPlayer && s.acked[b] <= |s.rows[s.localPlayer]|
  }

  /** The window is just what is needed: it starts at the least acknowledgement of the other players, and is the whole
      row if there is none within the row. */
  lemma WindowIsExact(s: State, checksum: int)
    requires s.Consistent() && s.HasLocalPlayer()
    ensures var own, p := s.rows[s.localPlayer], PacketOf(s, checksum);
      && 0 <= p.Start() <= |own| && p.states == own[p.Start()..]
      && (SomeoneIsWithin(s) ==>
            && (forall b :: 0 <= b < s.nplayers && b != s.localPlayer ==> p.Start() <= s.acked[b])
            && exists b :: 0 <= b < s.nplayers && b != s.localPlayer && p.Start() == s.acked[b])
      && (!SomeoneIsWithin(s) ==> p.Start() == 0)
  {
    LeastIsMinimum(s.acked, s.nplayers, s.localPlayer);
    var least := TheirHighestConfirmed(s);
    if SomeoneIsWithin(s) {
      var b :| 0 <= b < s.nplayers && b != s.localPlayer && s.acked[b] <= |s.rows[s.localPlayer]|;
      assert least <= s.acked[b];
    }
  }

  lemma Appending<T>(v: seq<T>, a: seq<T>, b: seq<T>, c: seq<T>, d: seq<T>, e: seq<T>, f: seq<T>)
    ensures v + (a + b + c + d + e + f) == v + a + b + c + d + e + f
  {
  }

  /** `bytes` written over the row from index `first`; a gap before it takes the first byte written. */
  function Overwritten(row: seq<Byte>, first: nat, bytes: seq<Byte>): (r: seq<Byte>)
    requires bytes != []
    ensures |r| == Max(|row|, first + |bytes|)
  {
    seq(Max(|row|, first + |bytes|), i requires 0 <= i =>
      if first <= i < first + |bytes| then bytes[i - first] else if i < |row| then row[i] else bytes[0])
  }

  /** The row while the first `k` bytes have been written. */
  function PartlyOverwritten(row: seq<Byte>, first: nat, bytes: seq<Byte>, k: nat): seq<Byte>
    requires k <= |bytes|
  {
    if k == 0 then row else Overwritten(row, first, bytes[..k])
  }

  lemma PartlyOverwrittenNone(row: seq<Byte>, first: nat, bytes: seq<Byte>)
    ensures PartlyOverwritten(row, first, bytes, 0) == row && FirstMismatch(row, first, bytes[..0]) == -1
  {
  }

  /** One more byte either replaces an entry that was stored all along, or fills the row up to its index. */
  lemma OverwrittenStep(row: seq<Byte>, first: nat, bytes: seq<Byte>, k: nat)
    requires k < |bytes|
    ensures var now, next := PartlyOverwritten(row, first, bytes, k), PartlyOverwritten(row, first, bytes, k + 1);
      && (first + k < |now| <==> first + k < |row|)
      && (first + k < |now| ==> now[first + k] == row[first + k] && next == now[first + k := bytes[k]])
      && (first + k >= |now| ==> next == now + seq(first + k + 1 - |now|, _ => bytes[k]))
  {
    var now, next := PartlyOverwritten(row, first, bytes, k), PartlyOverwritten(row, first, bytes, k + 1);
    if first + k < |now| {
      assert next == now[first + k := bytes[k]];
    } else {
      assert next == now + seq(first + k + 1 - |now|, _ => bytes[k]);
    }
  }

  /** Everything past `current` repeats the entry at `current`. */
  function Levelled(row: seq<Byte>, current: nat): (r: seq<Byte>)
    ensures |r| == |row|
  {
    if current < |row| - 1 then row[..current + 1] + seq(|row| - current - 1, _ => row[current]) else row
  }

  /** The states of a window that are not skipped as already confirmed. */
  function Fresh(start: int, confirmed: nat, states: seq<Byte>): seq<Byte>
    requires confirmed <= start + |states|
  {
    if start < confirmed then states[confirmed - start..] else states
  }

  function Merged(row: seq<Byte>, confirmed: nat, current: nat, states: seq<Byte>): seq<Byte>
    requires confirmed <= current
  {
    var start := 1 + current - |states|;
    var bytes := Fresh(start, confirmed, states);
    Levelled(if bytes == [] then row else Overwritten(row, Max(start, confirmed), bytes), current)
  }

  /** The least stored index from `first` on whose entry a correction replaces, or -1.
      The comparison is between an unsigned and a signed character. */
  function FirstMismatch(row: seq<Byte>, first: nat, bytes: seq<Byte>): int {
    if bytes == [] then -1
    else
      var k := |bytes| - 1;
      var m := FirstMismatch(row, first, bytes[..k]);
      if m != -1 then m
      else if first + k < |row| && row[first + k] != Signed(bytes[k]) then first + k
      else -1
  }

  function Earlier(mark: int, m: int): int {
    if m == -1 then mark else if mark == -1 || mark > m then m else mark
  }

  function Acknowledged(s: State, slot: nat, ack: int): State
    requires s.Valid() && slot < MAX_PLAYERS
  {
    if ack > s.acked[slot] then s.(acked := s.acked[slot := ack]) else s
  }

  function Accepted(s: State, slot: nat, current: int, states: seq<Byte>): State
    requires s.Valid() && slot < MAX_PLAYERS && s.confirmed[slot] <= current
  {
    var start := 1 + current - |states|;
    var bytes := Fresh(start, s.confirmed[slot], states);
    s.(rows := s.rows[slot := Merged(s.rows[slot], s.confirmed[slot], current, states)],
       confirmed := s.confirmed[slot := current],
       firstInvalid := Earlier(s.firstInvalid, FirstMismatch(s.rows[slot], Max(start, s.confirmed[slot]), bytes)))
  }

  /** Whether the packet gets past the slot and order checks. */
  predicate InOrder(s: State, slot: int, current: int)
    requires s.Valid()
  {
    0 <= slot < s.nplayers && slot != s.localPlayer && s.confirmed[slot] <= current
  }

  /** The bytes a packet may have: either too few to be looked at, or a whole header. */
  predicate Readable(buf: seq<Byte>) {
    |buf| < 13 || |buf| >= HEADER_LENGTH
  }

  /** The acknowledgement is taken before the number of cycles is checked. */
  function Receive(s: State, buf: seq<Byte>): State
    requires s.Valid() && Readable(buf)
  {
    if |buf| < 13 || !InOrder(s, Signed(buf[0]), Int32At(buf, 1)) then s
    else
      var slot, current := Signed(buf[0]), Int32At(buf, 1);
      var t := Acknowledged(s, slot, Int32At(buf, 9));
      if |buf| - HEADER_LENGTH != Int32At(buf, 13) then t
      else Accepted(t, slot, current, buf[HEADER_LENGTH..])
  }

  /** What receiving an undamaged packet does. */
  function ReceivePacket(s: State, p: Packet): State
    requires s.Valid()
  {
    if !InOrder(s, p.slot, p.current) then s
    else Accepted(Acknowledged(s, p.slot, p.ack), p.slot, p.current, p.states)
  }

  /** What receiving does to any bytes.  The acknowledgement of a packet in order is taken, the greater one counting,
      even if the number of cycles is wrong; nothing else changes unless that number is right. */
  lemma ReceiveChecks(s: State, buf: seq<Byte>)
    requires s.Consistent() && Readable(buf)
    ensures var t := Receive(s, buf);
      var inOrder := |buf| >= HEADER_LENGTH && InOrder(s, Signed(buf[0]), Int32At(buf, 1));
      && (!inOrder ==> t == s)
      && (inOrder ==> t.acked == s.acked[Signed(buf[0]) := Max(s.acked[Signed(buf[0])], Int32At(buf, 9))])
      && (inOrder && |buf| - HEADER_LENGTH != Int32At(buf, 13) ==> t == s.(acked := t.acked))
      && (inOrder && |buf| - HEADER_LENGTH == Int32At(buf, 13) ==>
            t == Accepted(s, Signed(buf[0]), Int32At(buf, 1), buf[HEADER_LENGTH..]).(acked := t.acked))
  {
    hide Merged, FirstMismatch;
  }

  lemma ReceiveDecodes(s: State, p: Packet)
    requires s.Valid() && p.Valid()
    ensures Receive(s, Encode(p)) == ReceivePacket(s, p)
  {
    EncodeRoundTrip(p);
  }

  /** The merge as the code does it: skip, overwrite byte by byte, level the tail. */
  lemma MergedInSteps(row: seq<Byte>, confirmed: nat, current: nat, states: seq<Byte>)
    requires confirmed <= current
    ensures var start := 1 + current - |states|;
      var bytes := Fresh(start, confirmed, states);
      && bytes == (if start < confirmed then states[confirmed - start..] else states)
      && Merged(row, confirmed, current, states)
         == Levelled(PartlyOverwritten(row, Max(start, confirmed), bytes, |bytes|), current)
  {
    var start := 1 + current - |states|;
    var bytes := Fresh(start, confirmed, states);
    assert bytes[..|bytes|] == bytes;
  }

  /** A merge entry by entry: before the first byte written the row is kept, where it was not stored that byte fills
      it, up to the packet's last cycle it takes the bytes, and from there on it repeats itself.  It never becomes
      shorter. */
  lemma MergedEntries(row: seq<Byte>, confirmed: nat, current: nat, states: seq<Byte>)
    requires confirmed <= current
    ensures var start := 1 + current - |states|;
      var first, bytes := Max(start, confirmed), Fresh(start, confirmed, states);
      var r := Merged(row, confirmed, current, states);
      && first + |bytes| == current + 1
      && |r| >= |row| && (bytes != [] ==> |r| > current)
      && (forall i :: 0 <= i < first && i < |row| ==> r[i] == row[i])
      && (forall i :: |row| <= i < first && i < |r| ==> bytes != [] && r[i] == bytes[0])
      && (forall i :: first <= i <= current ==> r[i] == bytes[i - first])
      && RepeatsFrom(r, current)
  {
  }

  lemma AcceptedKeepsConsistent(s: State, slot: nat, current: int, states: seq<Byte>)
    requires s.Consistent() && InOrder(s, slot, current)
    ensures Accepted(s, slot, current, states).Consistent()
  {
    hide Merged;
    MergedEntries(s.rows[slot], s.confirmed[slot], current, states);
    var t := Accepted(s, slot, current, states);
    forall n | 0 <= n < s.nplayers && n != s.localPlayer
      ensures (s.HasLocalPlayer() ==> |t.rows[n]| >= |t.rows[s.localPlayer]|) && RepeatsFrom(t.rows[n], t.confirmed[n])
    {
      if n != slot {
        assert t.rows[n] == s.rows[n] && t.confirmed[n] == s.confirmed[n];
      }
    }
  }

  /** Every cycle of a remote player that counts as confirmed is stored. */
  ghost predicate ConfirmedStored(s: State)
    requires s.Valid()
  {
    forall n :: 0 <= n < s.nplayers && n != s.localPlayer ==> s.confirmed[n] == 0 || s.confirmed[n] < |s.rows[n]|
  }

  lemma FreshIsEmptyExactly(confirmed: nat, current: nat, states: seq<Byte>)
    requires confirmed <= current
    ensures Fresh(1 + current - |states|, confirmed, states) == [] <==> states == []
  {
  }

  /** Accepting a packet stores the cycle it confirms exactly if the packet has states or the cycle was stored. */
  lemma AcceptedStoresExactly(s: State, slot: nat, current: int, states: seq<Byte>)
    requires s.Valid() && slot < MAX_PLAYERS && s.confirmed[slot] <= current
    ensures var t := Accepted(s, slot, current, states);
      && t.confirmed[slot] == current
      && (current < |t.rows[slot]| <==> current < |s.rows[slot]| || states != [])
  {
    FreshIsEmptyExactly(s.confirmed[slot], current, states);
    MergedEntries(s.rows[slot], s.confirmed[slot], current, states);
  }

  /** Receiving a packet keeps all confirmed cycles stored unless it has no states and confirms a cycle, past 0, that
      is not stored. */
  lemma ReceiveKeepsStoredExactly(s: State, p: Packet)
    requires s.Consistent() && ConfirmedStored(s)
    ensures var t := ReceivePacket(s, p);
      && t.Valid()
      && (ConfirmedStored(t)
          <==> !InOrder(s, p.slot, p.current) || p.states != [] || p.current == 0 || p.current < |s.rows[p.slot]|)
  {
    hide Accepted;
    if InOrder(s, p.slot, p.current) {
      var u := Acknowledged(s, p.slot, p.ack);
      AcceptedStoresExactly(u, p.slot, p.current, p.states);
      AcceptedChangesOneRow(u, p.slot, p.current, p.states);
    }
  }

  lemma AcceptedChangesOneRow(s: State, slot: nat, current: int, states: seq<Byte>)
    requires s.Valid() && slot < MAX_PLAYERS && s.confirmed[slot] <= current
    ensures var t := Accepted(s, slot, current, states);
      && t.Valid() && t.nplayers == s.nplayers && t.localPlayer == s.localPlayer
      && forall n :: 0 <= n < MAX_PLAYERS && n != slot ==> t.rows[n] == s.rows[n] && t.confirmed[n] == s.confirmed[n]
  {
    hide Merged;
  }

  lemma ReceiveKeepsConsistent(s: State, buf: seq<Byte>)
    requires s.Consistent() && Readable(buf)
    ensures Receive(s, buf).Consistent()
  {
    if |buf| >= 13 && InOrder(s, Signed(buf[0]), Int32At(buf, 1)) {
      var slot := Signed(buf[0]);
      var t := Acknowledged(s, slot, Int32At(buf, 9));
      assert t.rows == s.rows && t.confirmed == s.confirmed;
      AcceptedKeepsConsistent(t, slot, Int32At(buf, 1), buf[HEADER_LENGTH..]);
    }
  }

  // ---------------------------------------------------------------------------------------------
  // Rollback
  // ---------------------------------------------------------------------------------------------

  /** Without a mismatch every compared entry equals its byte; a mismatch is the first one and is stored. */
  lemma {:induction false} FirstMismatchIsFirst(row: seq<Byte>, first: nat, bytes: seq<Byte>)
    ensures var m := FirstMismatch(row, first, bytes);
      && (m != -1 ==> first <= m < first + |bytes| && m < |row| && row[m] != Signed(bytes[m - first]))
      && (forall i :: first <= i < first + |bytes| && i < |row| && (m == -1 || i < m) ==>
            row[i] == bytes[i - first])
  {
    if bytes != [] {
      FirstMismatchIsFirst(row, first, bytes[..|bytes| - 1]);
    }
  }

  lemma FirstMismatchStep(row: seq<Byte>, first: nat, bytes: seq<Byte>, k: nat)
    requires k < |bytes|
    ensures var m := FirstMismatch(row, first, bytes[..k]);
      && m < first + k
      && FirstMismatch(row, first, bytes[..k + 1])
         == if m == -1 && first + k < |row| && row[first + k] != Signed(bytes[k]) then first + k else m
  {
    FirstMismatchIsFirst(row, first, bytes[..k]);
    assert bytes[..k + 1][..k] == bytes[..k];
  }

  datatype Operation = Read(state: Byte) | Unread | Arrival(buf: seq<Byte>)

  function Perform(s: State, op: Operation): State
    requires s.Consistent() && (op.Arrival? ==> Readable(op.buf))
  {
    match op
    case Read(state) => ReadLocal(s, state)
    case Unread => UnreadLocal(s)
    case Arrival(buf) => Receive(s, buf)
  }

  lemma PerformKeepsConsistent(s: State, op: Operation)
    requires s.Consistent() && (op.Arrival? ==> Readable(op.buf))
    ensures Perform(s, op).Consistent()
    ensures Perform(s, op).localPlayer == s.localPlayer && Perform(s, op).nplayers == s.nplayers
  {
    match op
    case Read(state) => ReadLocalKeepsConsistent(s, state);
    case Unread => UnreadLocalKeepsConsistent(s);
    case Arrival(buf) => ReceiveKeepsConsistent(s, buf);
  }

  ghost predicate AllReadable(ops: seq<Operation>) {
    forall i :: 0 <= i < |ops| && ops[i].Arrival? ==> Readable(ops[i].buf)
  }

  function PerformAll(s: State, ops: seq<Operation>): State
    requires s.Consistent() && AllReadable(ops)
    decreases |ops|
  {
    if ops == [] then s
    else
      PerformKeepsConsistent(s, ops[0]);
      PerformAll(Perform(s, ops[0]), ops[1..])
  }

  /** Entry `i` of player `n` is still there and, if it changed, the mark is at or before it. */
  ghost predicate EntryCovered(s: State, t: State, n: int, i: int)
    requires s.Valid() && t.Valid() && 0 <= n < MAX_PLAYERS && 0 <= i < |s.rows[n]|
  {
    && i < |t.rows[n]|
    && (t.rows[n][i] != s.rows[n][i] ==> t.firstInvalid != -1 && t.firstInvalid <= i)
  }

  /** Every remote entry of `s` that differs in `t` lies at or after the mark of `t`. */
  ghost predicate MarkCovers(s: State, t: State)
    requires s.Valid() && t.Valid()
  {
    forall n, i :: 0 <= n < s.nplayers && n != s.localPlayer && 0 <= i < |s.rows[n]| ==> EntryCovered(s, t, n, i)
  }

  /** One merge: a changed entry lies at or after the first mismatch.  The tail rewrite marks nothing, but
      what it rewrites repeated the confirmed entry. */
  lemma MergedChangesAfterMismatch(row: seq<Byte>, confirmed: nat, current: nat, states: seq<Byte>, i: nat)
    requires confirmed <= current && RepeatsFrom(row, confirmed) && i < |row|
    ensures var start := 1 + current - |states|;
      var m := FirstMismatch(row, Max(start, confirmed), Fresh(start, confirmed, states));
      var r := Merged(row, confirmed, current, states);
      |r| >= |row| && (r[i] != row[i] ==> m != -1 && m <= i)
  {
    var start := 1 + current - |states|;
    hide Merged, Fresh;
    MergedEntries(row, confirmed, current, states);
    FirstMismatchIsFirst(row, Max(start, confirmed), Fresh(start, confirmed, states));
  }

  lemma AcceptedKeepsMark(s: State, slot: nat, current: int, states: seq<Byte>)
    requires s.Consistent() && InOrder(s, slot, current) && s.firstInvalid >= -1
    ensures var t := Accepted(s, slot, current, states);
      && t.Valid()
      && MarkCovers(s, t)
      && t.firstInvalid >= -1
      && (s.firstInvalid >= 0 ==> 0 <= t.firstInvalid <= s.firstInvalid)
  {
    var t := Accepted(s, slot, current, states);
    var start := 1 + current - |states|;
    FirstMismatchIsFirst(s.rows[slot], Max(start, s.confirmed[slot]), Fresh(start, s.confirmed[slot], states));
    forall n, i | 0 <= n < s.nplayers && n != s.localPlayer && 0 <= i < |s.rows[n]|
      ensures EntryCovered(s, t, n, i)
    {
      if n == slot {
        MergedChangesAfterMismatch(s.rows[slot], s.confirmed[slot], current, states, i);
      }
    }
  }

  lemma PerformKeepsMark(s: State, op: Operation)
    requires s.Consistent() && (op.Arrival? ==> Readable(op.buf)) && s.firstInvalid >= -1
    ensures Perform(s, op).Consistent()
    ensures MarkCovers(s, Perform(s, op))
    ensures s.firstInvalid >= 0 ==> 0 <= Perform(s, op).firstInvalid <= s.firstInvalid
    ensures Perform(s, op).firstInvalid >= -1
  {
    PerformKeepsConsistent(s, op);
    if op.Arrival? && |op.buf| >= 13 && InOrder(s, Signed(op.buf[0]), Int32At(op.buf, 1)) {
      var slot := Signed(op.buf[0]);
      var t := Acknowledged(s, slot, Int32At(op.buf, 9));
      assert t == s.(acked := t.acked);
      assert MarkCovers(s, t);
      AcceptedKeepsMark(t, slot, Int32At(op.buf, 1), op.buf[HEADER_LENGTH..]);
      var r := Accepted(t, slot, Int32At(op.buf, 1), op.buf[HEADER_LENGTH..]);
      forall n, i | 0 <= n < s.nplayers && n != s.localPlayer && 0 <= i < |s.rows[n]|
        ensures EntryCovered(s, r, n, i)
      {
        assert EntryCovered(t, r, n, i);
      }
    }
  }

  /** Rollback soundness: after any local reads, unreads and packets since `mark_valid`, every stored remote
      entry that changed lies at or after the first invalid cycle, and -1 means that none changed. */
  lemma {:induction false} RollbackIsSound(s: State, ops: seq<Operation>)
    requires s.Consistent() && AllReadable(ops) && s.firstInvalid >= -1
    ensures PerformAll(s, ops).Consistent()
    ensures MarkCovers(s, PerformAll(s, ops))
    ensures PerformAll(s, ops).firstInvalid >= -1
    ensures s.firstInvalid >= 0 ==> 0 <= PerformAll(s, ops).firstInvalid <= s.firstInvalid
    decreases |ops|
  {
    if ops != [] {
      PerformKeepsMark(s, ops[0]);
      PerformKeepsConsistent(s, ops[0]);
      var m := Perform(s, ops[0]);
      RollbackIsSound(m, ops[1..]);
      var t := PerformAll(s, ops);
      forall n, i | 0 <= n < s.nplayers && n != s.localPlayer && 0 <= i < |s.rows[n]|
        ensures EntryCovered(s, t, n, i)
      {
        assert EntryCovered(s, m, n, i) && EntryCovered(m, t, n, i);
      }
    }
  }

  /** A mismatch with a byte below 128 is a real difference. */
  lemma MismatchIsDifference(row: seq<Byte>, confirmed: nat, current: nat, states: seq<Byte>)
    requires confirmed <= current
    requires forall i :: 0 <= i < |states| ==> states[i] < 128
    ensures var start := 1 + current - |states|;
      var first, bytes := Max(start, confirmed), Fresh(start, confirmed, states);
      var m := FirstMismatch(row, first, bytes);
      m != -1 ==> first <= m <= current && m < |row| && row[m] != bytes[m - first]
  {
    var start := 1 + current - |states|;
    FirstMismatchIsFirst(row, Max(start, confirmed), Fresh(start, confirmed, states));
  }

  /** For one packet of states below 128 the mark is exact: it is the least changed entry. */
  lemma MarkIsLeastChange(row: seq<Byte>, confirmed: nat, current: nat, states: seq<Byte>)
    requires confirmed <= current && RepeatsFrom(row, confirmed)
    requires forall i :: 0 <= i < |states| ==> states[i] < 128
    ensures var start := 1 + current - |states|;
      var m := FirstMismatch(row, Max(start, confirmed), Fresh(start, confirmed, states));
      var r := Merged(row, confirmed, current, states);
      && |r| >= |row|
      && (m == -1 ==> forall i :: 0 <= i < |row| ==> r[i] == row[i])
      && (m != -1 ==> 0 <= m < |row| && r[m] != row[m] && forall i :: 0 <= i < m ==> r[i] == row[i])
  {
    hide Merged, Fresh, FirstMismatch;
    var start := 1 + current - |states|;
    var m := FirstMismatch(row, Max(start, confirmed), Fresh(start, confirmed, states));
    var r := Merged(row, confirmed, current, states);
    MergedEntries(row, confirmed, current, states);
    MismatchIsDifference(row, confirmed, current, states);
    forall i: nat | i < |row| && (m == -1 || i < m)
      ensures r[i] == row[i]
    {
      MergedChangesAfterMismatch(row, confirmed, current, states, i);
    }
  }

  // ---------------------------------------------------------------------------------------------
  // The mark, exactly
  // ---------------------------------------------------------------------------------------------

  /** The mark `now` is the first of the mark `old` and of the changes; it is -1 if there is neither. */
  ghost predicate LeastMark(before: int, now: int, changes: iset<nat>) {
    && (now == -1 <==> before == -1 && changes == iset{})
    && (now != -1 ==> now == before || (now >= 0 && now in changes))
    && (before != -1 ==> now <= before)
    && (forall i :: i in changes ==> now <= i)
  }

  lemma LeastMarkInTurn(a: int, b: int, c: int, first: iset<nat>, second: iset<nat>)
    requires a >= -1 && b >= -1 && c >= -1 && LeastMark(a, b, first) && LeastMark(b, c, second)
    ensures LeastMark(a, c, first + second)
  {
    if first + second == iset{} {
      assert first == iset{} && second == iset{};
    }
  }

  /** The entries that the code corrects: stored ones in the window, not skipped as confirmed, that differ from the
      state in the packet when that is read as a signed character. */
  ghost predicate Corrected(row: seq<Byte>, confirmed: nat, current: nat, states: seq<Byte>, i: nat) {
    var start := 1 + current - |states|;
    && start <= i <= current && confirmed <= i < |row|
    && row[i] != Signed(states[i - start])
  }

  lemma FreshEntry(confirmed: nat, current: nat, states: seq<Byte>, i: nat)
    requires confirmed <= current
    requires var start := 1 + current - |states|; Max(start, confirmed) <= i <= current
    ensures var start := 1 + current - |states|;
      i - Max(start, confirmed) < |Fresh(start, confirmed, states)|
      && Fresh(start, confirmed, states)[i - Max(start, confirmed)] == states[i - start]
  {
  }

  lemma MismatchIsCorrected(row: seq<Byte>, confirmed: nat, current: nat, states: seq<Byte>)
    requires confirmed <= current
    ensures var start := 1 + current - |states|;
      var m := FirstMismatch(row, Max(start, confirmed), Fresh(start, confirmed, states));
      && (m != -1 ==> m >= 0 && Corrected(row, confirmed, current, states, m))
      && (forall i: nat :: Corrected(row, confirmed, current, states, i) ==> m != -1 && m <= i)
  {
    hide FirstMismatch, Fresh;
    var start := 1 + current - |states|;
    var first, bytes := Max(start, confirmed), Fresh(start, confirmed, states);
    var m := FirstMismatch(row, first, bytes);
    FirstDifference(row, first, bytes);
    WindowEnds(confirmed, current, states);
    if m != -1 {
      FreshEntry(confirmed, current, states, m);
    }
    forall i: nat | Corrected(row, confirmed, current, states, i)
      ensures m != -1 && m <= i
    {
      FreshEntry(confirmed, current, states, i);
    }
  }

  lemma WindowEnds(confirmed: nat, current: nat, states: seq<Byte>)
    requires confirmed <= current
    ensures var start := 1 + current - |states|;
      Max(start, confirmed) + |Fresh(start, confirmed, states)| == current + 1
  {
  }

  /** The mismatch found is the first, under the comparison that the code makes. */
  lemma {:induction false} FirstDifference(row: seq<Byte>, first: nat, bytes: seq<Byte>)
    ensures var m := FirstMismatch(row, first, bytes);
      && (m != -1 ==> first <= m < first + |bytes| && m < |row| && row[m] != Signed(bytes[m - first]))
      && (forall i :: first <= i < first + |bytes| && i < |row| && (m == -1 || i < m) ==>
            row[i] == Signed(bytes[i - first]))
  {
    if bytes != [] {
      FirstDifference(row, first, bytes[..|bytes| - 1]);
    }
  }

  /** The mark after a packet is the first of the mark before and of the entries that the packet corrects. */
  lemma AcceptedMarksFirstCorrection(s: State, slot: nat, current: int, states: seq<Byte>)
    requires s.Valid() && slot < MAX_PLAYERS && s.confirmed[slot] <= current && s.firstInvalid >= -1
    ensures LeastMark(s.firstInvalid, Accepted(s, slot, current, states).firstInvalid,
                      iset i: nat | Corrected(s.rows[slot], s.confirmed[slot], current, states, i))
  {
    hide Corrected, FirstMismatch, Merged;
    var corrected := iset i: nat | Corrected(s.rows[slot], s.confirmed[slot], current, states, i);
    MismatchIsCorrected(s.rows[slot], s.confirmed[slot], current, states);
    var start := 1 + current - |states|;
    var m := FirstMismatch(s.rows[slot], Max(start, s.confirmed[slot]), Fresh(start, s.confirmed[slot], states));
    assert m == -1 ==> corrected == iset{};
    assert m != -1 ==> m in corrected;
  }

  /** A state of 128 or more differs from its own stored copy, because one is read as signed and the other is not: the
      packet changes nothing, and marks the cycle. */
  lemma HighStateIsMarked(state: Byte)
    requires state >= 128
    ensures var row := [0, state];
      && Merged(row, 0, 1, row) == row
      && FirstMismatch(row, 0, row) == 1
      && !Corrected(row, 0, 1, row, 0) && Corrected(row, 0, 1, row, 1)
  {
    assert FirstMismatch([0, state][..1], 0, []) == -1;
    assert [0, state][..1] == [0] && [0][..0] == [];
    assert FirstMismatch([0, state], 0, [0]) == -1;
  }

  /** The stored entries of remote players that differ between two states. */
  ghost predicate Changed(s: State, t: State, n: int, i: nat) {
    && 0 <= n < |s.rows| && n < |t.rows| && n < s.nplayers && n != s.localPlayer
    && i < |s.rows[n]| && i < |t.rows[n]| && t.rows[n][i] != s.rows[n][i]
  }

  ghost function Changes(s: State, t: State): iset<nat> {
    iset i: nat | ChangedSomewhere(s, t, i)
  }

  ghost predicate ChangedSomewhere(s: State, t: State, i: nat) {
    exists n :: Changed(s, t, n, i)
  }

  ghost predicate LowStates(states: seq<Byte>) {
    forall i :: 0 <= i < |states| ==> states[i] < 128
  }

  /** With states below 128 the corrections are changes: the mark is the first of the old one and of what changed. */
  lemma AcceptedMarksFirstChange(s: State, slot: nat, current: int, states: seq<Byte>)
    requires s.Consistent() && InOrder(s, slot, current) && LowStates(states) && s.firstInvalid >= -1
    ensures var t := Accepted(s, slot, current, states);
      LeastMark(s.firstInvalid, t.firstInvalid, Changes(s, t))
  {
    hide FirstMismatch, Merged, Fresh;
    var t := Accepted(s, slot, current, states);
    var row, confirmed := s.rows[slot], s.confirmed[slot];
    MarkIsLeastChange(row, confirmed, current, states);
    var start := 1 + current - |states|;
    var m := FirstMismatch(row, Max(start, confirmed), Fresh(start, confirmed, states));
    forall i: nat
      ensures i in Changes(s, t) <==> i < |row| && t.rows[slot][i] != row[i]
    {
      if i < |row| && t.rows[slot][i] != row[i] {
        assert Changed(s, t, slot, i);
      }
    }
    assert m != -1 ==> m in Changes(s, t);
    assert m == -1 ==> Changes(s, t) == iset{};
  }

  lemma NoChanges(s: State, t: State)
    requires s.Valid() && t.Valid()
    requires forall n :: 0 <= n < s.nplayers && n != s.localPlayer ==> s.rows[n] <= t.rows[n]
    ensures Changes(s, t) == iset{}
  {
    forall i: nat
      ensures i !in Changes(s, t)
    {
      forall n
        ensures !Changed(s, t, n, i)
      {
        if 0 <= n < s.nplayers && n != s.localPlayer {
          PrefixHasNoChange(s.rows[n], t.rows[n], i);
        }
      }
    }
  }

  lemma PrefixHasNoChange(a: seq<Byte>, b: seq<Byte>, i: nat)
    requires a <= b
    ensures i < |a| ==> i < |b| && a[i] == b[i]
  {
  }

  lemma SameMark(mark: int)
    requires mark >= -1
    ensures LeastMark(mark, mark, iset{})
  {
  }

  /** The states of a packet are below 128, as those of seven controls are. */
  ghost predicate LowArrival(op: Operation) {
    op.Arrival? && |op.buf| >= HEADER_LENGTH ==> LowStates(op.buf[HEADER_LENGTH..])
  }

  lemma ReceiveMarksFirstChange(s: State, buf: seq<Byte>)
    requires s.Consistent() && Readable(buf) && s.firstInvalid >= -1 && LowArrival(Arrival(buf))
    ensures var t := Receive(s, buf);
      t.Valid() && LeastMark(s.firstInvalid, t.firstInvalid, Changes(s, t))
  {
    hide Accepted, LeastMark, Changes;
    ReceiveKeepsConsistent(s, buf);
    SameMark(s.firstInvalid);
    if |buf| >= 13 && InOrder(s, Signed(buf[0]), Int32At(buf, 1)) {
      var slot, current := Signed(buf[0]), Int32At(buf, 1);
      var u := Acknowledged(s, slot, Int32At(buf, 9));
      NoChanges(s, u);
      if |buf| - HEADER_LENGTH == Int32At(buf, 13) {
        var t := Accepted(u, slot, current, buf[HEADER_LENGTH..]);
        AcceptedMarksFirstChange(u, slot, current, buf[HEADER_LENGTH..]);
        SameChanges(s, u, t);
      }
    } else {
      NoChanges(s, s);
    }
  }

  lemma SameChanges(s: State, u: State, t: State)
    requires s.rows == u.rows && s.nplayers == u.nplayers && s.localPlayer == u.localPlayer
    ensures Changes(s, t) == Changes(u, t)
  {
    forall i: nat
      ensures i in Changes(s, t) <==> i in Changes(u, t)
    {
      assert forall n :: Changed(s, t, n, i) <==> Changed(u, t, n, i);
    }
  }

  lemma PerformMarksFirstChange(s: State, op: Operation)
    requires s.Consistent() && (op.Arrival? ==> Readable(op.buf)) && LowArrival(op) && s.firstInvalid >= -1
    ensures var t := Perform(s, op);
      t.Consistent() && LeastMark(s.firstInvalid, t.firstInvalid, Changes(s, t))
  {
    hide LeastMark, Changes, Receive;
    PerformKeepsConsistent(s, op);
    match op
    case Read(_) =>
      NoChanges(s, Perform(s, op));
      SameMark(s.firstInvalid);
    case Unread =>
      NoChanges(s, Perform(s, op));
      SameMark(s.firstInvalid);
    case Arrival(buf) => ReceiveMarksFirstChange(s, buf);
  }

  lemma PerformLast(s: State, ops: seq<Operation>)
    requires s.Consistent() && AllReadable(ops) && ops != []
    ensures var before, last := ops[..|ops| - 1], ops[|ops| - 1];
      && AllReadable(before) && PerformAll(s, before).Consistent() && (last.Arrival? ==> Readable(last.buf))
      && PerformAll(s, ops) == Perform(PerformAll(s, before), last)
  {
    hide Perform;
    var before, last := ops[..|ops| - 1], ops[|ops| - 1];
    assert ops == before + [last];
    PerformAllInTurn(s, before, [last]);
    PerformOne(PerformAll(s, before), last);
  }

  lemma PerformOne(s: State, op: Operation)
    requires s.Consistent() && (op.Arrival? ==> Readable(op.buf))
    ensures AllReadable([op]) && PerformAll(s, [op]) == Perform(s, op)
  {
    PerformKeepsConsistent(s, op);
    assert PerformAll(Perform(s, op), [op][1..]) == Perform(s, op);
  }

  /** All the changes that the operations make on the way, also those that a later one takes back. */
  ghost function ChangesOver(s: State, ops: seq<Operation>): iset<nat>
    requires s.Consistent() && AllReadable(ops)
  {
    if ops == [] then iset{}
    else
      PerformLast(s, ops);
      ChangesOver(s, ops[..|ops| - 1]) + Changes(PerformAll(s, ops[..|ops| - 1]), PerformAll(s, ops))
  }

  /** The mark is exact over any operations: it is the first of the mark before them and of all the entries that
      changed at some step, and -1 only if there is neither. */
  lemma {:induction false} MarkIsFirstChange(s: State, ops: seq<Operation>)
    requires s.Consistent() && AllReadable(ops) && s.firstInvalid >= -1
    requires forall k :: 0 <= k < |ops| ==> LowArrival(ops[k])
    ensures PerformAll(s, ops).firstInvalid >= -1
    ensures LeastMark(s.firstInvalid, PerformAll(s, ops).firstInvalid, ChangesOver(s, ops))
    decreases |ops|
  {
    hide LeastMark, Changes, Perform, LowArrival;
    if ops == [] {
      SameMark(s.firstInvalid);
      assert PerformAll(s, []) == s;
    } else {
      var before, last := ops[..|ops| - 1], ops[|ops| - 1];
      PerformLast(s, ops);
      MarkIsFirstChange(s, before);
      RollbackIsSound(s, ops);
      var u, t := PerformAll(s, before), PerformAll(s, ops);
      PerformMarksFirstChange(u, last);
      LeastMarkInTurn(s.firstInvalid, u.firstInvalid, t.firstInvalid, ChangesOver(s, before), Changes(u, t));
    }
  }

  // ---------------------------------------------------------------------------------------------
  // Reading the controls of a cycle
  // ---------------------------------------------------------------------------------------------

  /** `Untouched`: the cycle lies before the first input.  `TimedOut`: the remote player's input did not come.
      `OutOfRange`: the index assertion. */
  datatype Outcome = Untouched | TimedOut | OutOfRange | Status(bits: seq<bool>)

  function Pow2(n: nat): (p: nat)
    ensures p > 0
  {
    if n == 0 then 1 else 2 * Pow2(n - 1)
  }

  function Bits(state: Byte): (b: seq<bool>)
    ensures |b| == NUM_CONTROLS
  {
    seq(NUM_CONTROLS, n requires 0 <= n => state / Pow2(n) % 2 == 1)
  }

  /** The number with these binary digits, the lowest first. */
  function BinaryValue(bits: seq<bool>): nat {
    if bits == [] then 0 else (if bits[0] then 1 else 0) + 2 * BinaryValue(bits[1..])
  }

  /** The outputs are the seven lowest binary digits of the state: states below 128 can be told apart. */
  lemma BitsAreDigits(state: Byte)
    ensures BinaryValue(Bits(state)) == state % 128
  {
    DigitsSum(state, Bits(state), 0);
    assert Pow2(NUM_CONTROLS) == 128;
  }

  /** The outputs tell two states apart exactly as far as those seven digits do. */
  lemma BitsTellApart(x: Byte, y: Byte)
    ensures Bits(x) == Bits(y) <==> x % 128 == y % 128
  {
    hide Bits, BinaryValue;
    BitsAreDigits(x);
    BitsAreDigits(y);
    SameValueSameBits(Bits(x), Bits(y));
  }

  lemma {:induction false} SameValueSameBits(a: seq<bool>, b: seq<bool>)
    requires |a| == |b|
    ensures BinaryValue(a) == BinaryValue(b) <==> a == b
  {
    if a != [] {
      SameValueSameBits(a[1..], b[1..]);
      assert a == [a[0]] + a[1..] && b == [b[0]] + b[1..];
    }
  }

  lemma {:induction false} DigitsSum(state: nat, bits: seq<bool>, n: nat)
    requires forall k :: 0 <= k < |bits| ==> bits[k] == (state / Pow2(n + k) % 2 == 1)
    ensures BinaryValue(bits) == state / Pow2(n) % Pow2(|bits|)
    decreases |bits|
  {
    hide Pow2, BinaryValue;
    FirstBit(bits, n);
    if bits != [] {
      var rest := bits[1..];
      assert bits[0] == (state / Pow2(n + 0) % 2 == 1);
      forall k | 0 <= k < |rest|
        ensures rest[k] == (state / Pow2(n + 1 + k) % 2 == 1)
      {
        assert rest[k] == bits[k + 1];
      }
      DigitsSum(state, rest, n + 1);
      HalvedQuotient(state, Pow2(n));
      FirstDigit(state / Pow2(n), Pow2(|rest|));
    }
  }

  lemma FirstBit(bits: seq<bool>, n: nat)
    ensures bits == [] ==> BinaryValue(bits) == 0 && Pow2(|bits|) == 1
    ensures bits != [] ==> BinaryValue(bits) == (if bits[0] then 1 else 0) + 2 * BinaryValue(bits[1..])
                           && Pow2(|bits|) == 2 * Pow2(|bits[1..]|)
    ensures Pow2(n + 1) == 2 * Pow2(n)
  {
  }

  lemma HalvedQuotient(x: nat, d: nat)
    requires d > 0
    ensures x / (2 * d) == x / d / 2
  {
    var q := x / d;
    assert x == d * q + x % d;
    assert q == 2 * (q / 2) + q % 2;
    assert x == 2 * d * (q / 2) + (d * (q % 2) + x % d);
    DivUnique(x, 2 * d, q / 2);
  }

  lemma FirstDigit(x: nat, m: nat)
    requires m > 0
    ensures x % (2 * m) == x % 2 + 2 * (x / 2 % m)
  {
    var h := x / 2;
    assert h == m * (h / m) + h % m;
    assert x == 2 * m * (h / m) + (x % 2 + 2 * (h % m));
    DivUnique(x, 2 * m, h / m);
  }

  function CycleIndex(s: State, cycle: int): int {
    cycle - 1 - s.startingCycles - s.delay
  }

  /** The answer once waiting is over. */
  function ControlStatus(s: State, cycle: int, player: nat): Outcome
    requires s.Valid() && player < MAX_PLAYERS
  {
    var c := CycleIndex(s, cycle);
    if c < 0 then Untouched
    else if player != s.localPlayer && c > s.confirmed[player] then TimedOut
    else if c >= |s.rows[player]| then OutOfRange
    else Status(Bits(s.rows[player][c]))
  }

  /** What is answered, cycle by cycle from the first of the level after the delay: the outputs of the state stored for
      it, if that is the local player's own or confirmed. */
  lemma CyclesAreAnswered(s: State, i: int, player: nat)
    requires s.Valid() && player < MAX_PLAYERS
    ensures var answer := ControlStatus(s, s.startingCycles + s.delay + 1 + i, player);
      && (i < 0 ==> answer == Untouched)
      && (i >= 0 && player != s.localPlayer && i > s.confirmed[player] ==> answer == TimedOut)
      && (i >= 0 && (player == s.localPlayer || i <= s.confirmed[player]) ==>
            answer == if i < |s.rows[player]| then Status(Bits(s.rows[player][i])) else OutOfRange)
  {
  }

  /** The own row after some operations: what was read, less what was taken back. */
  function OwnRow(row: seq<Byte>, ops: seq<Operation>): seq<Byte> {
    if ops == [] then row
    else
      var before, op := OwnRow(row, ops[..|ops| - 1]), ops[|ops| - 1];
      if op.Read? then before + [op.state]
      else if op.Unread? && before != [] then before[..|before| - 1]
      else before
  }

  lemma {:induction false} OwnRowOfReads(row: seq<Byte>, states: seq<Byte>)
    ensures OwnRow(row, seq(|states|, k requires 0 <= k < |states| => Read(states[k]))) == row + states
    decreases |states|
  {
    var ops := seq(|states|, k requires 0 <= k < |states| => Read(states[k]));
    if states != [] {
      var fewer := states[..|states| - 1];
      OwnRowOfReads(row, fewer);
      assert ops[..|ops| - 1] == seq(|fewer|, k requires 0 <= k < |fewer| => Read(fewer[k]));
      assert states == fewer + [states[|states| - 1]];
    }
  }

  lemma PerformOnOwnRow(s: State, op: Operation)
    requires s.Consistent() && s.HasLocalPlayer() && (op.Arrival? ==> Readable(op.buf))
    ensures var t := Perform(s, op);
      && t.Valid() && t.localPlayer == s.localPlayer && t.nplayers == s.nplayers
      && t.startingCycles == s.startingCycles && t.delay == s.delay
      && t.rows[s.localPlayer] == OwnRow(s.rows[s.localPlayer], [op])
  {
    hide Receive;
    PerformKeepsConsistent(s, op);
    assert OwnRow(s.rows[s.localPlayer], [op][..0]) == s.rows[s.localPlayer];
    if op.Arrival? {
      ReceiveKeepsOwnRow(s, op.buf);
    }
  }

  lemma ReceiveKeepsOwnRow(s: State, buf: seq<Byte>)
    requires s.Consistent() && s.HasLocalPlayer() && Readable(buf)
    ensures var t := Receive(s, buf);
      && t.Valid() && t.rows[s.localPlayer] == s.rows[s.localPlayer]
      && t.startingCycles == s.startingCycles && t.delay == s.delay
  {
    hide Receive, Merged, FirstMismatch;
    ReceiveChecks(s, buf);
    ReceiveKeepsConsistent(s, buf);
  }

  lemma {:induction false} OwnRowIsRead(s: State, ops: seq<Operation>)
    requires s.Consistent() && s.HasLocalPlayer() && AllReadable(ops)
    ensures var t := PerformAll(s, ops);
      && t.Valid() && t.localPlayer == s.localPlayer && t.nplayers == s.nplayers
      && t.startingCycles == s.startingCycles && t.delay == s.delay
      && t.rows[s.localPlayer] == OwnRow(s.rows[s.localPlayer], ops)
    decreases |ops|
  {
    hide Perform;
    if ops == [] {
      assert PerformAll(s, []) == s;
    } else {
      var before, last := ops[..|ops| - 1], ops[|ops| - 1];
      PerformLast(s, ops);
      OwnRowIsRead(s, before);
      PerformOnOwnRow(PerformAll(s, before), last);
      OwnRowOfOne(PerformAll(s, before).rows[s.localPlayer], last);
    }
  }

  lemma OwnRowOfOne(row: seq<Byte>, op: Operation)
    ensures OwnRow(row, [op]) == if op.Read? then row + [op.state]
                                 else if op.Unread? && row != [] then row[..|row| - 1]
                                 else row
  {
    assert OwnRow(row, [op][..0]) == row;
  }

  /** From the start of a level: the `k`-th state that the local player has read, and not taken back, is its answer for
      the cycle `k` after the start and the delay, whatever arrives meanwhile.  Before the first there is nothing to
      answer, and past the last the index assertion fails. */
  lemma LevelAnswersItsReads(s: State, startingCycles: int, nplayers: int, localPlayer: int, ops: seq<Operation>,
                             k: int)
    requires 0 <= localPlayer < nplayers <= MAX_PLAYERS && AllReadable(ops)
    ensures var own := OwnRow([], ops);
      var level := NewLevel(s, startingCycles, nplayers, localPlayer);
      && level.Consistent() && PerformAll(level, ops).Valid()
      && ControlStatus(PerformAll(level, ops), startingCycles + s.delay + k, localPlayer)
         == if k <= 0 then Untouched else if k <= |own| then Status(Bits(own[k - 1])) else OutOfRange
  {
    hide ControlStatus, Bits, PerformAll;
    var level := NewLevel(s, startingCycles, nplayers, localPlayer);
    OwnRowIsRead(level, ops);
    CyclesAreAnswered(PerformAll(level, ops), k - 1, localPlayer);
  }

  /** A new level forgets the inputs and the confirmations of all players, and no change that is still marked. */
  lemma NewLevelKeepsMark(s: State, startingCycles: int, nplayers: int, localPlayer: int)
    requires 1 <= nplayers <= MAX_PLAYERS
    ensures var t := NewLevel(s, startingCycles, nplayers, localPlayer);
      && t.Consistent() && t.firstInvalid == s.firstInvalid
      && forall n :: 0 <= n < MAX_PLAYERS ==> t.rows[n] == [] && t.confirmed[n] == 0 && t.acked[n] == 0
  {
  }

  /** Asked for a confirmed cycle past index 0, a peer that has stored it has an answer. */
  lemma ConfirmedIsAnswered(s: State, cycle: int, player: nat)
    requires s.Valid() && ConfirmedStored(s) && player < s.nplayers && player != s.localPlayer
    requires 1 <= CycleIndex(s, cycle) <= s.confirmed[player]
    ensures ControlStatus(s, cycle, player) == Status(Bits(s.rows[player][CycleIndex(s, cycle)]))
  {
  }

  /** At the start of a level, a packet that confirms cycle 5 without any states: it is taken, and the index assertion
      of the source fails for the cycles up to 5. */
  lemma EmptyPacketIsConfirmed(delay: int)
    ensures var s := NewLevel(State([], [], [], 0, 2, 0, delay, -1), 0, 2, 0);
      var t := ReceivePacket(s, Packet(1, 5, 0, 0, []));
      && s.Consistent() && t.Consistent()
      && t.confirmed[1] == 5 && t.rows[1] == []
      && CycleIndex(t, delay + 3) == 2 && ControlStatus(t, delay + 3, 1) == OutOfRange
  {
  }

  // ---------------------------------------------------------------------------------------------
  // Waiting for a cycle
  // ---------------------------------------------------------------------------------------------

  ghost predicate BatchReadable(bufs: seq<seq<Byte>>) {
    forall i :: 0 <= i < |bufs| ==> Readable(bufs[i])
  }

  function Arrivals(bufs: seq<seq<Byte>>): (ops: seq<Operation>)
    ensures |ops| == |bufs| && (BatchReadable(bufs) ==> AllReadable(ops))
  {
    seq(|bufs|, i requires 0 <= i < |bufs| => Arrival(bufs[i]))
  }

  lemma {:induction false} PerformAllKeepsConsistent(s: State, ops: seq<Operation>)
    requires s.Consistent() && AllReadable(ops)
    ensures PerformAll(s, ops).Consistent()
    ensures PerformAll(s, ops).localPlayer == s.localPlayer && PerformAll(s, ops).nplayers == s.nplayers
    decreases |ops|
  {
    if ops != [] {
      PerformKeepsConsistent(s, ops[0]);
      PerformAllKeepsConsistent(Perform(s, ops[0]), ops[1..]);
    }
  }

  /** The state after waiting for index `c` of a player: each look at the network takes what has arrived by then, one
      batch of packets, and the waiting ends with the confirmation or, when no batch is left, with the time. */
  function Awaited(s: State, c: int, player: nat, batches: seq<seq<seq<Byte>>>): State
    requires s.Consistent() && player < MAX_PLAYERS && forall k :: 0 <= k < |batches| ==> BatchReadable(batches[k])
    decreases |batches|
  {
    if c <= s.confirmed[player] || batches == [] then s
    else
      PerformAllKeepsConsistent(s, Arrivals(batches[0]));
      Awaited(PerformAll(s, Arrivals(batches[0])), c, player, batches[1..])
  }

  function Flat(batches: seq<seq<seq<Byte>>>): seq<seq<Byte>> {
    if batches == [] then [] else batches[0] + Flat(batches[1..])
  }

  lemma {:induction false} FlatIsReadable(batches: seq<seq<seq<Byte>>>)
    requires forall k :: 0 <= k < |batches| ==> BatchReadable(batches[k])
    ensures BatchReadable(Flat(batches))
  {
    if batches != [] {
      FlatIsReadable(batches[1..]);
    }
  }

  lemma {:induction false} PerformAllInTurn(s: State, a: seq<Operation>, b: seq<Operation>)
    requires s.Consistent() && AllReadable(a) && AllReadable(b)
    ensures AllReadable(a + b) && PerformAll(s, a).Consistent()
    ensures PerformAll(s, a + b) == PerformAll(PerformAll(s, a), b)
    decreases |a|
  {
    hide Perform;
    PerformAllKeepsConsistent(s, a);
    if a == [] {
      assert a + b == b;
    } else {
      PerformKeepsConsistent(s, a[0]);
      assert (a + b)[1..] == a[1..] + b && (a + b)[0] == a[0];
      PerformAllInTurn(Perform(s, a[0]), a[1..], b);
    }
  }

  /** After these batches the cycle is not confirmed. */
  ghost predicate StillWaits(s: State, c: int, player: nat, batches: seq<seq<seq<Byte>>>)
    requires s.Consistent() && player < MAX_PLAYERS && BatchReadable(Flat(batches))
  {
    PerformAllKeepsConsistent(s, Arrivals(Flat(batches)));
    PerformAll(s, Arrivals(Flat(batches))).confirmed[player] < c
  }

  /** Waiting is receiving the packets of the first `k` batches, in order; it is over as soon as the cycle is confirmed
      or the batches run out, so that it ends without confirmation only after all of them. */
  lemma {:induction false} AwaitedIsReceived(s: State, c: int, player: nat, batches: seq<seq<seq<Byte>>>)
      returns (k: nat)
    requires s.Consistent() && player < MAX_PLAYERS && forall k :: 0 <= k < |batches| ==> BatchReadable(batches[k])
    ensures k <= |batches| && BatchReadable(Flat(batches[..k]))
    ensures Awaited(s, c, player, batches) == PerformAll(s, Arrivals(Flat(batches[..k])))
    ensures Awaited(s, c, player, batches).Consistent()
    ensures c <= Awaited(s, c, player, batches).confirmed[player] || k == |batches|
    ensures forall i :: 0 <= i < k ==> BatchReadable(Flat(batches[..i])) && StillWaits(s, c, player, batches[..i])
    decreases |batches|
  {
    hide PerformAll, StillWaits;
    if c <= s.confirmed[player] || batches == [] {
      k := 0;
      assert Flat(batches[..0]) == [];
      PerformNothing(s);
    } else {
      var first, rest := batches[0], batches[1..];
      PerformAllKeepsConsistent(s, Arrivals(first));
      var j := AwaitedIsReceived(PerformAll(s, Arrivals(first)), c, player, rest);
      k := j + 1;
      assert batches[..k] == [first] + rest[..j];
      BatchInTurn(s, c, player, first, rest[..j]);
      forall i | 0 <= i < k
        ensures BatchReadable(Flat(batches[..i])) && StillWaits(s, c, player, batches[..i])
      {
        if i == 0 {
          WaitsAtFirst(s, c, player);
        } else {
          assert batches[..i] == [first] + rest[..i - 1];
          BatchInTurn(s, c, player, first, rest[..i - 1]);
        }
      }
    }
  }

  lemma WaitsAtFirst(s: State, c: int, player: nat)
    requires s.Consistent() && player < MAX_PLAYERS && s.confirmed[player] < c
    ensures BatchReadable(Flat([])) && StillWaits(s, c, player, [])
  {
    PerformNothing(s);
  }

  /** The first batch and then the others. */
  lemma BatchInTurn(s: State, c: int, player: nat, first: seq<seq<Byte>>, rest: seq<seq<seq<Byte>>>)
    requires s.Consistent() && player < MAX_PLAYERS && BatchReadable(first) && BatchReadable(Flat(rest))
    ensures var all, t := [first] + rest, PerformAll(s, Arrivals(first));
      && t.Consistent() && BatchReadable(Flat(all))
      && PerformAll(s, Arrivals(Flat(all))) == PerformAll(t, Arrivals(Flat(rest)))
      && (StillWaits(s, c, player, all) <==> StillWaits(t, c, player, rest))
  {
    hide PerformAll;
    PerformAllKeepsConsistent(s, Arrivals(first));
    assert ([first] + rest)[1..] == rest && Flat([first] + rest) == first + Flat(rest);
    assert Arrivals(first + Flat(rest)) == Arrivals(first) + Arrivals(Flat(rest));
    PerformAllInTurn(s, Arrivals(first), Arrivals(Flat(rest)));
  }

  lemma PerformNothing(s: State)
    requires s.Consistent()
    ensures PerformAll(s, Arrivals([])) == s
  {
  }

  // ---------------------------------------------------------------------------------------------
  // The peer, updated in place
  // ---------------------------------------------------------------------------------------------

  class Peer {
    const controls: array<seq<Byte>>
    const highestConfirmed: array<int>
    const remoteHighestConfirmed: array<int>
    var startingCycles: int
    var nplayers: int
    var localPlayer: int
    var delay: int
    var firstInvalidCycle: int

    ghost predicate Valid()
      reads this, controls, highestConfirmed, remoteHighestConfirmed
    {
      && controls.Length == highestConfirmed.Length == remoteHighestConfirmed.Length == MAX_PLAYERS
      && highestConfirmed != remoteHighestConfirmed
      && View().Consistent()
    }

    ghost function View(): State
      reads this, controls, highestConfirmed, remoteHighestConfirmed
    {
      State(controls[..], highestConfirmed[..], remoteHighestConfirmed[..],
            startingCycles, nplayers, localPlayer, delay, firstInvalidCycle)
    }

    constructor ()
      ensures Valid() && fresh(controls) && fresh(highestConfirmed) && fresh(remoteHighestConfirmed)
      ensures View() == NewLevel(View(), 0, 1, 0) && delay == 0 && firstInvalidCycle == -1
    {
      controls := new seq<Byte>[MAX_PLAYERS](_ => []);
      highestConfirmed := new int[MAX_PLAYERS](_ => 0);
      remoteHighestConfirmed := new int[MAX_PLAYERS](_ => 0);
      startingCycles, nplayers, localPlayer, delay, firstInvalidCycle := 0, 1, 0, 0, -1;
    }

    method StartLevel(levelStartingCycles: int, levelPlayers: int, levelLocalPlayer: int)
      requires Valid() && 1 <= levelPlayers <= MAX_PLAYERS
      modifies this, controls, highestConfirmed, remoteHighestConfirmed
      ensures Valid()
      ensures View() == NewLevel(old(View()), levelStartingCycles, levelPlayers, levelLocalPlayer)
    {
      startingCycles, nplayers, localPlayer := levelStartingCycles, levelPlayers, levelLocalPlayer;
      for n := 0 to MAX_PLAYERS
        invariant forall i :: 0 <= i < n ==>
                    controls[i] == [] && highestConfirmed[i] == 0 && remoteHighestConfirmed[i] == 0
        modifies controls, highestConfirmed, remoteHighestConfirmed
      {
        controls[n] := [];
        highestConfirmed[n] := 0;
        remoteHighestConfirmed[n] := 0;
      }
    }

    method MarkValid()
      requires Valid()
      modifies this
      ensures Valid() && View() == old(View()).(firstInvalid := -1)
    {
      firstInvalidCycle := -1;
    }

    /** The prediction of one row: it is extended to the length of the local one. */
    method ExtendRow(n: int)
      requires controls.Length == MAX_PLAYERS && 0 <= n < MAX_PLAYERS && 0 <= localPlayer < MAX_PLAYERS
      modifies controls
      ensures forall i :: 0 <= i < MAX_PLAYERS ==>
                controls[i] == if i == n != localPlayer then old(Extended(controls[n], |controls[localPlayer]|))
                               else old(controls[i])
    {
      while n != localPlayer && |controls[n]| < |controls[localPlayer]|
        invariant |old(controls[n])| <= |controls[n]| && controls[n] == Extended(old(controls[n]), |controls[n]|)
        invariant |controls[n]| <= Max(|old(controls[n])|, |controls[localPlayer]|)
        invariant n == localPlayer ==> controls[n] == old(controls[n])
        invariant forall i :: 0 <= i < MAX_PLAYERS && i != n ==> controls[i] == old(controls[i])
        decreases |controls[localPlayer]| - |controls[n]|
      {
        ExtendedStep(old(controls[n]), |controls[n]|);
        if controls[n] == [] {
          controls[n] := [0];
        } else {
          controls[n] := controls[n] + [controls[n][|controls[n]| - 1]];
        }
      }
    }

    method ReadLocalControls(state: Byte)
      requires Valid()
      modifies controls, highestConfirmed
      ensures Valid() && View() == ReadLocal(old(View()), state)
    {
      ReadLocalKeepsConsistent(View(), state);
      if localPlayer < 0 || localPlayer >= nplayers {
        return;
      }
      ghost var was := controls[..];
      controls[localPlayer] := controls[localPlayer] + [state];
      highestConfirmed[localPlayer] := highestConfirmed[localPlayer] + 1;
      ghost var own := controls[localPlayer];
      for n := 0 to nplayers
        invariant controls[localPlayer] == own
        invariant forall i :: 0 <= i < MAX_PLAYERS && i != localPlayer ==>
                    controls[i] == if i < n then Extended(was[i], |own|) else was[i]
        modifies controls
      {
        ExtendRow(n);
      }
      assert View().rows == ReadLocal(old(View()), state).rows;
    }

    method UnreadLocalControls()
      requires Valid()
      modifies controls, highestConfirmed
      ensures Valid() && View() == UnreadLocal(old(View()))
    {
      UnreadLocalKeepsConsistent(View());
      if localPlayer < 0 || localPlayer >= nplayers || controls[localPlayer] == [] {
        return;
      }
      controls[localPlayer] := controls[localPlayer][..|controls[localPlayer]| - 1];
      highestConfirmed[localPlayer] := highestConfirmed[localPlayer] - 1;
    }

    method ReadControlsUntil(ncycle: nat, poll: nat -> Byte)
      requires Valid()
      modifies controls, highestConfirmed
      ensures Valid() && View() == ReadUntil(old(View()), ncycle, poll)
    {
      if localPlayer < 0 || localPlayer >= nplayers {
        return;
      }
      while |controls[localPlayer]| <= ncycle
        invariant Valid() && ReadUntil(View(), ncycle, poll) == ReadUntil(old(View()), ncycle, poll)
        decreases ncycle + 1 - |controls[localPlayer]|
      {
        ReadLocalControls(poll(|controls[localPlayer]|));
      }
      while |controls[localPlayer]| > ncycle + 1
        invariant Valid() && ReadUntil(View(), ncycle, poll) == ReadUntil(old(View()), ncycle, poll)
        invariant |controls[localPlayer]| > ncycle
        decreases |controls[localPlayer]|
      {
        UnreadLocalControls();
      }
    }

    method OurHighest() returns (res: int)
      requires Valid()
      ensures res == OurHighestConfirmed(View())
    {
      res := -1;
      for n := 0 to nplayers
        invariant res == LeastOf(highestConfirmed[..], n, -1)
      {
        if res == -1 || highestConfirmed[n] < res {
          res := highestConfirmed[n];
        }
      }
    }

    method TheirHighest() returns (res: int)
      requires Valid()
      ensures res == TheirHighestConfirmed(View())
    {
      res := -1;
      for n := 0 to nplayers
        invariant res == LeastOf(remoteHighestConfirmed[..], n, localPlayer)
      {
        if n == localPlayer {
          continue;
        }
        if res == -1 || remoteHighestConfirmed[n] < res {
          res := remoteHighestConfirmed[n];
        }
      }
    }

    method ReceiveBatch(bufs: seq<seq<Byte>>)
      requires Valid() && BatchReadable(bufs)
      modifies this`firstInvalidCycle, controls, highestConfirmed, remoteHighestConfirmed
      ensures Valid() && View() == PerformAll(old(View()), Arrivals(bufs))
    {
      hide Receive;
      PerformAllKeepsConsistent(View(), Arrivals(bufs));
      assert bufs[0..] == bufs;
      for n := 0 to |bufs|
        invariant Valid() && BatchReadable(bufs[n..])
        invariant PerformAll(View(), Arrivals(bufs[n..])) == PerformAll(old(View()), Arrivals(bufs))
      {
        assert bufs[n..][0] == bufs[n] && bufs[n..][1..] == bufs[n + 1..];
        assert Arrivals(bufs[n..])[1..] == Arrivals(bufs[n + 1..]);
        ReadControlPacket(bufs[n]);
      }
    }

    /** `batches` are the packets that each look at the network finds before the time is over. */
    method Await(c: int, player: nat, batches: seq<seq<seq<Byte>>>)
      requires Valid() && player < MAX_PLAYERS && forall k :: 0 <= k < |batches| ==> BatchReadable(batches[k])
      modifies this`firstInvalidCycle, controls, highestConfirmed, remoteHighestConfirmed
      ensures Valid() && View() == Awaited(old(View()), c, player, batches)
    {
      hide PerformAll;
      var n := 0;
      assert batches[0..] == batches;
      while c > highestConfirmed[player] && n < |batches|
        invariant 0 <= n <= |batches| && Valid()
        invariant Awaited(View(), c, player, batches[n..]) == Awaited(old(View()), c, player, batches)
        decreases |batches| - n
      {
        assert batches[n..][0] == batches[n] && batches[n..][1..] == batches[n + 1..];
        ReceiveBatch(batches[n]);
        n := n + 1;
      }
    }

    method ReadStatus(cycle: int, player: nat, output: array<bool>, batches: seq<seq<seq<Byte>>>)
        returns (outcome: Outcome)
      requires Valid() && player < MAX_PLAYERS && output.Length == NUM_CONTROLS
      requires forall k :: 0 <= k < |batches| ==> BatchReadable(batches[k])
      modifies output, this`firstInvalidCycle, controls, highestConfirmed, remoteHighestConfirmed
      ensures Valid()
      ensures var c := CycleIndex(old(View()), cycle);
        View() == if c >= 0 && player != localPlayer then Awaited(old(View()), c, player, batches) else old(View())
      ensures outcome == ControlStatus(View(), cycle, player)
      ensures output[..] == if outcome.Status? then outcome.bits else old(output[..])
    {
      hide Awaited, Bits;
      var c := cycle - 1;
      c := c - startingCycles;
      c := c - delay;
      if c < 0 {
        return Untouched;
      }
      if player != localPlayer {
        Await(c, player, batches);
        if c > highestConfirmed[player] {
          return TimedOut;
        }
      }
      if c >= |controls[player]| {
        return OutOfRange;
      }
      WriteBits(controls[player][c], output);
      outcome := Status(output[..]);
    }

    method WriteBits(state: Byte, output: array<bool>)
      requires output.Length == NUM_CONTROLS
      modifies output
      ensures output[..] == Bits(state)
    {
      for n := 0 to NUM_CONTROLS
        invariant forall i :: 0 <= i < n ==> output[i] == Bits(state)[i]
      {
        output[n] := state / Pow2(n) % 2 == 1;
      }
    }

    method WriteControlPacket(v: seq<Byte>, checksum: int) returns (r: seq<Byte>)
      requires Valid()
      ensures r == if View().HasLocalPlayer() then v + Encode(PacketOf(View(), checksum)) else v
    {
      if localPlayer < 0 || localPlayer >= nplayers {
        return v;
      }
      ghost var p := PacketOf(View(), checksum);
      r := v + [localPlayer];
      var currentCycle := |controls[localPlayer]| - 1;
      r := r + Int32Bytes(currentCycle);
      r := r + Int32Bytes(checksum);
      var highestCycle := OurHighest();
      r := r + Int32Bytes(highestCycle);
      var theirs := TheirHighest();
      var ncycles := 1 + currentCycle - theirs;
      if ncycles < 0 || ncycles > |controls[localPlayer]| {
        ncycles := |controls[localPlayer]|;
      }
      r := r + Int32Bytes(ncycles);
      r := r + controls[localPlayer][|controls[localPlayer]| - ncycles..];
      Appending(v, [p.slot], Int32Bytes(p.current), Int32Bytes(p.checksum), Int32Bytes(p.ack),
                Int32Bytes(|p.states|), p.states);
    }

    /** A state past the end of the row fills it up to its cycle. */
    method FillRow(slot: nat, cycle: nat, state: Byte)
      requires controls.Length == MAX_PLAYERS && slot < MAX_PLAYERS && |controls[slot]| <= cycle
      modifies controls
      ensures controls[slot] == old(controls[slot]) + seq(cycle + 1 - |old(controls[slot])|, _ => state)
      ensures forall i :: 0 <= i < MAX_PLAYERS && i != slot ==> controls[i] == old(controls[i])
    {
      while |controls[slot]| <= cycle
        invariant |old(controls[slot])| <= |controls[slot]| <= cycle + 1
        invariant controls[slot] == old(controls[slot]) + seq(|controls[slot]| - |old(controls[slot])|, _ => state)
        invariant forall i :: 0 <= i < MAX_PLAYERS && i != slot ==> controls[i] == old(controls[i])
        decreases cycle - |controls[slot]|
      {
        controls[slot] := controls[slot] + [state];
      }
    }

    /** The loop over the states of a packet that are not skipped, from `pos` to the end of the buffer. */
    method CorrectStates(buf: seq<Byte>, startPos: nat, slot: nat, startCycle: nat, currentCycle: int)
        returns (pos: nat)
      requires controls.Length == MAX_PLAYERS && slot < MAX_PLAYERS
      requires startPos <= |buf| && |buf| - startPos == currentCycle + 1 - startCycle
      modifies this`firstInvalidCycle, controls
      ensures pos == |buf|
      ensures controls[slot] == PartlyOverwritten(old(controls[slot]), startCycle, buf[startPos..], |buf| - startPos)
      ensures forall i :: 0 <= i < MAX_PLAYERS && i != slot ==> controls[i] == old(controls[i])
      ensures firstInvalidCycle
              == Earlier(old(firstInvalidCycle), FirstMismatch(old(controls[slot]), startCycle, buf[startPos..]))
    {
      hide PartlyOverwritten, FirstMismatch;
      ghost var row := controls[slot];
      ghost var bytes := buf[startPos..];
      PartlyOverwrittenNone(row, startCycle, bytes);
      pos := startPos;
      var cycle := startCycle;
      while cycle <= currentCycle
        invariant startCycle <= cycle <= currentCycle + 1 && pos == startPos + cycle - startCycle
        invariant controls[slot] == PartlyOverwritten(row, startCycle, bytes, cycle - startCycle)
        invariant firstInvalidCycle
                  == Earlier(old(firstInvalidCycle), FirstMismatch(row, startCycle, bytes[..cycle - startCycle]))
        invariant forall i :: 0 <= i < MAX_PLAYERS && i != slot ==> controls[i] == old(controls[i])
      {
        ghost var k := cycle - startCycle;
        OverwrittenStep(row, startCycle, bytes, k);
        FirstMismatchStep(row, startCycle, bytes, k);
        if cycle < |controls[slot]| {
          if controls[slot][cycle] != Signed(buf[pos]) {
            controls[slot] := controls[slot][cycle := buf[pos]];
            if firstInvalidCycle == -1 || firstInvalidCycle > cycle {
              firstInvalidCycle := cycle;
            }
          }
        } else {
          FillRow(slot, cycle, buf[pos]);
        }
        pos := pos + 1;
        cycle := cycle + 1;
      }
      assert bytes[..|bytes|] == bytes;
    }

    method LevelRow(slot: nat, currentCycle: nat)
      requires controls.Length == MAX_PLAYERS && slot < MAX_PLAYERS
      modifies controls
      ensures controls[slot] == Levelled(old(controls[slot]), currentCycle)
      ensures forall i :: 0 <= i < MAX_PLAYERS && i != slot ==> controls[i] == old(controls[i])
    {
      ghost var row := controls[slot];
      if currentCycle < |controls[slot]| - 1 {
        var n := currentCycle + 1;
        while n < |controls[slot]|
          invariant currentCycle < n <= |row| == |controls[slot]|
          invariant forall i :: 0 <= i < |row| ==>
                      controls[slot][i] == if currentCycle < i < n then row[currentCycle] else row[i]
          invariant forall i :: 0 <= i < MAX_PLAYERS && i != slot ==> controls[i] == old(controls[i])
        {
          controls[slot] := controls[slot][n := controls[slot][currentCycle]];
          n := n + 1;
        }
      }
    }

    /** The part of `read_control_packet` after the checks. */
    method AcceptStates(buf: seq<Byte>, slot: nat, currentCycle: int)
      requires Valid() && |buf| >= HEADER_LENGTH && InOrder(View(), slot, currentCycle)
      modifies this`firstInvalidCycle, controls, highestConfirmed
      ensures View() == Accepted(old(View()), slot, currentCycle, buf[HEADER_LENGTH..])
    {
      hide Merged, Levelled, PartlyOverwritten, Fresh;
      ghost var row, confirmed, states := controls[slot], highestConfirmed[slot], buf[HEADER_LENGTH..];
      MergedInSteps(row, confirmed, currentCycle, states);
      var pos := HEADER_LENGTH;
      var startCycle := 1 + currentCycle - (|buf| - HEADER_LENGTH);
      if startCycle < highestConfirmed[slot] {
        var diff := highestConfirmed[slot] - startCycle;
        pos := pos + diff;
        startCycle := highestConfirmed[slot];
      }
      assert buf[pos..] == Fresh(1 + currentCycle - |states|, confirmed, states);
      assert buf[pos..][..|buf| - pos] == buf[pos..];
      pos := CorrectStates(buf, pos, slot, startCycle, currentCycle);
      LevelRow(slot, currentCycle);
      highestConfirmed[slot] := currentCycle;
      assert View().rows == old(View().rows)[slot := Merged(row, confirmed, currentCycle, states)];
      assert pos == |buf|; // the source asserts that the cursor has reached the end of the buffer
    }

    method ReadControlPacket(buf: seq<Byte>)
      requires Valid() && Readable(buf)
      modifies this`firstInvalidCycle, controls, highestConfirmed, remoteHighestConfirmed
      ensures Valid() && View() == Receive(old(View()), buf)
    {
      ghost var before := View();
      ReceiveKeepsConsistent(before, buf);
      if |buf| < 13 {
        return;
      }
      var slot := Signed(buf[0]);
      if slot < 0 || slot >= nplayers || slot == localPlayer {
        return;
      }
      var currentCycle := Int32At(buf, 1);
      if currentCycle < highestConfirmed[slot] {
        return;
      }
      var highestCycle := Int32At(buf, 9);
      if highestCycle > remoteHighestConfirmed[slot] {
        remoteHighestConfirmed[slot] := highestCycle;
      }
      var ncycles := Int32At(buf, 13);
      if |buf| - HEADER_LENGTH != ncycles {
        return;
      }
      assert View() == Acknowledged(before, slot, highestCycle);
      AcceptStates(buf, slot, currentCycle);
    }
  }
}
