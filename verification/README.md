# Verified models of a game engine's cores

This project models the algorithms of a game engine that are hard to get right by reading them, and proves in Dafny
what they are for. `dafny verify dfyconfig.toml` checks all of it.

- `Controls.dfy`: the lockstep input protocol as one peer runs it. The class `Peer` holds the rows of input states, the
  confirmed cycle of each player, the acknowledged cycle of each player and the first invalid cycle, and updates them
  in place as `src/controls.cpp` does. Every method is proved against a function on the value `State`.
- `Lockstep.dfy`: any number of such peers, up to the engine's eight, and a network that loses, duplicates and reorders
  packets. It is a step relation over `Network`; the theorems are about all reachable states and all runs.
- `GarbageCollection.dfy`, `Variants.dfy`: the collector of reference cycles between game objects. The class `Heap` has
  a reference count and the object slots of every object. Slots are a flat sequence there; `Variants` shows that lists
  and maps nested in an object's variables make no difference.
- `Decimal.dfy`, `DecimalText.dfy`: fixed-point numbers with six places, their products and quotients,
  and the printer and parser pair.
- `Base64.dfy`: the encoder and decoder of base 64 (section 4 of RFC 4648, with line breaks as in section 3.1 and
  skipping of other characters as in section 3.3), as loops over a buffer sized beforehand.
- `Brackets.dfy`, `CodeEditor.dfy`: matching brackets by counting, and the two stack scans of the code editor proved
  against it: the bracket groups of the formulas, and the innermost object around a position.
- `Geometry.dfy`, `Background.dfy`: what a rectangle leaves of another, and the parts of an area behind opaque
  rectangles.
- `ColorPasses.dfy`: an over-bright colour drawn in several passes.
- `Text.dfy`, `Dimensions.dfy`: splitting at commas, interned dimension names, and the text an object's masks are saved
  in.
- `Platform.dfy`: the interpolated height and slope of a platform.
- `Arithmetic.dfy`, `Wrappers.dfy`: what several of these share.

Values of the source's own integer types are unbounded integers here, with the width written out where it decides
something: the 32-bit fields of a packet, bytes read as `char`, saturation in `strtol`, 16-bit colour channels, and
division toward zero.

## Where the code does less than it promises

Each of these is proved in both directions: the condition is exact.

- Peers agree on the input at every cycle index past 0. At index 0 two peers give the same answer if and only if both
  know the player's row (they are the player, or have accepted a packet from it), or neither does, or the player's
  first state has no key pressed (`Lockstep.AnswersAgreeExactly`). A confirmed cycle of 0 stands both for "index 0 is
  confirmed" and for "nothing yet", so a peer that knows nothing hands out its prediction
  (`Lockstep.PredictionGivenOut`).
- A packet without states is accepted if it is in order, and confirms its cycle. That cycle is then stored if and only
  if it was stored before (`Controls.AcceptedStoresExactly`); otherwise the peer fails its own index assertion when it is
  asked for it (`Controls.EmptyPacketIsConfirmed`). In a run of the protocol every confirmed cycle is stored
  (`Lockstep.ConfirmedIsStored`).
- The mark of the first invalid cycle is the first entry that differs from the packet's state read as a signed character
  (`Controls.AcceptedMarksFirstCorrection`). For states below 128, as those of seven controls are, that is the first
  entry that changes; a state of 128 or more is marked even where nothing changes (`Controls.HighStateIsMarked`).
- Packets do not say which level they belong to. One of another level that is accepted after `new_level` leaves the
  rows in agreement if and only if its last cycle is in the sender's row and it says what follows there
  (`Lockstep.StalePacketAgreesExactly`): its states from the confirmed cycle on are the sender's, and so is every guess
  for the cycles between the confirmed one and its window, which are left as predicted or filled with its first state.
  `Lockstep.StalePacketTakesOver` is a packet with a wrong state, `Lockstep.StaleGapTakesOver` one whose states are right
  and whose window starts too late.
- A player that answers for itself may unread that state before it is sent, and read another one
  (`Lockstep.RereadDifferently`). The earlier answer is the later one if and only if the same keys are pressed in both
  (`Lockstep.OwnAnswerAgreesExactly`); once the state is sent it stands (`Lockstep.SentAnswerStands`).
- A fraction of more than six digits is cut to six if and only if its first six digits are no more than those the
  largest 64-bit number has in that place: `strtol` saturates (`DecimalText.LongFractionIsCutExactly`). Up to 18 digits
  that is always so; twenty nines are read as 92233 millionths (`DecimalText.TwentyNinesOverflow`).
- `b64encode` stays inside its buffer if and only if the line length is positive; with a line length of zero or less it
  breaks after every block but makes no room for that (`Base64.EncodedFitsExactlyIfPositive`).
- `platform_rect_at` and `platform_slope_at` do not fail on a platform if and only if its width times 1024, divided into
  segments, leaves a remainder of less than 1024 (`Platform.NeverFailsExactly`), and do not fail on any platform if and
  only if there are at most 1025 offsets (`Platform.SafeForAllWidthsExactly`).
- Dimension masks survive saving and loading if and only if they are the type's own masks, or every bit has a name and
  the names survive. Masks given by the dimensions an object is not in have all their bits named only once there are 32
  names (`Dimensions.ComplementIsWrittenExactly`). A strong name must not be empty, not be `level_only`, not begin with
  `~`, have no comma, and neither begin nor end with a blank, because `split` strips its words. A weak name, which is
  written behind a tilde, must have no comma and not end with a blank (`Dimensions.MasksComeBack`;
  `Dimensions.LevelOnlyIsLost` is a mask that is lost).
- The passes of a colour add up to it if and only if no channel is negative (`ColorPasses.AddUpExactlyIfNotNegative`).
- `get_object_at` finds nothing if and only if every pair of braces that encloses the position has an unmatched closing
  brace before its own (`CodeEditor.GetObjectAt`); in `} { }` it finds nothing between the second and the third
  (`CodeEditor.EnclosedButNotFound`).

## Model

| member | source | states |
|---|---|---|
| Controls.ReadLocalKeepsConsistent | src/controls.cpp:217-288 | a local read keeps the bookkeeping: the local counter is the length of the local row, every other row is at least as long, and past its confirmed cycle a remote row only repeats the entry there |
| Controls.UnreadLocalKeepsConsistent | src/controls.cpp:290-298 | taking the last local entry back keeps that bookkeeping |
| Controls.ReceiveKeepsConsistent | src/controls.cpp:346-457 | receiving any bytes that are too few to be looked at or have a whole header keeps that bookkeeping |
| Controls.PerformKeepsConsistent | src/controls.cpp:217-457 | any local read, unread or arrival of such bytes keeps that bookkeeping |
| Controls.ReadUntilFillsLocalRow | src/controls.cpp:193-206 | `read_until(n)` ends with a local row of exactly n+1 entries: what was there is kept, what was missing is polled, and only the missing tail of remote rows is predicted |
| Controls.LeastIsMinimum | src/controls.cpp:87-96 | the loop with -1 for "none yet" finds the minimum of the confirmed cycles, leaving out one player or none |
| Controls.Int32RoundTrip | src/controls.cpp:369-372 | a 32-bit number written in network order anywhere in a buffer is read back as itself, negative ones too |
| Controls.NetworkOrder | src/controls.cpp:469-473 | the first byte counts most, and a negative number is written as its complement to 2^32 |
| Controls.EncodeRoundTrip | src/controls.cpp:466-497 | the fields of a packet are where the receiver looks for them, and are read back as they were written |
| Controls.PacketHeader | src/controls.cpp:466-484 | a packet names its sender, the last cycle of the own row, the checksum it was given, and acknowledges the least of the confirmed cycles, which one of the players has |
| Controls.WindowIsExact | src/controls.cpp:486-497 | the window starts at the least acknowledgement of the other players if that is within the row, and is the whole row otherwise |
| Controls.ReceiveChecks | src/controls.cpp:350-410 | receiving any bytes: out of order nothing changes; in order the greater acknowledgement is taken, even if the number of cycles is wrong, and nothing else changes unless that number is right |
| Controls.ReceiveDecodes | src/controls.cpp:346-457 | receiving the bytes of a packet does what the packet says: nothing if it is out of order or from a wrong slot, otherwise acknowledge and merge |
| Controls.MergedEntries | src/controls.cpp:412-449 | the merge entry by entry: the row as it was before the window, the window's first state where nothing was stored before it, the packet's states in it, the last state after it |
| Controls.AcceptedKeepsConsistent | src/controls.cpp:412-452 | accepting a packet keeps the bookkeeping, wherever its window lies |
| Controls.AcceptedStoresExactly | src/controls.cpp:412-452 | accepting a packet stores the cycle that it confirms if and only if the packet has states or the cycle was stored |
| Controls.ReceiveKeepsStoredExactly | src/controls.cpp:346-457 | receiving a packet keeps every confirmed remote cycle stored, unless the packet is in order, has no states, and confirms a cycle past 0 that is not stored |
| Controls.ConfirmedIsAnswered | src/controls.cpp:310-339 | where confirmed cycles are stored, a confirmed cycle past index 0 is always answered with the outputs stored for it |
| Controls.EmptyPacketIsConfirmed | src/controls.cpp:332 | a packet without states after which the index assertion fails for a confirmed cycle |
| Controls.FirstMismatchIsFirst | src/controls.cpp:422-441 | the recorded cycle is stored and is the first whose entry differs from the packet's byte; -1 means that none does |
| Controls.MergedChangesAfterMismatch | src/controls.cpp:422-449 | a stored entry that a merge changes lies at or after the first mismatch, although the rewrite of the tail marks nothing |
| Controls.MarkIsLeastChange | src/controls.cpp:422-449 | for states below 128 the mark of one packet is exact: it is the least stored entry that changed, and -1 if none did |
| Controls.PerformKeepsMark | src/controls.cpp:422-452 | every operation keeps the mark at or before each remote entry changed since |
| Controls.RollbackIsSound | src/controls.cpp:276-287 | after any sequence of local reads, unreads and arrivals since the mark was cleared, every remote entry stored then is still stored, and if its value changed it lies at or after the first invalid cycle; -1 means that none changed |
| Controls.AcceptedMarksFirstCorrection | src/controls.cpp:422-441 | after a packet the mark is the first of the old mark and of the stored entries in the window, not skipped, that differ from the packet under the signed comparison; -1 only if there is neither |
| Controls.AcceptedMarksFirstChange | src/controls.cpp:422-449 | for states below 128 it is the first of the old mark and of the stored entries that changed; -1 only if there is neither |
| Controls.MarkIsFirstChange | src/controls.cpp:422-441 | over any sequence of operations with states below 128 the mark is exact: the first of the mark before and of all entries that changed at some step, and -1 only if there is neither |
| Controls.HighStateIsMarked | src/controls.cpp:424 | a packet with a state of 128 or more that changes nothing and is marked |
| Controls.BitsAreDigits | src/controls.cpp:334-338 | the outputs are the seven lowest binary digits of the state, so that states below 128 can be told apart |
| Controls.BitsTellApart | src/controls.cpp:334-338 | two states have the same outputs if and only if they agree in their seven lowest digits |
| Controls.CyclesAreAnswered | src/controls.cpp:300-339 | cycle by cycle from the start of the level and the delay: nothing is answered before the first, a remote cycle past the confirmed one times out, and any other stored one is answered with the outputs of its state |
| Controls.OwnRowIsRead | src/controls.cpp:273-298 | after any operations the own row is what was read, in order, less what was taken back |
| Controls.LevelAnswersItsReads | src/controls.cpp:300-339 | the k-th state that a player has read since the start of a level is its answer for the cycle k after the start and the delay, whatever has arrived; before the first there is no answer, past the last the index assertion fails |
| Controls.NewLevelKeepsMark | src/controls.cpp:143-160 | a new level forgets all inputs and confirmations, and keeps the mark |
| Controls.AwaitedIsReceived | src/controls.cpp:313-330 | waiting is receiving what arrived at the first looks at the network, in order; it ends as soon as the cycle is confirmed, and without that only when the time is over |
| Controls.Peer.ReadLocalControls | src/controls.cpp:273-287 | the prediction loops bring the peer to the state of the specification |
| Controls.Peer.UnreadLocalControls | src/controls.cpp:290-298 | the method brings the peer to the state of the specification |
| Controls.Peer.ReadControlsUntil | src/controls.cpp:193-206 | both loops end, in the state of the specification |
| Controls.Peer.OurHighest | src/controls.cpp:87-96 | the loop returns the least confirmed cycle |
| Controls.Peer.TheirHighest | src/controls.cpp:128-141 | the loop returns the least acknowledged cycle of the other players |
| Controls.Peer.Await | src/controls.cpp:313-324 | the waiting loop ends in the specified state |
| Controls.Peer.ReadStatus | src/controls.cpp:300-339 | after waiting, the output is the bits of the state at the index, untouched before the first cycle, and a time-out when the index is still not confirmed |
| Controls.Peer.WriteControlPacket | src/controls.cpp:459-498 | what is appended to the buffer is the encoding of the packet with the window since the least acknowledged cycle |
| Controls.Peer.CorrectStates | src/controls.cpp:422-441 | the correction loop overwrites the window, keeps the earliest mismatch, touches no other row and returns the cursor at the end of the buffer |
| Controls.Peer.ReadControlPacket | src/controls.cpp:346-457 | the whole of receiving, on all checks and error paths, is the specification's `Receive` |
| Lockstep.InitEstablishesInv | src/controls.cpp:143-160 | the state after `new_level` on every peer satisfies the invariant of the protocol |
| Lockstep.ReplacingKeepsInv | src/controls.cpp:346-457 | a step that changes one peer keeps the invariant if it keeps the links between that peer and the others |
| Lockstep.SendKeepsInv | src/controls.cpp:459-498 | sending keeps it: the new packet carries a window of the own row and leaves no gap for any peer |
| Lockstep.MergedAgrees | src/controls.cpp:412-449 | merging a window of the sender's row that starts at or below the confirmed cycle makes the rows equal up to its end |
| Lockstep.MergedAgreesExactly | src/controls.cpp:412-449 | for a window that starts anywhere, the rows are equal up to its end after the merge if and only if that end is stored, every guess between the confirmed cycle and the window is right (the prediction, or the window's first state where there was none), and the window's states from the confirmed cycle on are the sender's |
| Lockstep.DeliverKeepsInv | src/controls.cpp:346-457 | delivering any packet ever sent, at any time and any number of times, keeps the invariant |
| Lockstep.NextKeepsInv | src/controls.cpp:217-508 | every step of every peer keeps the invariant |
| Lockstep.ReachableInv | src/controls.cpp:193-508 | the invariant holds in every state that a run of one level reaches |
| Lockstep.Agreement | src/controls.cpp:346-457 | in every reachable state, once B has accepted a packet from A, B's row for A is A's own row up to B's confirmed cycle |
| Lockstep.NoGaps | src/controls.cpp:486-497 | what A believes B has acknowledged is at most what B has confirmed, so every window A has sent or would send starts at or below that |
| Lockstep.OnePacketRecovery | src/controls.cpp:374-454 | one packet that is not out of order brings its receiver to the packet's last cycle, in agreement with the sender |
| Lockstep.ConfirmedIsStored | src/controls.cpp:412-452 | in every reachable state each confirmed remote cycle past 0 is stored |
| Lockstep.FreshPacketHandsOverRow | src/controls.cpp:459-498 | a packet sent now is never out of order for anyone, and once delivered the receiver has the sender's whole row |
| Lockstep.AnswerIsOwnState | src/controls.cpp:300-339 | an answer for a remote player at index 1 or later, or at any index once a packet from the player was accepted, is that player's own state at that index |
| Lockstep.UnknownAnswerIsIdle | src/controls.cpp:276-287 | an answer before any packet was accepted is for index 0 and says that no key is pressed |
| Lockstep.AnswerIsOwnStateExactly | src/controls.cpp:300-339 | an answer is the player's own state at the index if and only if the index is not 0, or the peer is the player or has accepted a packet from it, or the player's first state has no key pressed |
| Lockstep.AnswersAgreeExactly | src/controls.cpp:300-339 | two peers give the same answer for an index if and only if the index is not 0, or both know the player's row, or neither does, or the player's first state has no key pressed |
| Lockstep.AnswersAgreeExactlyFromIndexOne | src/controls.cpp:300-339 | an index has the same answer from all peers that answer, in every reachable state, if and only if it is not 0 |
| Lockstep.PredictionGivenOut | src/controls.cpp:310-331 | a reachable state in which two peers answer differently for index 0 |
| Lockstep.SettledStaysSettled | src/controls.cpp:290-298 | what a peer has accepted and confirmed, index 0 included, never changes again in the row of the player it came from |
| Lockstep.AnswersAgreeOverRun | src/controls.cpp:300-339 | an answer given for a player at one point of a run, by another peer or by the player itself if it has not unread the state since, is the answer any peer gives for that index then or later, if and only if the index is not 0, or both knew the player's row when they answered, or neither did, or the player's first state has no key pressed |
| Lockstep.SentIsKept | src/controls.cpp:459-498 | what a player has sent it never unreads, so that its own row has that index from then on |
| Lockstep.KeptStateStays | src/controls.cpp:273-298 | a player's own state that is not unread does not change |
| Lockstep.SentAnswerStands | src/controls.cpp:300-339 | once a player has sent the state it answered for itself with, every peer gives the same answer at any later point, if and only if the index is not 0, or the peer knows the player's row, or the player's first state has no key pressed |
| Lockstep.OwnAnswerAgreesExactly | src/controls.cpp:300-339 | sent or not, a player's answer for itself is the answer a peer gives later if and only if the same keys are pressed in its state of then and in its state of now, or in none where the peer answers for index 0 without knowing the player's row |
| Lockstep.RereadDifferently | src/controls.cpp:193-206 | a run in which a player unreads a state that it has answered with and not sent, and reads another |
| Lockstep.RightFromFirstPacket | src/controls.cpp:346-457 | once a peer has accepted a packet from a player, every answer that it gives for the player from then on is the player's own state |
| Lockstep.StalePacketAgreesExactly | src/controls.cpp:143-160 | a packet that was not sent in this level, wherever its window starts, leaves the rows in agreement when it is accepted if and only if its last cycle is in the sender's row and it says what follows there: the right guesses before its window and the sender's states in it |
| Lockstep.StalePacketTakesOver | src/controls.cpp:143-160 | a reachable state at the start of a level in which an accepted packet of another level breaks the agreement |
| Lockstep.StaleGapTakesOver | src/controls.cpp:422-441 | a reachable state and an accepted packet of another level whose states are all right and whose window leaves a gap: the agreement breaks in the gap |
| GarbageCollection.AllReferencesExact | src/custom_object.cpp:4181-4233 | the extraction finds every object slot, each once, and nothing else |
| GarbageCollection.ClosedSetHoldsPath | src/custom_object.cpp:2056-2080 | a set that holds the roots and is closed under references holds everything a path reaches |
| GarbageCollection.HeldIsReachable | src/custom_object.cpp:2058-2062 | an object with a count above one during the passes is reachable from an object held from outside |
| GarbageCollection.ReachableIsSafe | src/custom_object.cpp:2064-2066 | when a pass adds nothing, every reachable object is safe |
| GarbageCollection.RestoringKeepsStep | src/custom_object.cpp:2070-2079 | putting one reference back keeps the conservation of counts: outside holders, plus one, plus the references restored so far |
| GarbageCollection.SlotsAtTheEnd | src/custom_object.cpp:4235-4242 | at the end a safe object has all its slots as they were, and any other has none left that refers to an object |
| GarbageCollection.Heap.ExtractObject | src/custom_object.cpp:4181-4233 | the slots of one object are emptied, the counts of their targets drop, and the references are appended |
| GarbageCollection.Heap.RestorePass | src/custom_object.cpp:2070-2079 | a pass restores all references of safe objects and no others, and lowers no count |
| GarbageCollection.Heap.FindSafe | src/custom_object.cpp:2056-2080 | the passes end, after at most one more than there are objects, with safe exactly the reachable objects |
| GarbageCollection.Heap.RunGarbageCollection | src/custom_object.cpp:2038-2083 | safe is exactly what is reachable from objects held from outside; safe objects have every slot back, all others are emptied and released; counts are outside holders plus remaining references |
| Variants.PlacesAreFlat | src/custom_object.cpp:4181-4233 | extraction from pointers and nested lists and maps empties the leaves, finds their objects in order and keeps the nesting |
| Variants.PuttingBackIsFlat | src/custom_object.cpp:4235-4242 | putting an object back into a nested value changes its leaf and nothing else |
| Variants.PuttingBackPlacesIsFlat | src/custom_object.cpp:4235-4242 | putting an object back into one of the pointers or into a leaf of one of the stores changes that slot, no other one, and not the nesting |
| Variants.SlotsTellAll | src/custom_object.cpp:4181-4193 | an object with the same nesting has the same slots if and only if it is the same in every pointer and variable |
| Variants.CollectedPlaces | src/custom_object.cpp:2038-2083 | an object with its old nesting and the slots that the collector leaves is exactly the old object if it is safe, and the extracted one otherwise |
| Variants.RefilledIsWhole | src/custom_object.cpp:4235-4242 | an object that gets back all the references extracted from it, pointer by pointer and leaf by leaf, is the object that it was |
| Variants.CollectPlaces | src/custom_object.cpp:2038-2083 | the collection on objects with nested variables, updated in place: every safe object gets its references back and is what it was in every pointer and variable, the others stay extracted, and all have the slots of the heap |
| Decimal.MultiplyTruncates | src/decimal.cpp:58-75 | for all signs the product is the exact product truncated toward zero at six places |
| Decimal.MultiplyFits | src/decimal.cpp:63-69 | no intermediate term exceeds the magnitude of the result, except the product of the fractions, which stays below 10^12 |
| Decimal.ScaledDownIsFloor | src/decimal.cpp:94-99 | repeated division by ten is the floor of the division by the power of ten |
| Decimal.ScaledUpFits | src/decimal.cpp:86-92 | the scaled dividend reaches 10^13 and stays below 10^14, unless it was there already |
| Decimal.DivisorError | src/decimal.cpp:94-99 | the shortened divisor is too small by at most one part in 100000 |
| Decimal.QuotientBracket | src/decimal.cpp:101-111 | the result against the exact quotient by the shortened divisor, for right and left shifts |
| Decimal.QuotientError | src/decimal.cpp:77-119 | the error bound of the division in integers |
| Decimal.QuotientErrorReal | src/decimal.cpp:77-119 | with q = va * 10^6 / vb as a real number, the magnitude r satisfies q(1 - 10^-7) - 1 < r <= q(1 + 10^-5) |
| Decimal.QuotientExact | src/decimal.cpp:77-119 | r is exactly the floor of q for a dividend below 100 and a divisor up to 1 |
| Decimal.QuotientValue | src/decimal.cpp:86-111 | the result of the four scaling loops in closed form, by the least numbers of zeros and digits that bring the operands to their targets |
| Decimal.DivideSign | src/decimal.cpp:113-118 | the result has the sign of the product of the operands, and the magnitude of the quotient of their magnitudes |
| Decimal.DivideError | src/decimal.cpp:77-119 | the error bound in real numbers for the magnitude of the result, for all signs |
| Decimal.DivideExact | src/decimal.cpp:77-119 | for a dividend below 100 and a divisor up to 1, of any signs, the result is the quotient cut toward zero at six places |
| Decimal.DivideFits | src/decimal.cpp:86-111 | if the result fits 64 bits, so does every value on the way to it |
| Decimal.DivideDecimal | src/decimal.cpp:77-119 | the four scaling loops end and compute the specified quotient with its sign |
| DecimalText.PrintParseRoundTrip | src/decimal.cpp:9-56 | reading what was printed gives the raw value back, for every 64-bit value but the least |
| DecimalText.PrintIsInjective | src/decimal.cpp:39-56 | different values print differently |
| DecimalText.PrintIsCanonical | src/decimal.cpp:39-56 | what is printed: a minus sign for negative values, the whole part without needless zeros in front, a point, and one to six places that do not end in a needless zero; together they are the value |
| DecimalText.StrtolReadsSigned | src/decimal.cpp:18-19 | blanks and one sign in front of digits are read over, and the number is brought within 64 bits |
| DecimalText.StrtolReadsNothing | src/decimal.cpp:18-19 | without a digit the number is zero and the end is where the reading began |
| DecimalText.StrippedFraction | src/decimal.cpp:49-53 | stripping leaves at least one place, and takes only zeros |
| DecimalText.ParseOfParts | src/decimal.cpp:9-37 | a sign, a whole part and any number of places are read as their value, each part within 64 bits |
| DecimalText.AlignedShortFraction | src/decimal.cpp:20-28 | a fraction of up to six digits is brought to six |
| DecimalText.AlignedLongFraction | src/decimal.cpp:20-24 | the first loop divides a longer fraction down to six places |
| DecimalText.LongFractionIsCutExactly | src/decimal.cpp:18-24 | a longer fraction is cut to its first six digits if and only if those are no more than the largest 64-bit number has in their place |
| DecimalText.EighteenDigitsAreCut | src/decimal.cpp:18-24 | up to 18 digits behind the point are always cut to six |
| DecimalText.TwentyNinesOverflow | src/decimal.cpp:18-24 | a fraction of twenty nines, which is not |
| DecimalText.FormattedByDivision | src/decimal.cpp:41-48 | the text in the buffer is what truncating division and the extra minus sign print |
| DecimalText.StripZeros | src/decimal.cpp:49-53 | the loop that strips zeros stays in the buffer and computes the stripped text |
| DecimalText.PrintDecimal | src/decimal.cpp:39-56 | the printer computes the specified text |
| DecimalText.AlignFraction | src/decimal.cpp:20-28 | both alignment loops end and compute the aligned fraction |
| DecimalText.ParseDecimal | src/decimal.cpp:9-37 | the parser computes the specified value |
| Base64.EncodedLength | src/base64.cpp:56-74 | every line break pays for at least a line length of characters, also where that is not a multiple of four |
| Base64.EncodedFitsExactlyIfPositive | src/base64.cpp:23-32 | the encoding fits the size computed up front if and only if the line length is positive |
| Base64.LinesAreEqual | src/base64.cpp:61-72 | a line break stands exactly after each line of the line length, rounded up to whole blocks |
| Base64.BreaksAreExact | src/base64.cpp:23-32 | there is one line break for each full line; the buffer has room for one for each line length, so that the difference stays unused |
| Base64.DecodedFits | src/base64.cpp:82-84 | the decoder writes no more than the size computed up front, and counts no more than it wrote |
| Base64.BlockRoundTrip | src/base64.cpp:34-44 | one to three bytes, encoded and decoded as a block, come back with zeros for the missing ones |
| Base64.FullBlockIsBase64Digits | src/base64.cpp:34-44 | the characters of a full block are the four base-64 digits of its 24 bits |
| Base64.CharByValue | src/base64.cpp:7-8 | the characters of the 64 values |
| Base64.TestVectors | src/base64.cpp:34-44 | the encodings of f, fo, foo and foobar |
| Base64.DecodedBlockIs24Bits | src/base64.cpp:104-110 | the three bytes of any four characters are the 24 bits of their values |
| Base64.PaddingAloneFails | src/base64.cpp:138-143 | a block of padding makes the count negative |
| Base64.DecodedPlain | src/base64.cpp:117-145 | the encoding decodes to the data, and fills the buffer sized for it |
| Base64.DecodedIgnoresOthers | src/base64.cpp:127-142 | characters outside the alphabet make no difference, wherever they stand |
| Base64.SignificantOfEncoded | src/base64.cpp:56-74 | line breaks are all that the line length adds |
| Base64.RoundTrip | src/base64.cpp:117-145 | any text whose significant characters are those of the encoding decodes to the data |
| Base64.EncodeDecodeRoundTrip | src/base64.cpp:56-145 | for every byte sequence and every positive line length, decoding the encoder's whole buffer, unused NUL bytes included, gives the data back |
| Base64.EncodeBlock | src/base64.cpp:34-44 | four characters are written and the rest of the buffer stays |
| Base64.B64Encode | src/base64.cpp:56-74 | the loop writes inside its buffer and leaves the encoding with zeros after it |
| Base64.B64Decode | src/base64.cpp:117-145 | the loop writes inside its buffer and returns the specified decoding, or fails where the count is negative |
| Brackets.MatchIsUnique | src/code_editor_widget.cpp:73-93 | an opener has at most one closer and a closer at most one opener |
| Brackets.PairsNestOrAreApart | src/code_editor_widget.cpp:73-93 | two matched pairs are nested or apart |
| Brackets.GroupExact | src/code_editor_widget.cpp:73-98 | a group is the opener first, the closer last, and between them exactly the commas of that opener, in order |
| Brackets.GroupsAreDisjoint | src/code_editor_widget.cpp:73-98 | a token is in at most one group |
| Brackets.StackHoldsPending | src/code_editor_widget.cpp:51-93 | the stack holds exactly the openers still pending, in order, and its depth above an entry is the excess of openers there |
| Brackets.TopIsMatch | src/code_editor_widget.cpp:80-93 | at a closer the top of the stack is its opener, and an empty stack means that it has none |
| Brackets.StrayOpenerIsPending | src/code_editor_widget.cpp:153-156 | the openers without a closer are those pending at the end |
| CodeEditor.GroupMapHoldsGroups | src/code_editor_widget.cpp:83-92 | the map holds the group of every closed pair under each of its positions, and nothing else |
| CodeEditor.GroupsPartition | src/code_editor_widget.cpp:83-92 | each position is in its own group, all members share the group, its first member is an opener and its last the matching closer |
| CodeEditor.SpansNestOrAreApart | src/code_editor_widget.cpp:83-92 | the spans of two groups are nested or apart |
| CodeEditor.AllGroupsExact | src/code_editor_widget.cpp:44-172 | over a whole text, no formula changes what another one entered |
| CodeEditor.StrayAreMarked | src/code_editor_widget.cpp:83-156 | the brackets marked as errors are exactly the closers without an opener and the openers without a closer |
| CodeEditor.BracketMatcher.ScanFormula | src/code_editor_widget.cpp:51-156 | the scan of one formula enters exactly its groups and marks exactly its stray brackets |
| CodeEditor.BracketMatcher.OnChange | src/code_editor_widget.cpp:40-175 | after a change the map and the marks are those of all formulas in the text, and of no earlier text |
| CodeEditor.FirstIsInnermost | src/code_editor_widget.cpp:431-438 | the first pair to be closed around the position is inside all other enclosing pairs |
| CodeEditor.GetObjectAt | src/code_editor_widget.cpp:412-457 | the result is the innermost enclosing pair with its tokens; there is none exactly when every enclosing pair has an unmatched closer before its end, and so, with balanced braces, when no pair encloses the position |
| CodeEditor.EnclosedButNotFound | src/code_editor_widget.cpp:426-429 | a text and a position that a pair of braces encloses and for which nothing is found |
| Geometry.RectsIntersect | src/geometry.cpp:190-205 | two rectangles intersect if and only if they have a pixel in common |
| Geometry.RectDifference | src/geometry.cpp:216-253 | there is a result if and only if the rectangles have a pixel in common, of at most four pieces, none empty; it has no piece where the second rectangle covers the first |
| Geometry.DifferenceIsExact | src/geometry.cpp:216-253 | every pixel of the first rectangle outside the second is in exactly one piece, and no other pixel in any |
| Background.AreasAreExact | src/background.cpp:291-317 | the draw areas cover each pixel of the area outside all opaque rectangles exactly once, and no other pixel |
| Background.AreasAreDisjoint | src/background.cpp:291-317 | no two draw areas have a pixel in common |
| Background.AreasAreComplete | src/background.cpp:291-317 | together the draw areas are the area less the opaque rectangles |
| Background.AreasAreNotEmpty | src/background.cpp:291-317 | no draw area is empty unless the whole area is |
| Background.DrawAreas.Calculate | src/background.cpp:291-317 | the loop with its reassigned area and its recursion appends exactly the specified areas |
| Background.DrawAreas.Prepare | src/background.cpp:321-325 | before a layer is drawn, exactly one of the areas has each pixel to be drawn |
| ColorPasses.PassShows | src/custom_object.cpp:862-896 | pass k shows what is above 255 * k of each channel, up to 255, and the same clipped alpha as all others |
| ColorPasses.EveryPassIsAColor | src/color_utils.cpp:216-225 | every channel of every pass lies in 0..255 |
| ColorPasses.PassesAddUp | src/custom_object.cpp:862-896 | per channel the passes add up to the transform, or to zero where that is negative |
| ColorPasses.AddUpExactlyIfNotNegative | src/custom_object.cpp:862-896 | the passes add up to the transform if and only if no channel is negative |
| ColorPasses.AsManyAsNeeded | src/custom_object.cpp:862-896 | there are just as many passes as the brightest channel needs; an alpha out of range costs a second one |
| ColorPasses.ChannelsFit | src/color_utils.cpp:227-236 | the loop decides whether all four channels are at most 255 |
| ColorPasses.Subtract | src/color_utils.cpp:243-259 | the copy edited in place has each colour channel less the other's, zero if that is not smaller, stored in 16 bits, and its alpha clipped from above |
| ColorPasses.DrawPasses | src/custom_object.cpp:862-899 | the loop ends and draws exactly the specified passes |
| Text.SplitText | src/string_utils.cpp:150-179 | the scan with its two positions and its skipping of blanks returns the stripped, non-empty pieces between the commas |
| Text.SplitIsClean | src/string_utils.cpp:150-179 | no word from a split is empty, has a comma, or begins or ends with a blank |
| Text.StripRemovesBlanks | src/string_utils.cpp:108-115 | stripping removes blanks at the two ends and nothing else, and leaves none there |
| Text.SpacesByValue | src/string_utils.cpp:78-101 | the six blanks of the C locale |
| Text.PiecesMakeText | src/string_utils.cpp:150-179 | the pieces have no comma, and with commas between them they are the text |
| Text.SplitOfJoined | src/string_utils.cpp:150-179 | words without commas, not empty and stripped, come back from the text they are joined to |
| Dimensions.Registry.GetSolidDimensionId | src/collision_utils.cpp:33-43 | a name keeps the id it has, a new one gets the next, and names and ids stay one to one |
| Dimensions.Registry.GetSolidDimensionKey | src/collision_utils.cpp:27-31 | the name of an id has that id; an id out of range fails the assertion |
| Dimensions.KeysAreDistinct | src/collision_utils.cpp:7-8 | no two ids have the same name |
| Dimensions.OnlySurvivorsAreRead | src/custom_object.cpp:211-227 | whatever the text, only names that survive are read from it |
| Dimensions.TextHoldsNames | src/custom_object.cpp:604-630 | the names read from the written text are those of the masks if and only if all of them survive |
| Dimensions.TextExample | src/custom_object.cpp:604-630 | an example of the text: in the order of the ids, each strong name before the same name with a tilde, and level_only for nothing |
| Dimensions.AnotherSessionReadsTheSameNames | src/custom_object.cpp:206-247 | a session that knows other names, in another order, reads masks with the same names if and only if all of them survive |
| Dimensions.MasksComeBack | src/custom_object.cpp:604-630 | within a session saving works and loading gives the same masks if and only if they are the type's own, or every bit has a name and every name survives |
| Dimensions.LevelOnlyIsLost | src/custom_object.cpp:214-217 | a mask with a dimension called level_only does not come back |
| Dimensions.ComplementIsWrittenExactly | src/custom_object.cpp:2790-2793 | masks given by the dimensions an object is not in can be written, other than as the type's own, if and only if all 32 dimensions have names |
| Dimensions.SolidObject.Write | src/custom_object.cpp:604-630 | the loop over the bits writes the specified text, nothing for the type's own masks, and fails at a bit without a name |
| Dimensions.SolidObject.Read | src/custom_object.cpp:206-247 | the masks are those of the text, or the type's without one, weak wherever strong; new names are registered |
| Platform.NeverFailsExactly | src/custom_object.cpp:4437-4483 | on a platform neither assertion fails and no width is zero, for any position, if and only if the scaled width leaves a remainder below 1024 |
| Platform.SafeForAllWidthsExactly | src/custom_object.cpp:4437-4483 | on platforms of all widths neither fails if and only if there are at most 1025 offsets |
| Platform.BetweenNeighbours | src/custom_object.cpp:4452-4460 | the interpolated offset lies between those at the ends of its segment, under division toward zero and for negative offsets, and is the first one where the segment begins |
| Platform.HeightIsInterpolated | src/custom_object.cpp:4452-4460 | the platform is moved by the average of the two offsets next to the position, each weighted with the distance to the other, cut toward zero |
| Platform.HeightWithoutSegments | src/custom_object.cpp:4437-4450 | without offsets or beside the platform nothing is moved, a single offset moves all of it, and the slope is zero |
| Platform.SlopeIsRise | src/custom_object.cpp:4463-4483 | the slope is 45 times the rise over the width of the segment, cut toward zero, and 45 where they are the same |
| Platform.HeightFollowsSlope | src/custom_object.cpp:4437-4483 | within a segment the slope is constant, and the height moves the way it says |

## Left out

- Polling of keyboard, joystick and touch, key locks and sockets: a local read is an arbitrary byte, and waiting for a
  packet is a delivery step.
- Checksums of the game state, packet counters and logs: they decide nothing; the checksum is an arbitrary field of a
  packet.
- Controls.Peer.ReadControlPacket: packets of 13 to 16 bytes are left out, because the source reads beyond their end; a
  packet has either fewer bytes or a whole header.
- A change of level within a run: a run is one level, and what a packet of another level does is said for single states.
- Cycles past the 32 bits of their counters: a run does not extend a row beyond them.
- Backup and restore of the rows around a preview: no packet arrives in between there, and the copy is plain.
- Unreading a cycle that was already sent: a step of a run does not do it, because the receivers could not know.
- A list or map shared by two objects: every slot has one owner, as the collector takes for granted.
- The destructors of released objects, and other holders than counts: `outside` is given as a number for each object.
- Overflow of 64 bits in results of decimal operations: the bounds say when there is none.
- DecimalText.ParseDecimal: a text that ends after its whole part is left out, because the source reads past its end.
- DecimalText.PrintParseRoundTrip: `strtol` is taken with 64 bits, as on the platforms where `long` has them.
- Base64.B64Encode: line lengths that are not positive overflow the buffer, so the method demands a positive one.
- The tokenizers of formulas and of the text: tokens are given in order, each with at least one character. As in the
  source, round, square and curly brackets of a formula match one another.
- The colours of tokens other than the marks for errors, and the parse of the object that was found.
- Rectangles of negative width or height: the constructor of the source does not make them.
- Drawing itself, alpha blending on the screen, and the layers of a background.
- Dimension ids from 32 on, for which the shift of the source is undefined: masks are sets of ids, those written are
  below 32, and a new name that is read may get a higher one. The dimensions of collisions are saved by the same code as the solid ones and are not repeated.
- Platform.BetweenNeighbours: products past 32 bits, for very large offsets or widths, are not modelled.
- Physics, formula evaluation, sessions of the lobby server, image caches and the task pool: they rest on code or
  libraries that this model does not have.
