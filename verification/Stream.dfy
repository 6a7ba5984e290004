// One relayed stream: its events, and what the relay needs to know about checking and chaining them.
//
// The relay never looks inside the validity check, the chain function or SHA-256, so here they are parameters;
// module Wire supplies the program's own.
module Stream {
  import opened Wrappers
  import opened Bytes

  const MAX_TIME: int := 253402300799999
  const MAX_SEQUENCE: int := 0x7fff_ffff_ffff_ffff
  const MAX_PAYLOAD: int := 4096
  const MAX_BATCH: int := 32
  const MAX_CHARGE: int := 131072

  datatype Code =
    | SequenceOutOfRange | EventTypeOutOfRange | UnadvertisedEventType | InvalidEventPlacement | EventTooLarge
    | MalformedFrame | SemanticPayloadInvalid | WalCorruption | WalIoFailure | WalReopenRequired
    | InvalidHandshake | IdempotencyKeyConflict | EpochNotApproved | CheckpointBackdatedEvent
    | ResourceLimitExceeded | SenderRollback | ReceiverRollback | SplitLog | ReceiverIdChanged
    | ReceiverIncarnationChanged | SequenceGap | StreamAlreadyActive | RecoveryGap | ChainMismatch
    | EventIdentityMismatch | ContractBindingChanged | InvalidCapIncrease | ReceiverDurabilityUnavailable
    | SemanticContractMismatch

  // A lane-0 event; its wire encoding determines and is determined by these fields.
  datatype Event = Event(sequence: int, eventType: int, scope: Octets, time: int, relay: Octets, payload: Octets)

  // check: the completeness boundary of a well-formed event, or why it is malformed.
  // link: chain hash after an event, from the chain hash before it.
  // genesis: chain hash of the empty log.  hash: SHA-256.
  datatype Stream = Stream(
    check: Event -> Result<int, Code>,
    link: (Octets, Event) -> Octets,
    genesis: Octets,
    hash: Octets -> Octets)

  ghost predicate StreamOk(st: Stream) {
    && |st.genesis| == 32
    && (forall s: Octets :: |st.hash(s)| == 32)
    && (forall p: Octets, e: Event :: |st.link(p, e)| == 32)
    && (forall e: Event :: st.check(e).Success? ==> InBounds(e))
  }

  // What every accepted event satisfies, whatever else the check demands.
  predicate InBounds(e: Event) {
    && 1 <= e.sequence <= MAX_SEQUENCE
    && e.eventType == 1
    && e.scope == []
    && 0 <= e.time <= MAX_TIME
    && |e.relay| == 16
    && |e.payload| <= MAX_PAYLOAD
  }

  predicate Valid(st: Stream, e: Event) {
    st.check(e).Success?
  }

  function Boundary(st: Stream, e: Event): int
    requires Valid(st, e)
  {
    st.check(e).value
  }

  function Charge(e: Event): nat {
    32 + |e.scope| + |e.payload|
  }

  predicate AllValid(st: Stream, es: seq<Event>) {
    forall i :: 0 <= i < |es| ==> Valid(st, es[i])
  }

  // Chain hash after a whole log.
  function ChainOf(st: Stream, es: seq<Event>): Octets {
    if es == [] then st.genesis else st.link(ChainOf(st, es[..|es| - 1]), es[|es| - 1])
  }
}
