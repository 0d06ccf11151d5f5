/**
 * The registry that links inbound REST-AT transactions to local bridge
 * participants, as values: the two maps of InboundBridgeManager and one
 * specification function per operation, giving the result, the registry
 * afterwards and the calls made to collaborators.
 */
module BridgeRegistry {
  import opened Outcomes
  import opened ParticipantUrls

  /** The opaque branch identifier that drives the subordinate transaction. */
  type Xid = string

  /** A bridge: immutable, compared structurally. */
  datatype InboundBridge = InboundBridge(xid: Xid, txUrl: string, participantId: string)

  /** The exceptions the operations can throw. */
  datatype Error =
    | IllegalArgument   // a required identifier was null
    | NullPointer       // a bridge was dereferenced at an unmapped transaction URL
    | IndexOutOfBounds  // the base URL was empty when its last character was read
    | EnlistmentFailed  // the coordinator did not answer 201 Created
    | StopFailed        // the bridge's stop() threw
    | BridgeNotCreated  // the InboundBridge constructor threw

  /** The participant type marker and the URL segment of bridge participants. */
  datatype Config = Config(typeIdentifier: string, participantSegment: string)

  /** Calls made to collaborators outside the registry. */
  datatype Event =
    | Enlisted(txUrl: string, participantUrl: string)  // one POST to the coordinator
    | StopCalled(bridge: InboundBridge)                 // stop() invoked on a bridge

  /** inboundBridgeMappings (transaction URL to bridge) and participantMappings (participant id to transaction URL). */
  datatype Registry = Registry(bridges: map<string, InboundBridge>, participants: map<string, string>)

  /** What one operation returns, the registry it leaves and the calls it made, in order. */
  datatype Step<+T> = Step(result: T, after: Registry, events: seq<Event>)

  /**
   * The registry invariant: every bridge is stored under its own
   * transaction URL, and its participant id maps back to that URL.
   */
  predicate Consistent(reg: Registry) {
    forall t :: t in reg.bridges ==>
      && reg.bridges[t].txUrl == t
      && reg.bridges[t].participantId in reg.participants
      && reg.participants[reg.bridges[t].participantId] == t
  }

  /** `b` is reachable under both of its keys. */
  predicate Registered(reg: Registry, b: InboundBridge) {
    && b.txUrl in reg.bridges
    && reg.bridges[b.txUrl] == b
    && b.participantId in reg.participants
    && reg.participants[b.participantId] == b.txUrl
  }

  /** A step that returns `result` and touches nothing. */
  function Unchanged<T>(reg: Registry, result: T): Step<T> {
    Step(result, reg, [])
  }

  /** addInboundBridge: register a ready-made bridge unless either key is taken. */
  function Add(reg: Registry, b: InboundBridge): Step<bool> {
    var mapped := Get(reg.bridges, b.txUrl);
    if mapped == Some(b) then Unchanged(reg, true)
    else if mapped.Some? then Unchanged(reg, false)
    else if b.participantId in reg.participants then Unchanged(reg, false)
    else Step(true, Registry(reg.bridges[b.txUrl := b], reg.participants[b.participantId := b.txUrl]), [])
  }

  /**
   * enlistParticipant: build the participant URL, POST it to the
   * coordinator and, once that succeeded, map the participant id to the
   * transaction URL.
   */
  function Enlist(reg: Registry, cfg: Config, txUrl: string, participantId: string, baseUrl: string, created: bool)
    : (s: Step<Outcome<Error>>)
    ensures s.after.bridges == reg.bridges
    ensures |baseUrl| == 0 ==> s == Unchanged(reg, Fail(IndexOutOfBounds))
    ensures |baseUrl| > 0 ==> s.events == [Enlisted(txUrl, ParticipantUrl(baseUrl, cfg.participantSegment, participantId))]
    ensures |baseUrl| > 0 ==> (s.result.Pass? <==> created) && (!created ==> s.result == Fail(EnlistmentFailed))
    ensures s.result.Fail? ==> s.after == reg
    ensures s.result.Pass? ==> s.after.participants == reg.participants[participantId := txUrl]
  {
    if |baseUrl| == 0 then Unchanged(reg, Fail(IndexOutOfBounds))
    else
      var calls := [Enlisted(txUrl, ParticipantUrl(baseUrl, cfg.participantSegment, participantId))];
      if !created then Step(Fail(EnlistmentFailed), reg, calls)
      else Step(Pass, reg.(participants := reg.participants[participantId := txUrl]), calls)
  }

  /**
   * createInboundBridgeMapping: a no-op when the URL is already bridged;
   * otherwise enlist a fresh participant and store the new bridge.
   * `constructed` says whether the InboundBridge constructor returns; it
   * runs after enlistment has already mapped the participant id, so its
   * failure leaves that participant entry behind.
   */
  function Create(reg: Registry, cfg: Config, txUrl: string, baseUrl: string, xid: Xid, token: string,
                  created: bool, constructed: bool): (s: Step<Outcome<Error>>)
    ensures txUrl in reg.bridges ==> s == Unchanged(reg, Pass)
    ensures txUrl !in reg.bridges && |baseUrl| == 0 ==> s == Unchanged(reg, Fail(IndexOutOfBounds))
    ensures txUrl !in reg.bridges && |baseUrl| > 0 ==>
              && s.events == [Enlisted(txUrl, ParticipantUrl(baseUrl, cfg.participantSegment, cfg.typeIdentifier + token))]
              && (!created ==> s.result == Fail(EnlistmentFailed))
              && (created && !constructed ==> s.result == Fail(BridgeNotCreated))
              && (created && constructed ==> s.result == Pass)
    ensures s.result.Pass? ==> txUrl in s.after.bridges
    ensures txUrl !in reg.bridges && s.result.Pass? ==>
              var participantId := cfg.typeIdentifier + token;
              s.after == Registry(reg.bridges[txUrl := InboundBridge(xid, txUrl, participantId)],
                                  reg.participants[participantId := txUrl])
    ensures s.result.Fail? ==> s.after.bridges == reg.bridges
    ensures s.result.Fail? && s.result.error != BridgeNotCreated ==> s.after == reg
    ensures s.result == Fail(BridgeNotCreated) ==>
              s.after.participants == reg.participants[cfg.typeIdentifier + token := txUrl]
  {
    if txUrl in reg.bridges then Unchanged(reg, Pass)
    else
      var participantId := cfg.typeIdentifier + token;
      var e := Enlist(reg, cfg, txUrl, participantId, baseUrl, created);
      if e.result.Fail? then e
      else if !constructed then e.(result := Fail(BridgeNotCreated))
      else e.(after := e.after.(bridges := e.after.bridges[txUrl := InboundBridge(xid, txUrl, participantId)]))
  }

  /** getInboundBridge: the bridge for a transaction URL, created on first use. */
  function GetOrCreate(reg: Registry, cfg: Config, txUrl: Option<string>, baseUrl: Option<string>,
                       xid: Xid, token: string, created: bool, constructed: bool): Step<Result<InboundBridge, Error>>
  {
    if txUrl.None? || baseUrl.None? then Unchanged(reg, Failure(IllegalArgument))
    else
      var c := if txUrl.value in reg.bridges then Unchanged(reg, Pass)
               else Create(reg, cfg, txUrl.value, baseUrl.value, xid, token, created, constructed);
      if c.result.Fail? then Step(Failure(c.result.error), c.after, c.events)
      else Step(Success(c.after.bridges[txUrl.value]), c.after, c.events)
  }

  /** getParticipantTransaction: the transaction URL a participant id belongs to. */
  function Lookup(reg: Registry, participantId: Option<string>): Result<Option<string>, Error> {
    if participantId.None? then Failure(IllegalArgument)
    else Success(Get(reg.participants, participantId.value))
  }

  /**
   * removeInboundBridgeMapping: stop the bridge, then drop it from the
   * bridge map; the participant map is left as it is.
   */
  function RemoveByTx(reg: Registry, txUrl: Option<string>, stopped: bool): Step<Outcome<Error>> {
    if txUrl.None? then Unchanged(reg, Fail(IllegalArgument))
    else if txUrl.value !in reg.bridges then Unchanged(reg, Fail(NullPointer))
    else
      var calls := [StopCalled(reg.bridges[txUrl.value])];
      if !stopped then Step(Fail(StopFailed), reg, calls)
      else Step(Pass, reg.(bridges := reg.bridges - {txUrl.value}), calls)
  }

  /**
   * removeParticipantMapping: remove the bridge of the participant's
   * transaction, then the participant id itself.
   */
  function RemoveByParticipant(reg: Registry, participantId: Option<string>, stopped: bool): Step<Outcome<Error>> {
    if participantId.None? then Unchanged(reg, Fail(IllegalArgument))
    else
      var r := RemoveByTx(reg, Get(reg.participants, participantId.value), stopped);
      if r.result.Fail? then r
      else r.(after := r.after.(participants := r.after.participants - {participantId.value}))
  }
}
