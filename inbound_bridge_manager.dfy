/**
 * InboundBridgeManager: the process-wide registry of inbound bridges, as
 * an object whose two map fields its methods update in place. Each method
 * is proved to do what the matching function of BridgeRegistry describes,
 * and to keep the registry invariant.
 */
module Inbound {
  import opened Outcomes
  import opened BridgeRegistry
  import RegistryProperties

  class InboundBridgeManager {
    /** Transaction URL to the bridge standing in for that transaction. */
    var inboundBridgeMappings: map<string, InboundBridge>
    /** Participant id to the transaction URL it was enlisted in. */
    var participantMappings: map<string, string>
    /** The participant type marker and participant URL segment. */
    const config: Config
    /** Every enlistment and stop() call made so far, in order. */
    ghost var log: seq<Event>

    function State(): Registry
      reads this
    {
      Registry(inboundBridgeMappings, participantMappings)
    }

    constructor (config: Config)
      ensures this.config == config
      ensures State() == Registry(map[], map[]) && log == []
      ensures Consistent(State())
    {
      this.config := config;
      inboundBridgeMappings := map[];
      participantMappings := map[];
      log := [];
    }

    method AddInboundBridge(inboundBridge: InboundBridge) returns (added: bool)
      modifies this
      ensures var s := Add(old(State()), inboundBridge);
              added == s.result && State() == s.after && log == old(log) + s.events
      ensures old(Consistent(State())) ==> Consistent(State()) && (added <==> Registered(State(), inboundBridge))
    {
      ghost var before := State();
      if Consistent(before) {
        RegistryProperties.AddPreservesConsistency(before, inboundBridge);
        RegistryProperties.AddOutcome(before, inboundBridge);
      }
      var mapped := Get(inboundBridgeMappings, inboundBridge.txUrl);
      if mapped == Some(inboundBridge) {
        return true;
      }
      if mapped.Some? {
        return false;
      }
      if inboundBridge.participantId in participantMappings {
        return false;
      }
      inboundBridgeMappings := inboundBridgeMappings[inboundBridge.txUrl := inboundBridge];
      participantMappings := participantMappings[inboundBridge.participantId := inboundBridge.txUrl];
      return true;
    }

    /**
     * `xid` and `token` are the fresh branch identifier and unique token the
     * creation path would generate; `created` says whether the coordinator
     * answers the enlistment with 201 Created, and `constructed` whether
     * the InboundBridge constructor returns.
     */
    method GetInboundBridge(txUrl: Option<string>, baseUrl: Option<string>, xid: Xid, token: string,
                            created: bool, constructed: bool)
      returns (bridge: Result<InboundBridge, Error>)
      modifies this
      ensures var s := GetOrCreate(old(State()), config, txUrl, baseUrl, xid, token, created, constructed);
              bridge == s.result && State() == s.after && log == old(log) + s.events
      ensures old(Consistent(State())) && config.typeIdentifier + token !in old(participantMappings) ==> Consistent(State())
    {
      ghost var before := State();
      if Consistent(before) && config.typeIdentifier + token !in participantMappings {
        RegistryProperties.GetOrCreatePreservesConsistency(before, config, txUrl, baseUrl, xid, token, created, constructed);
      }
      if txUrl.None? {
        return Failure(IllegalArgument);
      }
      if baseUrl.None? {
        return Failure(IllegalArgument);
      }
      if txUrl.value !in inboundBridgeMappings {
        var outcome := CreateInboundBridgeMapping(txUrl.value, baseUrl.value, xid, token, created, constructed);
        if outcome.Fail? {
          return Failure(outcome.error);
        }
      }
      return Success(inboundBridgeMappings[txUrl.value]);
    }

    method GetParticipantTransaction(participantId: Option<string>) returns (txUrl: Result<Option<string>, Error>)
      ensures txUrl == Lookup(State(), participantId)
    {
      if participantId.None? {
        return Failure(IllegalArgument);
      }
      return Success(Get(participantMappings, participantId.value));
    }

    /** `stopped` says whether the bridge's stop() returns normally. */
    method RemoveInboundBridgeMapping(txUrl: Option<string>, stopped: bool) returns (outcome: Outcome<Error>)
      modifies this
      ensures var s := RemoveByTx(old(State()), txUrl, stopped);
              outcome == s.result && State() == s.after && log == old(log) + s.events
      ensures participantMappings == old(participantMappings)
      ensures old(Consistent(State())) ==> Consistent(State())
    {
      ghost var before := State();
      if Consistent(before) {
        RegistryProperties.RemoveByTxPreservesConsistency(before, txUrl, stopped);
      }
      if txUrl.None? {
        return Fail(IllegalArgument);
      }
      if txUrl.value !in inboundBridgeMappings {
        return Fail(NullPointer);
      }
      var bridge := inboundBridgeMappings[txUrl.value];
      log := log + [StopCalled(bridge)];
      if !stopped {
        return Fail(StopFailed);
      }
      inboundBridgeMappings := inboundBridgeMappings - {txUrl.value};
      return Pass;
    }

    method RemoveParticipantMapping(participantId: Option<string>, stopped: bool) returns (outcome: Outcome<Error>)
      modifies this
      ensures var s := RemoveByParticipant(old(State()), participantId, stopped);
              outcome == s.result && State() == s.after && log == old(log) + s.events
      ensures old(Consistent(State())) ==> Consistent(State())
    {
      ghost var before := State();
      if Consistent(before) {
        RegistryProperties.RemoveByParticipantPreservesConsistency(before, participantId, stopped);
      }
      if participantId.None? {
        return Fail(IllegalArgument);
      }
      var txUrl := Get(participantMappings, participantId.value);
      outcome := RemoveInboundBridgeMapping(txUrl, stopped);
      if outcome.Fail? {
        return;
      }
      participantMappings := participantMappings - {participantId.value};
    }

    /** Re-checks the URL, then enlists a fresh participant and stores the new bridge. */
    method CreateInboundBridgeMapping(txUrl: string, baseUrl: string, xid: Xid, token: string,
                                      created: bool, constructed: bool)
      returns (outcome: Outcome<Error>)
      modifies this
      ensures var s := Create(old(State()), config, txUrl, baseUrl, xid, token, created, constructed);
              outcome == s.result && State() == s.after && log == old(log) + s.events
      ensures old(Consistent(State())) && config.typeIdentifier + token !in old(participantMappings) ==> Consistent(State())
    {
      if txUrl in inboundBridgeMappings {
        return Pass;
      }
      var participantId := config.typeIdentifier + token;
      outcome := EnlistParticipant(txUrl, participantId, baseUrl, created);
      if outcome.Fail? {
        return;
      }
      if !constructed {
        return Fail(BridgeNotCreated);
      }
      var bridge := InboundBridge(xid, txUrl, participantId);
      inboundBridgeMappings := inboundBridgeMappings[txUrl := bridge];
    }

    /** Posts the participant URL to the coordinator; maps the participant only after that succeeded. */
    method EnlistParticipant(txUrl: string, participantId: string, baseUrl: string, created: bool)
      returns (outcome: Outcome<Error>)
      modifies this
      ensures var s := Enlist(old(State()), config, txUrl, participantId, baseUrl, created);
              outcome == s.result && State() == s.after && log == old(log) + s.events
      ensures old(Consistent(State())) && participantId !in old(participantMappings) ==> Consistent(State())
    {
      if |baseUrl| == 0 {
        return Fail(IndexOutOfBounds);
      }
      var base := baseUrl;
      if base[|base| - 1] != '/' {
        base := base + "/";
      }
      var participantUrl := base + config.participantSegment + "/" + participantId;
      log := log + [Enlisted(txUrl, participantUrl)];
      if !created {
        return Fail(EnlistmentFailed);
      }
      participantMappings := participantMappings[participantId := txUrl];
      return Pass;
    }
  }
}
