/**
 * Properties of the registry operations: what each returns in each case,
 * that each keeps the registry invariant, and how they compose.
 */
module RegistryProperties {
  import opened Outcomes
  import opened ParticipantUrls
  import opened BridgeRegistry

  // ---------------------------------------------------------------- addInboundBridge

  /**
   * Registering a bridge succeeds exactly when the bridge ends up reachable
   * under both keys; a rejection changes nothing, and the registry changes
   * only when both keys were free, by inserting exactly those two keys.
   */
  lemma AddOutcome(reg: Registry, b: InboundBridge)
    requires Consistent(reg)
    ensures var s := Add(reg, b);
            && s.events == []
            && (s.result <==> Registered(s.after, b))
            && (!s.result ==> s.after == reg)
            && (s.after != reg <==> b.txUrl !in reg.bridges && b.participantId !in reg.participants)
            && (s.after != reg ==>
                  s.after == Registry(reg.bridges[b.txUrl := b], reg.participants[b.participantId := b.txUrl]))
  {
  }

  lemma AddPreservesConsistency(reg: Registry, b: InboundBridge)
    requires Consistent(reg)
    ensures Consistent(Add(reg, b).after)
  {
  }

  /** Registering the same bridge a second time is accepted and changes nothing. */
  lemma AddIdempotent(reg: Registry, b: InboundBridge)
    requires Add(reg, b).result
    ensures Add(Add(reg, b).after, b) == Step(true, Add(reg, b).after, [])
  {
  }

  /**
   * A bridge that shares the transaction URL or the participant id of a
   * different registered bridge is rejected, and nothing changes.
   */
  lemma AddRejectsConflicts(reg: Registry, registered: InboundBridge, b: InboundBridge)
    requires Consistent(reg) && Registered(reg, registered)
    requires b != registered
    requires b.txUrl == registered.txUrl || b.participantId == registered.participantId
    ensures Add(reg, b) == Step(false, reg, [])
  {
  }

  // ---------------------------------------------------------------- getInboundBridge

  /** A null transaction URL or base URL is rejected before anything happens. */
  lemma GetOrCreateRejectsNull(reg: Registry, cfg: Config, txUrl: Option<string>, baseUrl: Option<string>,
                               xid: Xid, token: string, created: bool, constructed: bool)
    requires txUrl.None? || baseUrl.None?
    ensures GetOrCreate(reg, cfg, txUrl, baseUrl, xid, token, created, constructed) == Step(Failure(IllegalArgument), reg, [])
  {
  }

  /** An already bridged transaction URL gives back its bridge, with no enlistment and no change. */
  lemma GetOrCreateExisting(reg: Registry, cfg: Config, txUrl: string, baseUrl: string,
                            xid: Xid, token: string, created: bool, constructed: bool)
    requires txUrl in reg.bridges
    ensures GetOrCreate(reg, cfg, Some(txUrl), Some(baseUrl), xid, token, created, constructed)
         == Step(Success(reg.bridges[txUrl]), reg, [])
  {
  }

  /**
   * An unmapped transaction URL with a non-empty base URL causes exactly
   * one enlistment, at the participant URL of a new participant id made
   * of the type marker and the fresh token. If the coordinator accepted
   * and the bridge was constructed, the new bridge is returned and stored
   * under both keys. If the coordinator refused, the registry is left
   * exactly as it was. If the coordinator accepted but the constructor
   * threw, the participant id stays mapped to the URL with no bridge.
   */
  lemma GetOrCreateNew(reg: Registry, cfg: Config, txUrl: string, baseUrl: string,
                       xid: Xid, token: string, created: bool, constructed: bool)
    requires txUrl !in reg.bridges
    requires |baseUrl| > 0
    ensures var s := GetOrCreate(reg, cfg, Some(txUrl), Some(baseUrl), xid, token, created, constructed);
            var participantId := cfg.typeIdentifier + token;
            var bridge := InboundBridge(xid, txUrl, participantId);
            && s.events == [Enlisted(txUrl, ParticipantUrl(baseUrl, cfg.participantSegment, participantId))]
            && (created && constructed ==>
                  && s.result == Success(bridge)
                  && s.after == Registry(reg.bridges[txUrl := bridge], reg.participants[participantId := txUrl]))
            && (!created ==> s.result == Failure(EnlistmentFailed) && s.after == reg)
            && (created && !constructed ==>
                  && s.result == Failure(BridgeNotCreated)
                  && s.after == Registry(reg.bridges, reg.participants[participantId := txUrl]))
  {
  }

  /** An empty base URL fails on the creation path only, before any enlistment. */
  lemma GetOrCreateEmptyBase(reg: Registry, cfg: Config, txUrl: string, xid: Xid, token: string,
                             created: bool, constructed: bool)
    requires txUrl !in reg.bridges
    ensures GetOrCreate(reg, cfg, Some(txUrl), Some(""), xid, token, created, constructed)
         == Step(Failure(IndexOutOfBounds), reg, [])
  {
  }

  /**
   * Once getInboundBridge has returned a bridge, every later call for the
   * same URL returns that same bridge without enlisting again or changing
   * the registry, whatever its other arguments.
   */
  lemma GetOrCreateOnce(reg: Registry, cfg: Config, txUrl: string, baseUrl: string, xid: Xid, token: string,
                        created: bool, constructed: bool,
                        baseUrl2: string, xid2: Xid, token2: string, created2: bool, constructed2: bool)
    requires GetOrCreate(reg, cfg, Some(txUrl), Some(baseUrl), xid, token, created, constructed).result.Success?
    ensures var first := GetOrCreate(reg, cfg, Some(txUrl), Some(baseUrl), xid, token, created, constructed);
            GetOrCreate(first.after, cfg, Some(txUrl), Some(baseUrl2), xid2, token2, created2, constructed2)
              == Step(first.result, first.after, [])
  {
  }

  /**
   * getInboundBridge keeps the invariant provided the fresh token gives a
   * participant id that is not yet in use. The creation path overwrites
   * participantMappings at that id, so a reused id would break it. This
   * holds on every path, including a constructor failure that leaves the
   * participant entry behind.
   */
  lemma GetOrCreatePreservesConsistency(reg: Registry, cfg: Config, txUrl: Option<string>, baseUrl: Option<string>,
                                        xid: Xid, token: string, created: bool, constructed: bool)
    requires Consistent(reg)
    requires cfg.typeIdentifier + token !in reg.participants
    ensures Consistent(GetOrCreate(reg, cfg, txUrl, baseUrl, xid, token, created, constructed).after)
  {
  }

  // ---------------------------------------------------------------- getParticipantTransaction

  /**
   * On a consistent registry no two stored bridges share a participant id,
   * so a participant id identifies at most one transaction.
   */
  lemma ParticipantIdsUnique(reg: Registry, t1: string, t2: string)
    requires Consistent(reg)
    requires t1 in reg.bridges && t2 in reg.bridges
    requires reg.bridges[t1].participantId == reg.bridges[t2].participantId
    ensures t1 == t2
  {
  }

  /** Every registered bridge's participant id leads back to its transaction URL; null is rejected. */
  lemma LookupRegistered(reg: Registry, b: InboundBridge)
    requires Registered(reg, b)
    ensures Lookup(reg, Some(b.participantId)) == Success(Some(b.txUrl))
    ensures Lookup(reg, None) == Failure(IllegalArgument)
  {
  }

  // ---------------------------------------------------------------- removeInboundBridgeMapping

  /**
   * Removal by transaction URL: null is rejected and an unmapped URL fails
   * on the dereference, both without any call; otherwise stop() is called
   * once on the bridge, and only if it returns is the bridge key removed.
   * The participant map is never touched.
   */
  lemma RemoveByTxOutcome(reg: Registry, txUrl: Option<string>, stopped: bool)
    ensures var s := RemoveByTx(reg, txUrl, stopped);
            && s.after.participants == reg.participants
            && (txUrl.None? ==> s == Step(Fail(IllegalArgument), reg, []))
            && (txUrl.Some? && txUrl.value !in reg.bridges ==> s == Step(Fail(NullPointer), reg, []))
            && (txUrl.Some? && txUrl.value in reg.bridges ==>
                  && s.events == [StopCalled(reg.bridges[txUrl.value])]
                  && (stopped ==> s.result == Pass && s.after.bridges.Keys == reg.bridges.Keys - {txUrl.value})
                  && (!stopped ==> s.result == Fail(StopFailed) && s.after == reg))
            && (forall t :: t in s.after.bridges ==> t in reg.bridges && s.after.bridges[t] == reg.bridges[t])
  {
  }

  lemma RemoveByTxPreservesConsistency(reg: Registry, txUrl: Option<string>, stopped: bool)
    requires Consistent(reg)
    ensures Consistent(RemoveByTx(reg, txUrl, stopped).after)
  {
  }

  /**
   * After a bridge is removed by its transaction URL its participant id
   * still resolves to that URL: the participant mapping is left behind.
   */
  lemma RemoveByTxLeavesParticipant(reg: Registry, b: InboundBridge)
    requires Registered(reg, b)
    ensures var after := RemoveByTx(reg, Some(b.txUrl), true).after;
            && b.txUrl !in after.bridges
            && Lookup(after, Some(b.participantId)) == Success(Some(b.txUrl))
  {
  }

  // ---------------------------------------------------------------- removeParticipantMapping

  /**
   * Removal by participant id of a registered bridge stops it and removes
   * both of its keys and nothing else; it leaves the bridge map exactly as
   * removal by transaction URL would. If stop() throws, nothing is removed.
   */
  lemma RemoveByParticipantRemovesBoth(reg: Registry, b: InboundBridge, stopped: bool)
    requires Consistent(reg) && Registered(reg, b)
    ensures var s := RemoveByParticipant(reg, Some(b.participantId), stopped);
            && s.events == [StopCalled(b)]
            && s.after.bridges == RemoveByTx(reg, Some(b.txUrl), stopped).after.bridges
            && (stopped ==>
                  && s.result == Pass
                  && s.after == Registry(reg.bridges - {b.txUrl}, reg.participants - {b.participantId})
                  && Lookup(s.after, Some(b.participantId)) == Success(None))
            && (!stopped ==> s.result == Fail(StopFailed) && s.after == reg)
  {
  }

  /** A null or unmapped participant id is rejected by the null check on the transaction URL. */
  lemma RemoveByParticipantUnmapped(reg: Registry, participantId: Option<string>, stopped: bool)
    requires participantId.Some? ==> participantId.value !in reg.participants
    ensures RemoveByParticipant(reg, participantId, stopped) == Step(Fail(IllegalArgument), reg, [])
  {
  }

  /**
   * Removal by a mapped participant id acts on whatever the id's URL holds.
   * When that URL has no bridge (the id was left behind by removal by URL),
   * the nested removal throws NullPointer before the id is removed, so
   * such an id cannot be removed this way until the URL is bridged again.
   */
  lemma RemoveByParticipantMapped(reg: Registry, participantId: string, stopped: bool)
    requires participantId in reg.participants
    ensures var t := reg.participants[participantId];
            var s := RemoveByParticipant(reg, Some(participantId), stopped);
            && (t !in reg.bridges ==> s == Step(Fail(NullPointer), reg, []))
            && (t in reg.bridges ==>
                  && s.events == [StopCalled(reg.bridges[t])]
                  && (stopped ==> s.result == Pass
                                  && s.after == Registry(reg.bridges - {t}, reg.participants - {participantId}))
                  && (!stopped ==> s.result == Fail(StopFailed) && s.after == reg))
  {
  }

  lemma RemoveByParticipantPreservesConsistency(reg: Registry, participantId: Option<string>, stopped: bool)
    requires Consistent(reg)
    ensures Consistent(RemoveByParticipant(reg, participantId, stopped).after)
  {
  }

  // ---------------------------------------------------------------- composition

  /**
   * The participant mapping left behind by removal by transaction URL
   * outlives the bridge: once the URL is bridged again, removing by the
   * old participant id removes the new bridge, whose own participant id is
   * then left mapped to a transaction that has no bridge.
   */
  lemma StaleParticipantRemovesSuccessor(reg: Registry, cfg: Config, b: InboundBridge,
                                         baseUrl: string, xid: Xid, token: string)
    requires Consistent(reg) && Registered(reg, b)
    requires |baseUrl| > 0
    requires cfg.typeIdentifier + token !in reg.participants
    ensures var removed := RemoveByTx(reg, Some(b.txUrl), true).after;
            var recreated := GetOrCreate(removed, cfg, Some(b.txUrl), Some(baseUrl), xid, token, true, true);
            var last := RemoveByParticipant(recreated.after, Some(b.participantId), true);
            && recreated.result.Success?
            && recreated.result.value.participantId != b.participantId
            && last.events == [StopCalled(recreated.result.value)]
            && last.result == Pass
            && b.txUrl !in last.after.bridges
            && Lookup(last.after, Some(recreated.result.value.participantId)) == Success(Some(b.txUrl))
  {
  }

  /**
   * First request for a transaction on a fresh registry: one enlistment,
   * at the base URL (which already ends in '/') followed by the segment
   * and the new participant id; with 201 Created the bridge is returned,
   * with any other answer nothing is registered for the URL.
   */
  lemma FirstRequestScenario(cfg: Config, xid: Xid, token: string, created: bool)
    ensures var s := GetOrCreate(Registry(map[], map[]), cfg, Some("https://coord/tx/1"), Some("https://svc/"),
                                 xid, token, created, true);
            var participantId := cfg.typeIdentifier + token;
            && s.events == [Enlisted("https://coord/tx/1", "https://svc/" + cfg.participantSegment + "/" + participantId)]
            && (created ==> s.result == Success(InboundBridge(xid, "https://coord/tx/1", participantId)))
            && (!created ==> s.result == Failure(EnlistmentFailed) && s.after == Registry(map[], map[]))
  {
  }
}
