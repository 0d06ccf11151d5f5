# Inbound REST-AT bridge registry

A Dafny model of `InboundBridgeManager`, the registry of the REST-AT to JTA
bridge that links an inbound REST Atomic Transaction, identified by its
transaction URL, to the local bridge participant standing in for it. The
registry keeps two maps: `inboundBridgeMappings` from transaction URL to
`InboundBridge` (xid, transaction URL, participant id), and
`participantMappings` from participant id back to transaction URL. Its
operations register a ready-made bridge, get or create (and enlist) the
bridge of a transaction URL, look up a participant's transaction, and
remove a bridge by transaction URL or by participant id.

Layout:

- `outcomes.dfy` (`Outcomes`): `Option` for Java's null, `Result` and
  `Outcome` for a call that returns or throws.
- `participant_urls.dfy` (`ParticipantUrls`): the participant URL built by
  `enlistParticipant`, its normalised base, and its inverse.
- `bridge_registry.dfy` (`BridgeRegistry`): the bridge and registry as values,
  the registry invariant `Consistent`, and one function per operation that
  gives its result, the registry afterwards and the collaborator calls made
  (`Enlisted` for the POST to the coordinator, `StopCalled` for `stop()`).
- `registry_properties.dfy` (`RegistryProperties`): lemmas about those
  functions.
- `inbound_bridge_manager.dfy` (`Inbound`): class `InboundBridgeManager`
  with the two map fields and a ghost log of collaborator calls. Each
  state-changing method updates the maps in place, is proved to match its `BridgeRegistry`
  function, and keeps `Consistent` (the three methods on the creation
  path given that the new participant id is not already a key).

The invariant `Consistent` says that every bridge is stored under its own
transaction URL and that its participant id maps back to that URL. Every
operation keeps it. The creation path needs one more fact: the id made from
the fresh token is not already a key of `participantMappings`.

Exceptions are values of `Error`:

- `IllegalArgument`: a null argument.
- `NullPointer`: removal of an unmapped URL.
- `IndexOutOfBounds`: `substring` on an empty base URL.
- `EnlistmentFailed`: the coordinator did not answer 201 Created.
- `StopFailed`: `stop()` threw.
- `BridgeNotCreated`: the `InboundBridge` constructor threw (line 173). It
  runs after enlistment has mapped the participant id (line 201), so that
  participant entry stays behind with no bridge.

The fresh xid, the fresh `Uid` token, the coordinator's answer, whether the
`InboundBridge` constructor returns and the outcome of `stop()` are method
parameters. `TYPE_IDENTIFIER` and
`PARTICIPANT_SEGMENT` are the fields of `Config`, a constant of the class.

### Behaviour of the code worth knowing

- `removeInboundBridgeMapping` removes only the bridge key. The participant
  id keeps resolving to the transaction URL.
  `RegistryProperties.StaleParticipantRemovesSuccessor` proves what follows:
  once the URL is bridged again, removal by the old participant id removes
  the new bridge.
- When `stop()` throws during removal, the bridge stays registered.
- `addInboundBridge` rejects a bridge whose participant id is already a key,
  even when that key maps to the bridge's own URL.
- Removing an unmapped transaction URL fails by dereferencing null. An
  unmapped participant id fails the nested null check on the URL.
- A participant id left behind by removal by URL cannot be removed by
  participant id while its URL has no bridge: the nested removal
  dereferences the missing bridge and throws before the id is removed
  (`RegistryProperties.RemoveByParticipantMapped`). Once the URL is bridged
  again, the removal succeeds and takes the new bridge with it, as above.
- A throw from the `InboundBridge` constructor during creation leaves the
  new participant id mapped to a URL that has no bridge.

## Model

| member | source | states |
|---|---|---|
| `ParticipantUrls.NormalizeBase` | src/main/java/org/jboss/jbossts/resttxbridge/inbound/InboundBridgeManager.java:189-191 | the normalised base ends in '/', extends the input by at most one character, and equals the input when it already ends in '/'; the input must be non-empty because its last character is read |
| `ParticipantUrls.ParticipantUrlShape` | src/main/java/org/jboss/jbossts/resttxbridge/inbound/InboundBridgeManager.java:189-193 | the participant URL starts with the base URL, has the segment right after the normalised base, and ends in '/' followed by the participant id |
| `ParticipantUrls.ParticipantUrlRoundTrip` | src/main/java/org/jboss/jbossts/resttxbridge/inbound/InboundBridgeManager.java:193 | the participant id is recovered from the participant URL built on the same base and segment |
| `ParticipantUrls.ParticipantUrlInjective` | src/main/java/org/jboss/jbossts/resttxbridge/inbound/InboundBridgeManager.java:193 | distinct participant ids of one service get distinct participant URLs |
| `BridgeRegistry.Enlist` | src/main/java/org/jboss/jbossts/resttxbridge/inbound/InboundBridgeManager.java:186-202 | enlistment never touches the bridge map; an empty base fails before any call; otherwise exactly one POST is made to the participant URL and the call passes iff the coordinator answered 201; a refusal fails with EnlistmentFailed and leaves the registry unchanged; success maps the participant id to the transaction URL and keeps every other entry |
| `BridgeRegistry.Create` | src/main/java/org/jboss/jbossts/resttxbridge/inbound/InboundBridgeManager.java:157-175 | a bridged URL is a no-op; on an unbridged URL an empty base fails before any call, otherwise exactly one POST is made to the participant URL of type marker + token, and the outcome is EnlistmentFailed on refusal, BridgeNotCreated on a constructor throw and Pass otherwise; success stores the bridge (xid, txUrl, id) and maps the id to txUrl; a failure never touches the bridge map; a failed enlistment leaves both maps unchanged, while a constructor throw leaves the participant entry behind |
| `RegistryProperties.AddOutcome` | src/main/java/org/jboss/jbossts/resttxbridge/inbound/InboundBridgeManager.java:48-68 | on a consistent registry, registration returns true iff the bridge ends up registered under both keys; false changes nothing; the maps change iff both keys were free, by inserting exactly txUrl to bridge and participantId to txUrl |
| `RegistryProperties.AddPreservesConsistency` | src/main/java/org/jboss/jbossts/resttxbridge/inbound/InboundBridgeManager.java:60-66 | registration keeps the registry invariant |
| `RegistryProperties.AddIdempotent` | src/main/java/org/jboss/jbossts/resttxbridge/inbound/InboundBridgeManager.java:48-53 | registering an accepted bridge again returns true and changes nothing |
| `RegistryProperties.AddRejectsConflicts` | src/main/java/org/jboss/jbossts/resttxbridge/inbound/InboundBridgeManager.java:55-63 | a different bridge sharing the transaction URL or the participant id of a registered bridge is rejected with no change |
| `RegistryProperties.GetOrCreateRejectsNull` | src/main/java/org/jboss/jbossts/resttxbridge/inbound/InboundBridgeManager.java:85-91 | a null transaction URL or base URL throws IllegalArgument before any state change or call |
| `RegistryProperties.GetOrCreateExisting` | src/main/java/org/jboss/jbossts/resttxbridge/inbound/InboundBridgeManager.java:93-97 | a bridged URL returns its existing bridge, with no enlistment and no change |
| `RegistryProperties.GetOrCreateNew` | src/main/java/org/jboss/jbossts/resttxbridge/inbound/InboundBridgeManager.java:167-174 | an unbridged URL causes exactly one enlistment at the participant URL of id type marker + token; on 201 with the constructor returning, the bridge (xid, txUrl, id) is returned and both keys are inserted; on refusal the registry is unchanged; on a constructor throw only the participant entry is added |
| `RegistryProperties.GetOrCreateEmptyBase` | src/main/java/org/jboss/jbossts/resttxbridge/inbound/InboundBridgeManager.java:189 | an empty base URL on the creation path throws before any enlistment and changes nothing |
| `RegistryProperties.GetOrCreateOnce` | src/main/java/org/jboss/jbossts/resttxbridge/inbound/InboundBridgeManager.java:93-97 | once a URL's bridge has been returned, later calls return the same bridge with no enlistment and no change, whatever their other arguments |
| `RegistryProperties.GetOrCreatePreservesConsistency` | src/main/java/org/jboss/jbossts/resttxbridge/inbound/InboundBridgeManager.java:170-201 | get-or-create keeps the registry invariant on every path, including a constructor throw, when the fresh participant id is not already a key |
| `RegistryProperties.ParticipantIdsUnique` | src/main/java/org/jboss/jbossts/resttxbridge/inbound/InboundBridgeManager.java:34-40 | on a consistent registry no two stored bridges share a participant id, so each participant id belongs to at most one transaction |
| `RegistryProperties.FirstRequestScenario` | src/main/java/org/jboss/jbossts/resttxbridge/inbound/InboundBridgeManager.java:167-201 | on an empty registry the first request enlists "https://svc/" + segment + "/" + id once; 201 yields the new bridge, a refusal leaves the URL unbridged |
| `RegistryProperties.LookupRegistered` | src/main/java/org/jboss/jbossts/resttxbridge/inbound/InboundBridgeManager.java:108-112 | a registered bridge's participant id resolves to its transaction URL; null throws IllegalArgument |
| `RegistryProperties.RemoveByTxOutcome` | src/main/java/org/jboss/jbossts/resttxbridge/inbound/InboundBridgeManager.java:123-128 | null throws IllegalArgument and an unmapped URL NullPointer, both with no call; otherwise stop() is called once and only if it returns is the bridge key removed; the participant map never changes and no other bridge changes |
| `RegistryProperties.RemoveByTxPreservesConsistency` | src/main/java/org/jboss/jbossts/resttxbridge/inbound/InboundBridgeManager.java:127-128 | removal by transaction URL keeps the registry invariant |
| `RegistryProperties.RemoveByTxLeavesParticipant` | src/main/java/org/jboss/jbossts/resttxbridge/inbound/InboundBridgeManager.java:128 | after removal by URL the bridge is gone but its participant id still resolves to the URL |
| `RegistryProperties.RemoveByParticipantRemovesBoth` | src/main/java/org/jboss/jbossts/resttxbridge/inbound/InboundBridgeManager.java:143-145 | removal by participant id of a registered bridge stops it and removes exactly its two keys, agreeing with removal by URL on the bridge map; if stop() throws nothing is removed |
| `RegistryProperties.RemoveByParticipantUnmapped` | src/main/java/org/jboss/jbossts/resttxbridge/inbound/InboundBridgeManager.java:139-144 | a null or unmapped participant id throws IllegalArgument with no change and no call |
| `RegistryProperties.RemoveByParticipantMapped` | src/main/java/org/jboss/jbossts/resttxbridge/inbound/InboundBridgeManager.java:143-145 | for any mapped participant id: if its URL has no bridge the call throws NullPointer with no change and no call; otherwise it stops the bridge at that URL and, if stop() returns, removes that URL's bridge and the id, else changes nothing |
| `RegistryProperties.RemoveByParticipantPreservesConsistency` | src/main/java/org/jboss/jbossts/resttxbridge/inbound/InboundBridgeManager.java:139-145 | removal by participant id keeps the registry invariant |
| `RegistryProperties.StaleParticipantRemovesSuccessor` | src/main/java/org/jboss/jbossts/resttxbridge/inbound/InboundBridgeManager.java:123-145 | after removal by URL and re-creation, removing by the old participant id removes the new bridge and leaves the new id mapped to an unbridged URL |
| `Inbound.InboundBridgeManager.constructor` | src/main/java/org/jboss/jbossts/resttxbridge/inbound/InboundBridgeManager.java:32-40 | both maps start empty, which is consistent |
| `Inbound.InboundBridgeManager.AddInboundBridge` | src/main/java/org/jboss/jbossts/resttxbridge/inbound/InboundBridgeManager.java:42-69 | result, new maps and calls are those of `Add`; keeps the invariant; returns true iff the bridge is registered afterwards |
| `Inbound.InboundBridgeManager.GetInboundBridge` | src/main/java/org/jboss/jbossts/resttxbridge/inbound/InboundBridgeManager.java:82-98 | result, new maps and calls are those of `GetOrCreate`; keeps the invariant given a fresh token |
| `Inbound.InboundBridgeManager.GetParticipantTransaction` | src/main/java/org/jboss/jbossts/resttxbridge/inbound/InboundBridgeManager.java:105-113 | returns `Lookup` of the current maps and changes nothing |
| `Inbound.InboundBridgeManager.RemoveInboundBridgeMapping` | src/main/java/org/jboss/jbossts/resttxbridge/inbound/InboundBridgeManager.java:120-129 | result, new maps and calls are those of `RemoveByTx`; the participant map is unchanged; keeps the invariant |
| `Inbound.InboundBridgeManager.RemoveParticipantMapping` | src/main/java/org/jboss/jbossts/resttxbridge/inbound/InboundBridgeManager.java:136-146 | result, new maps and calls are those of `RemoveByParticipant`; keeps the invariant |
| `Inbound.InboundBridgeManager.CreateInboundBridgeMapping` | src/main/java/org/jboss/jbossts/resttxbridge/inbound/InboundBridgeManager.java:157-175 | result, new maps and calls are those of `Create`: a no-op on a bridged URL, the bridge map written only after enlistment and construction returned; keeps the invariant given a fresh token |
| `Inbound.InboundBridgeManager.EnlistParticipant` | src/main/java/org/jboss/jbossts/resttxbridge/inbound/InboundBridgeManager.java:186-202 | result, new maps and calls are those of `Enlist`: the base is normalised in place, one POST is logged, the participant map is written only on 201; keeps the invariant given an unused participant id |

## Left out

- Concurrency: `ConcurrentHashMap`, the `synchronized` methods and the unsynchronised `containsKey` before the synchronised re-check in `getInboundBridge`. The registry is modelled sequentially, so the re-check in `createInboundBridgeMapping` is a no-op.
- The HTTP enlistment (`TxSupport.getParticipantUrls`, `httpRequest` expecting 201). It is network I/O in a library that is not part of this model. It appears as one logged `Enlisted` call and a boolean answer.
- Xid and participant-token generation (`XATxConverter.getXid`, `new Uid()`, `fileStringForm`). These are parameters, and the xid is an opaque string. Their uniqueness is not modelled: invariant preservation on creation takes freshness of the token as a hypothesis.
- `InboundBridge.stop()` and `InboundBridge.equals` are not part of this model. `stop()` is a logged `StopCalled` event that either returns or throws. Equality is structural, as datatype equality.
- A null `InboundBridge` passed to `addInboundBridge`, and null fields inside a bridge, are not modelled. Bridges are values with non-null fields.
- The exception types are not distinguished beyond the `Error` values above. `XAException`, `SystemException`, `IllegalStateException` and `RollbackException` declared at lines 157-158 appear as `BridgeNotCreated`, a throw from the constructor at line 173. Xid generation at line 167 is taken to succeed.
- Logging through `System.out.println` and `Logger` is not modelled.
