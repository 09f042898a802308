# Eigent: a verified model of the registry, the sidecar and the core library

Eigent gives software agents identities that trace back to a human. A registry keeps a table of agents; an agent
may delegate part of its scope to a child, so the table is a forest, and revocation, expiry and deprovisioning act on
parts of it. A sidecar sits between an MCP client and server, splits the newline-delimited stream into messages and,
in enforce mode, lets through, refuses or holds each tool call. A small core library issues and delegates tokens.

Each module pairs the imperative code (classes and loops where the source has mutable state) with a specification on
values, and proves properties of the specification over every input or every run:

- `Agents`, `RegistrySpec`, `RegistryRuns`: the delegation forest, the registry's handlers and background jobs as
  steps of one state machine, the invariant they keep, and what follows for every reachable state. `RegistryEffects`
  spells out on the columns what each step does. `RegistryWaits` takes apart the handlers that wait for a signature and
  says what survives every interleaving.
- `RegistryDb`, `Scim`, `Compliance`: the database operations, handlers and sweeps as methods on a shared mutable
  table, each proved to perform its step; the departed-human webhook; the report's walk over a tree.
- `Ndjson`, `Interceptor`, `Policy`, `Glob`, `Approvals`: the incremental splitter against the batch meaning of a
  stream, enforce mode end to end, rule evaluation, pattern translation, and the approval queue. What a rule, a message
  or an approval's event calls for is also stated on the fields alone, and the code is proved to agree.
- `Permissions`, `CoreDelegation`, `Revocation`: scope lists, chains of core delegations, the revocation store.
- `RateLimit`, `Webhooks`, `AuditChain`, `DecisionLog`: the sliding window, the retry queue under interleaving, the
  hash-chained log, the rotated log file.
- `Prelude`: shared vocabulary.

## Where the code differs from what it announces

The model follows the code. These are the places where its comments, documentation or expectations say more; each is
a lemma, with the exact condition where there is one.

- `/verify` announces "exists and is active" (eigent-registry/src/server.ts:709) and refuses only `revoked`: stale and
  deprovisioned agents are allowed, and deprovisioning a revoked agent makes its calls pass again (`VerifyExactly`,
  `DeprovisioningAllows`, `DeprovisionedAgentIsAllowed`). The token's verification reads the clock, the handler waits
  for it, and its own expiry test reads the clock again; that test decides exactly if the expiry lies between the two
  readings, and an `expired` agent is allowed exactly if a sweep ran during the wait and the second reading is its very
  instant of expiry (`ExpiredIsAllowedExactly`, `ExpiryDuringTheWait`).
- The delegate handler waits for a signature between reading the parent and inserting the child. If the parent is
  revoked meanwhile, an active child ends up below a revoked parent (`RevocationDuringDelegate`). Of everything the
  handlers do in their parts, only such an insertion can break the invariant, exactly when the parent has been revoked
  or deprovisioned or something at or above it has expired since the check (`InterleavedDelegateExactly`,
  `SegmentKeepsInvExactly`); uniform trees, narrowing and the loss of `active` for good survive every interleaving
  (`TreesStayUniform`, `NeverActiveAgainEither`, `AllowedUnderWaits`).
- The SCIM webhook reads the issuer and ignores it: it revokes by subject, which is unique only at one issuer. Another
  human's agents are left alone exactly if no active agent with that subject is another human's
  (`ScimSparesOthersExactly`, `SharedSubjectIsRevoked`); likewise deprovisioning by email address
  (`DeprovisionSparesOthersExactly`, `SharedAddressIsDeprovisioned`).
- The SCIM webhook snapshots every active agent of the human, delegates included, and cascades from each, so it logs an
  agent once for every active agent of the human at or above it: one row for each agent revoked exactly when no active
  agent of the human sits above another (`TotalCountsAgentsOnce`, `ParentAndChildCountThree`). Its summary row is
  logged under the agent `system` (eigent-registry/src/scim.ts:181, and :120 when there are no agents). Foreign keys are
  enabled (eigent-registry/src/db.ts:28) and the audit log's `agent_id` references the agents table, where only
  generated identifiers occur (`NotAnAgent`), so every deprovisioning event ends in an error after all revocations and
  rows are committed; the `processed` reply, which eigent-registry/tests/oidc.test.ts:352-355 expects with totals 2 and 3,
  needs an agent called `system` (`Webhook`).
- `register` accepts a `can_delegate` outside the scope, and `delegate` looks only at `can_delegate`; so scope narrows
  along every edge except possibly those at a root. The registry's filter is the core's three-way intersection exactly
  when `can_delegate` is within scope (`TwoWayIsThreeWayExactly`, `AuditOutcome`, `WideRootCanFailNarrowing`).
- A core token whose trust domain (the text before the first `/agent/`) is no longer than `spiffe://` is valid and can
  never be delegated (`ChildIsWellFormedExactly`, `ShortTrustDomainsExist`).
- A cascade in the core store files children under the top token's expiry. That outlasts a descendant exactly when the
  descendant expires no later, which can fail because `delegateToken` and `issueToken` read the clock separately
  (`CascadeCoversChildExactly`).
- In hold mode a complete line over the buffer limit is forwarded without being judged, and so is a chunk that would
  overflow the buffer, whose buffered prefix is dropped, like an oversized unfinished tail. Every stream falls into such
  pieces and ordinary lines, and they are the stream's own lines exactly when no chunk leaves too much unfinished
  (`PiecesAreLinesExactly`, `OversizedLineIsNotAsked`, `OversizedCallIsForwarded`, `OversizedLineLosesItsPrefix`). With an
  always-allow callback hold mode is the identity exactly when nothing is dropped (`TransparentExactly`).
- So the gate can be passed by: newline-free filler, then a forbidden call that overflows the buffer with it, then the
  newline, and the server reads the call as a line of its own (`SplitCallPassesTheGate`). The server reads exactly the
  forwarded lines, each as it was judged, exactly when no chunk forwarded on overflow comes before one of them
  (`ServerReadsExactly`); if nothing unfinished is too long for the buffer, what it reads is exactly the client's own
  forwarded lines (`CompleteMediation`).
- `globMatch` leaves `?` alone, where the regular expression makes it a quantifier: a pattern without one is matched as
  its glob, and a misplaced one makes the expression ill-formed (`GlobMatchIsGlobExactly`, `GlobThrowsExactly`; what any
  other pattern matches, `GlobMatchMeans`). The
  loader accepts such a pattern, evaluation throws when it is reached, nothing before the splitter catches it, and the
  splitter forwards what its callback throws on: a policy whose one rule denies `?x` lets every call through that reaches
  it (`EvaluationThrowsExactly`, `PatternsThrowExactly`, `TypoLetsEverythingThrough`).
- "Policy rules can escalate": adding a policy makes enforcement milder in exactly one situation, a call without a
  token that an approval rule decides or on which evaluation throws (`PolicyEscalatesExactly`).
- `verifyAuditChain` recomputes each row from its own stored predecessor hash and never compares it with the row
  before, so of a log that verifies any rows may be removed, repeated or moved and the rest still verifies
  (`DeletionIsInvisible`). The comparison it leaves out would accept exactly the prefixes of a linked log
  (`LinkedExactlyPrefixes`, `RemovalBreaksLinks`). Handlers stamp their rows before they wait and log them afterwards;
  the links follow the order of the stamps exactly if the insertions did (`LinkedExactlyInOrder`).
- The report's chain audit starts at roots and follows chosen agents only: an agent is audited exactly if its whole
  delegation chain is chosen (`AuditedExactly`), which a choice by human ensures (`HumanIsAudited`) and a list of agents
  does not.
- An approval's expiry is compared with one reading of the clock and its `decided_at` is a later one, so a decision in time
  can carry a stamp beyond the expiry (`DecisionsAreInTime`, `LateStampsExist`).

## Conventions

Times are integer milliseconds (seconds in the core library). Where a handler tests one reading of the clock and uses
or stamps another, the two are separate (`checked` or `checkedAt`, and `now`): token verification in `/verify` and
delegate, decisions and polls of approvals, core delegation. Elsewhere a handler reads it once. A registry token
verifies exactly when it was issued and `floor(checked / 1000) < exp`. Identifiers from `uuidv7` never repeat. A query
without ORDER BY returns its rows in an order nobody promises. A clock that does not run backwards is assumed only
where a lemma says so. Chunks end at character boundaries, and lengths are counted in characters.

## Model

| member | source | states |
|---|---|---|
| Agents.ChainIsInverse | eigent-registry/src/db.ts:277-326 | the ancestor walk from `b` contains `a` exactly when `a` is `b` or the descendant walk from `a` contains `b`; entry `i` of the chain is the ancestor at depth `i`, linked to the one before, so both walks end and nothing repeats |
| Agents.InsertForest | eigent-registry/src/db.ts:220-234 | inserting a fresh row at its parent's depth plus one keeps every parent reference resolvable and acyclic, changes no existing ancestry, and puts the row below its parent's ancestors and nothing else |
| RegistrySpec.AncestorFacts | eigent-registry/src/server.ts:446-512 | along any ancestor path: same human, organisation, risk and depth limit, expiry no later, revocation inherited, scope within each ancestor's `can_delegate`, and within its scope unless it is a root |
| RegistrySpec.IssueKeepsInv | eigent-registry/src/server.ts:491-514 | an inserted active row keeps the invariant if it agrees with its parent on the inherited columns and nothing at or above the parent has expired |
| RegistrySpec.ExpireKeepsInv | eigent-registry/src/lifecycle.ts:129-198 | flipping exactly the active rows past their expiry leaves nothing active below an expired row, without any cascade |
| RegistrySpec.DeprovisionEmailKeepsInv | eigent-registry/src/lifecycle.ts:384-418 | deprovisioning rows by email alone keeps `revoked_at` closed downwards and nothing active below an expired row |
| RegistrySpec.RotateKeepsInv | eigent-registry/src/lifecycle.ts:90-96 | writing a fresh token for an existing agent, whatever its status has become during the wait for the signature, keeps the invariant |
| RegistrySpec.StepKeepsInv | eigent-registry/src/server.ts:228-602 | every handler and background job keeps the forest, the edge and row conditions, expiry closure and the link between tokens and rows |
| RegistryEffects.RegisterAcceptsExactly | eigent-registry/src/server.ts:228-357 | a registration is accepted if and only if it is well formed with a non-empty list of non-empty scopes, a depth limit of 0 to 10 and a lifetime of 60 seconds to 30 days, its identity is verified or complete, its risk is not unacceptable, a high risk comes with an ID token, a depth limit of at most 1 and no wildcard scope, and its organisation exists |
| RegistryEffects.RegisterRefusalsInOrder | eigent-registry/src/server.ts:228-357 | which refusal a registration meets, each stated on the request with everything checked before it |
| RegistryEffects.RegisterEffect | eigent-registry/src/server.ts:318-372 | an accepted registration adds one row and one token and changes no other: a root of depth 0 for the human of the identity, with the requested scope, `can_delegate` as requested or else the scope, active for the lifetime asked for |
| RegistryEffects.DelegateAcceptsExactly | eigent-registry/src/server.ts:401-462 | a delegation is accepted if and only if its scopes and lifetime are well formed, the token is in time and the parent's, the parent is active and above its depth limit, and some requested scope may be delegated |
| RegistryEffects.DelegateRefusalsInOrder | eigent-registry/src/server.ts:401-462 | which refusal a delegation meets, each stated on the request, the token and the parent with everything checked before it |
| RegistryEffects.DelegateEffect | eigent-registry/src/server.ts:446-514 | an accepted delegation adds one row and one token and changes no other: one below the parent, with its human, organisation, risk and limit; scope and `can_delegate` are exactly the requested scopes that the parent may delegate, in the order and with the repetitions of the request; it expires with the parent or after the lifetime asked for, whichever is earlier |
| RegistryEffects.RevokeEffect | eigent-registry/src/db.ts:293-307 | revoking writes `revoked` and the stamp on every agent at or below one that was not revoked, and nothing else |
| RegistryEffects.ScimEffect | eigent-registry/src/scim.ts:115-178 | the webhook revokes every agent that has an active agent of the subject at or above it, and changes nothing else |
| RegistryEffects.AutoExpiryEffect | eigent-registry/src/lifecycle.ts:129-198 | the sweep writes `expired` on exactly the active rows whose expiry has been reached |
| RegistryEffects.StaleSweepEffect | eigent-registry/src/lifecycle.ts:226-292 | the sweep writes `stale` on exactly the active rows never seen or last seen at or before the cutoff |
| RegistryEffects.DeprovisionAgentEffect | eigent-registry/src/lifecycle.ts:323-374 | writes `deprovisioned` and its stamp on every agent at or below one not deprovisioned, and `revoked_at` where there was none |
| RegistryEffects.DeprovisionHumanEffect | eigent-registry/src/lifecycle.ts:384-418 | writes the same on exactly the rows with that address not yet deprovisioned |
| RegistryEffects.RotateEffect | eigent-registry/src/lifecycle.ts:60-120 | for an active agent the row names the new token, which ends within the row's last second, and the old one is nobody's from then on; for another nothing changes |
| RegistryEffects.HeartbeatEffect | eigent-registry/src/lifecycle.ts:202-214 | writes the last-seen column of a known agent and nothing else |
| RegistryRuns.ActiveHasLiveAncestors | eigent-registry/src/db.ts:293-307 | in every reachable state an active agent has no revoked, deprovisioned or expired ancestor; `revoked_at` is set exactly on revoked and deprovisioned rows and inherited downwards |
| RegistryRuns.TreeIsUniform | eigent-registry/src/server.ts:491-512 | in every reachable state one tree has one human, organisation, risk level and depth limit; depth is the distance from the root and within the limit; expiry only shortens; a high-risk tree has height at most 1 |
| RegistryRuns.NeverActiveAgain | eigent-registry/src/lifecycle.ts:129-452 | over any run no row disappears, moves or has its scope, human, limits or expiry rewritten, and none becomes active again |
| RegistryRuns.InterleavedDelegateExactly | eigent-registry/src/server.ts:432-514 | whatever steps run between the parent check and the insertion, the invariant survives if and only if the parent is by then neither revoked nor deprovisioned and nothing at or above it has expired |
| RegistryRuns.RevocationDuringDelegate | eigent-registry/src/server.ts:489-514 | revoking the parent during the wait leaves an active child below a revoked parent |
| RegistryWaits.AdvanceKeeps | eigent-registry/src/server.ts:401-550 | every part of every handler, with delegations and rotations in any number of unfinished states, keeps the forest, the inherited columns, the row conditions, the tokens and what the waiting delegations rely on |
| RegistryWaits.UninterruptedIsAtomic | eigent-registry/src/server.ts:432-514 | a delegation's two parts with nothing in between are its step, and so are a rotation's |
| RegistryWaits.TreesStayUniform | eigent-registry/src/server.ts:432-514 | however the handlers interleave, every tree has one human, organisation, risk level and depth limit, depth is the distance from the root and within the limit, expiry only shortens, scope only narrows but for a root's own `can_delegate`, and the two walks are inverse |
| RegistryWaits.NeverActiveAgainEither | eigent-registry/src/lifecycle.ts:60-452 | no interleaving makes an agent active again, moves it or rewrites what it inherited |
| RegistryWaits.AllowedUnderWaits | eigent-registry/src/server.ts:685-810 | under every interleaving, whoever is on an allowed caller's chain had not expired when the token was verified nor has since, and but for the root has the tool in scope |
| RegistryWaits.SegmentKeepsInvExactly | eigent-registry/src/server.ts:432-514 | a part of a handler breaks inherited revocation and expiry if and only if it inserts a child whose parent has been revoked or deprovisioned, or something at or above it has expired, since the check |
| RegistryRuns.DeprovisionHumanIsComplete | eigent-registry/src/lifecycle.ts:384-418 | after deprovisioning an email address all and only the agents with that address have changed, and a cascade below them would have reached no other |
| RegistryRuns.DeprovisionSparesOthersExactly | eigent-registry/src/lifecycle.ts:384-418 | a deprovisioned human has no agent left that is not, and no other human's agent changes if and only if none not yet deprovisioned has the same address |
| RegistryRuns.SharedAddressIsDeprovisioned | eigent-registry/src/lifecycle.ts:384-418 | two registered humans with one address: deprovisioning one deprovisions the other's agent |
| RegistryRuns.ScimIsComplete | eigent-registry/src/scim.ts:115-178 | after the webhook the subject has no active agent and no agent with another subject has changed |
| RegistryRuns.ScimSparesOthersExactly | eigent-registry/src/scim.ts:111-178 | the departed human has no active agent left, and no other human's agent changes if and only if no active agent with that subject is another human's |
| RegistryRuns.SharedSubjectIsRevoked | eigent-registry/src/scim.ts:111-178 | two registered humans with one subject at different issuers: one leaves, the other's agent is revoked |
| RegistryRuns.VerifyExactly | eigent-registry/src/server.ts:685-810 | a call is allowed if and only if the tool is named, the token was in time when verified, some row still holds it, that row is not `revoked`, has not passed its expiry by the second reading, and lists the tool; the row's own expiry test decides if and only if the expiry lies between the two readings |
| RegistryEffects.VerifyAnswers | eigent-registry/src/server.ts:685-810 | each answer of `/verify`, the five refusals and the permission with its chain, holds if and only if a condition on the token, the row that it was issued for and the two readings does |
| RegistryRuns.WaitKeepsToken | eigent-registry/src/server.ts:697-710 | whatever steps run during the wait, the token still belongs to the same agent and ends at the same time |
| RegistryRuns.ExpiredIsAllowedExactly | eigent-registry/src/server.ts:697-760 | an `expired` agent whose token was in time is allowed if and only if the second reading is exactly its expiry |
| RegistryRuns.ExpiryDuringTheWait | eigent-registry/src/server.ts:697-760 | a concrete wait in which a sweep expires the agent and the call is allowed, and one millisecond later refused by the row's own test |
| RegistryRuns.ExpiredIsPast | eigent-registry/src/lifecycle.ts:129-198 | under a clock that does not run backwards every expired row is past its expiry |
| RegistryRuns.AllowedMeansInForce | eigent-registry/src/server.ts:685-810 | an allowed call's chain starts at a root, nobody on it had reached `expires_at` when the token was verified or has passed it since, the agent is `expired` only at its very instant of expiry, every ancestor of depth at least 1 has the tool in scope, and the root may delegate it |
| RegistryRuns.AllowedByEveryAncestor | eigent-registry/src/server.ts:446-475 | if roots delegate only what they hold, every ancestor of an allowed caller has the tool in scope |
| RegistryRuns.RevocationRefuses | eigent-registry/src/server.ts:718-738 | revoking an agent refuses the calls of everything at or below it |
| RegistryRuns.DeprovisioningAllows | eigent-registry/src/server.ts:709-741 | after deprovisioning, a call with a token in time for a listed tool is allowed if and only if the row has not passed its expiry, even if the row was revoked before |
| RegistryRuns.NotAnAgent | eigent-registry/src/server.ts:318 | an identifier that no registration or delegation generates belongs to no agent in any reachable state |
| RegistryRuns.DeprovisionedAgentIsAllowed | eigent-registry/src/server.ts:709-741 | a concrete registered and deprovisioned agent whose call is allowed |
| RegistryDb.Registry.FindDescendants | eigent-registry/src/db.ts:277-288 | ends, and lists every proper descendant exactly once |
| RegistryDb.Registry.RevokeAgentCascade | eigent-registry/src/db.ts:293-307 | revokes exactly the subtree and returns it, the agent first, each once |
| RegistryDb.Registry.GetDelegationChain | eigent-registry/src/db.ts:312-326 | ends with the chain from the root to the agent, or nothing for an unknown agent |
| RegistryDb.Registry.Register | eigent-registry/src/server.ts:228-398 | refuses exactly malformed requests, identities that cannot be verified or are incomplete, forbidden risks and unknown organisations, with the reason that comes first, changing nothing; otherwise performs the step under fresh identifiers, with the row's columns and the reply spelled out, and logs it |
| RegistryDb.Registry.Delegate | eigent-registry/src/server.ts:401-550 | refuses exactly the listed requests, changing nothing; otherwise inserts one child whose scope and `can_delegate`, and the reply, are exactly the requested scopes that the parent may delegate, in the order and with the repetitions of the request, expiring at the earlier of the parent's expiry and the lifetime asked for, and logs it |
| RegistryDb.Registry.Revoke | eigent-registry/src/server.ts:553-602 | refuses unknown and revoked agents; otherwise revokes the subtree, and reply length and audit rows are one for each agent of it |
| RegistryDb.Registry.Verify | eigent-registry/src/server.ts:685-810 | the verdict is the specified one, and exactly the attributable verdicts are logged, under the agent they concern |
| RegistryDb.AuditRowsExactly | eigent-registry/src/lifecycle.ts:150-190 | one audit row for each listed agent, in order, with its own email, the action and the time |
| RegistryDb.BelowDueIsDue | eigent-registry/src/lifecycle.ts:150-185 | whatever is active below an agent due for expiry is due itself |
| RegistryDb.Registry.RunAutoExpiry | eigent-registry/src/lifecycle.ts:129-198 | in whatever order the rows come, exactly the active rows past their expiry are flipped; the two result lists are disjoint, duplicate-free and together those rows; each has one audit row; a cascaded one hangs below a listed one |
| RegistryDb.Registry.MarkStaleAgents | eigent-registry/src/lifecycle.ts:255-292 | marks exactly the active rows not seen since the cutoff, once each, without cascading |
| RegistryDb.Registry.DeprovisionAgent | eigent-registry/src/lifecycle.ts:323-374 | deprovisions exactly the subtree, keeping earlier `revoked_at` values, returns the descendants and logs the agent itself |
| RegistryDb.Registry.DeprovisionHuman | eigent-registry/src/lifecycle.ts:384-452 | deprovisions exactly the rows with that email that are not yet so, and logs one row if there were any |
| RegistryDb.Registry.RotateToken | eigent-registry/src/lifecycle.ts:60-120 | only for an active agent: a fresh token with the row's expiry replaces the current one, and no other row changes |
| RegistryDb.Registry.RecordHeartbeat | eigent-registry/src/lifecycle.ts:202-214 | for a known agent, whatever its status, sets `last_seen_at` and nothing else |
| Scim.Webhook | eigent-registry/src/scim.ts:88-208 | other events change nothing; a deprovisioning event performs the specified revocation and logs each agent once for every active agent of the human at or above it, and then succeeds if and only if `system` is an agent |
| Scim.TotalCountsAgentsOnce | eigent-registry/src/scim.ts:146-178 | the audit rows name exactly the agents revoked, and are as many if and only if no active agent of the human hangs under another |
| Scim.ParentAndChildCountThree | eigent-registry/src/scim.ts:146-178 | for an active parent and its active child three revocations are logged |
| Compliance.Walk | eigent-registry/src/compliance-report.ts:194-215 | the recursive walk over the chosen agents ends and visits exactly those it can reach without a gap, each once, its root first |
| Compliance.AnalyzeTree | eigent-registry/src/compliance-report.ts:190-245 | for any choice of agents the two flags are exactly "every scope reached is within its parent's" and "some depth reached exceeds the root's limit" |
| Compliance.AuditOutcome | eigent-registry/src/compliance-report.ts:217-237 | in a table kept by the registry the depth flag is never raised, and the narrowing flag is raised exactly when a chosen direct child of the root holds a scope the root lacks, hence never if the root delegates only what it holds |
| Compliance.AuditedExactly | eigent-registry/src/compliance-report.ts:167-215 | a chosen agent is audited if and only if its whole delegation chain is chosen |
| Compliance.HumanIsAudited | eigent-registry/src/compliance-report.ts:72-74 | choosing by human audits every agent of that human |
| Compliance.WideRootCanFailNarrowing | eigent-registry/src/server.ts:324 | any root that may delegate a scope it lacks is one accepted delegation away from a reported violation |
| Ndjson.SplitIsExact | eigent-sidecar/src/parser.ts:213-240 | lines with their newlines, then the tail, give the stream back |
| Ndjson.SplitIsUnique | eigent-sidecar/src/parser.ts:213-240 | there is no other way to cut a stream into newline-free lines and a newline-free tail |
| Ndjson.PiecesConserve | eigent-sidecar/src/parser.ts:196-420 | any stream in any chunks is exactly the concatenation of its pieces: complete lines, unfinished end, chunks forwarded on overflow, and dropped text |
| Ndjson.HoldJudgesPieces | eigent-sidecar/src/parser.ts:269-420 | any stream in any chunks: hold mode's output, and what the callback writes, are those of the pieces in order |
| Ndjson.PieceOutExactly | eigent-sidecar/src/parser.ts:330-420 | what each piece comes out as: a line not asked about, allowed or thrown on with its newline; a denied line as the response, ending in one newline, or as nothing; the unfinished end likewise but as it is |
| Ndjson.ShownExactly | eigent-sidecar/src/parser.ts:228-248 | of complete lines exactly those that parse and are not too long are asked about, each once and in order |
| Ndjson.PiecesAreLinesExactly | eigent-sidecar/src/parser.ts:269-324 | the pieces are the stream's own lines and tail if and only if what the chunks leave unfinished always fits into the buffer |
| Ndjson.HoldRefinesBatch | eigent-sidecar/src/parser.ts:269-420 | then hold mode's whole output is the batch output, lines of any length included: each line passed, dropped or replaced by its decision, then the tail |
| Ndjson.PassthroughShowsPieces | eigent-sidecar/src/parser.ts:196-263 | any stream in any chunks: the callback is shown exactly the pieces that parse and are not too long |
| Ndjson.PassthroughShowsBatch | eigent-sidecar/src/parser.ts:196-263 | if what is left unfinished always fits, the callback sees exactly the stream's lines that parse and are not too long, in order |
| Ndjson.PassthroughForwardsAll | eigent-sidecar/src/parser.ts:196-263 | passthrough mode forwards every stream unchanged, oversized lines included |
| Ndjson.FedConserves | eigent-sidecar/src/parser.ts:269-324 | with a forwarding callback, output plus buffer is the input exactly as long as no chunk loses anything, and strictly shorter after one does |
| Ndjson.TransparentExactly | eigent-sidecar/src/parser.ts:269-420 | with a forwarding callback hold mode is the identity if and only if no chunk overflows a buffered prefix or leaves an oversized tail |
| Ndjson.WithinLimitLosesNothing | eigent-sidecar/src/parser.ts:269-324 | if all lines are within the limit, then under any chunking what is left unfinished fits and nothing is lost |
| Ndjson.OversizedLineLosesItsPrefix | eigent-sidecar/src/parser.ts:269-290 | an oversized line arriving in two parts: the first part is dropped, the second forwarded without asking |
| Ndjson.OversizedLineIsNotAsked | eigent-sidecar/src/parser.ts:330-339 | a complete line over the limit is forwarded, whatever the callback would say |
| Ndjson.NdjsonInterceptor.TransformPassthrough | eigent-sidecar/src/parser.ts:196-263 | performs the specified feeding step; the buffer stays newline-free and within the limit for any input |
| Ndjson.NdjsonInterceptor.TransformHoldMode | eigent-sidecar/src/parser.ts:269-324 | performs the specified feeding step; the buffer stays newline-free and within the limit for any input |
| Ndjson.NdjsonInterceptor.ProcessLinesHold | eigent-sidecar/src/parser.ts:330-371 | appends each line's outcome in order and asks the callback exactly about the lines that parse and are within the limit |
| Ndjson.NdjsonInterceptor.EndOfStream | eigent-sidecar/src/parser.ts:373-420 | treats the unfinished tail as specified and empties the buffer |
| Interceptor.EnforceIsExactlyOnce | eigent-sidecar/src/interceptor.ts:533-703 | for every stream and chunking each piece has one fate: forwarded unchanged, or a `tools/call` answered with one error carrying its id (section 5 of the JSON-RPC 2.0 specification), or lost; the server reads the forwarded pieces in order and nothing else, the client the errors in order and nothing else |
| Interceptor.HandlerExactly | eigent-sidecar/src/interceptor.ts:533-703 | what any message is answered, on its fields: only a `tools/call` request with a non-empty tool name, whatever its id, is ever stopped; then a token that does not cover the tool refuses it, and otherwise the deciding rule, the exception or the default does what it calls for, a held call being refused unless `approved` is the first final answer; each refusal is one error -32001 with the id |
| Interceptor.RefusedCallsAreStopped | eigent-sidecar/src/interceptor.ts:533-703 | if what the chunks leave unfinished fits into the buffer, a line that holds such a call and is refused by its token or by the deciding rule is answered with one error carrying its id, and the lines the server reads are lines at other positions of the client's stream |
| Interceptor.ServerReadsExactly | eigent-sidecar/src/parser.ts:269-371 | for every stream and chunking the lines the server reads are the forwarded lines, each with the chunks forwarded on overflow since the one before in front; they are the forwarded lines themselves if and only if no such chunk comes before one of them |
| Interceptor.ServerReadsForwardedLines | eigent-sidecar/src/parser.ts:269-371 | if what the chunks leave unfinished fits, the server reads the client's lines at exactly the positions whose fate is to be forwarded, each once and in order |
| Interceptor.CompleteMediation | eigent-sidecar/src/interceptor.ts:533-703 | if what the chunks leave unfinished always fits into the buffer, the server reads exactly the client's own lines whose fate is to be forwarded, in order, and the client's unfinished end if that is forwarded |
| Interceptor.SplitCallPassesTheGate | eigent-sidecar/src/parser.ts:273-283 | filler, then a call that overflows the buffer with it, then a newline: the server reads the call as a line and the client no error, although as a line the call is refused |
| Interceptor.FatesAddUp | eigent-sidecar/src/interceptor.ts:579-683 | of a client's stream, the client reads as many errors as tool calls were refused, and every other piece was forwarded or lost |
| Interceptor.ForwardedCallsAreAuthorised | eigent-sidecar/src/interceptor.ts:539-683 | a piece of the stream that holds a request, with any id, to call a named tool is forwarded if and only if it is not dropped and is a chunk forwarded on overflow, or a line too long to be judged, or evaluation throws on it, or its token covers the tool and the deciding rule neither denies nor holds it, or an approval rule decides it and the registry's first final answer is `approved` |
| Interceptor.HeldCallsAreApproved | eigent-sidecar/src/interceptor.ts:634-683 | with replies from a registry run that accepted the request, a call to a named tool that an approval rule decides is forwarded if and only if the first final answer is `approved`, and then the row, for the token's subject and this tool, is approved, in time, with exactly one matching audit row |
| Interceptor.TypoLetsEverythingThrough | eigent-sidecar/src/parser.ts:350-369 | under a policy whose one rule denies the pattern `?x`, every call to a named tool without a token is forwarded without an error; without the policy it is refused |
| Interceptor.OversizedCallIsForwarded | eigent-sidecar/src/parser.ts:332-338 | a line over the limit is forwarded whatever tool call it is |
| Interceptor.McpInterceptor.HandleClientMessageHold | eigent-sidecar/src/interceptor.ts:533-703 | answers as specified and writes one error -32001 with the request's id exactly when it denies; anything but a request to call a named tool is allowed; such a call is denied if its token does not cover it, and without a policy decided by the token alone |
| Interceptor.McpInterceptor.EnforceStream | eigent-sidecar/src/interceptor.ts:533-703 | for any client stream in any chunks, through the hold-mode splitter: what the server and the client get is each piece's fate |
| Approvals.ApprovalQueue.UpdateApprovalStatus | eigent-registry/src/db.ts:730-740 | writes status, decider and stamp of the row exactly if it is pending, changes nothing else, and reports whether it did |
| Approvals.ApprovalQueue.ExpireOldApprovals | eigent-registry/src/db.ts:742-748 | expires exactly the pending rows whose expiry the reading has reached |
| Approvals.PendingRowAfter | eigent-registry/src/server.ts:1417-1493 | what any event does to a pending row: it expires if and only if a reading that has reached its expiry comes with a poll of it, a decision on it, the listing or an accepted request; it is approved or denied if and only if such a decision comes before; otherwise it stays as it is |
| Approvals.OtherRowsAfter | eigent-registry/src/server.ts:1417-1493 | a row not pending never changes; a new row is that of an accepted request, pending until the lifetime asked for is over |
| Approvals.DecidedIsFinal | eigent-registry/src/db.ts:730-748 | over any run a row that has left `pending` never changes again |
| Approvals.RunKeepsInv | eigent-registry/src/server.ts:1415-1493 | every run keeps each row's status, decision columns and audit rows in agreement; a request's audit row is missing exactly while its handler waits for the notifications |
| Approvals.DecisionsAreLoggedOnce | eigent-registry/src/server.ts:1417-1493 | in every reachable state an approved or denied approval has exactly one matching audit row and the others have none; a request has one unless its handler still waits; every audit row names its approval's agent |
| Approvals.DecisionsAreInTime | eigent-registry/src/server.ts:1447-1493 | every approved or denied row was decided by one event of the run, on a pending row and before the expiry by the reading that event compared it with; the row shows that event's decision, decider and stamp |
| Approvals.ExpiriesAreDue | eigent-registry/src/server.ts:1417-1493 | every expired row was expired by one event of the run, on a pending row, whose reading had reached its expiry: a poll, a decision, the listing or a later request |
| Approvals.LateStampsExist | eigent-registry/src/server.ts:1454-1455 | a run in which a decision in time is stamped after the expiry |
| Approvals.RequestedRow | eigent-registry/src/server.ts:1425-1429 | the row of an accepted request is for that agent and tool ever after |
| Approvals.ApprovalQueue.Request | eigent-registry/src/server.ts:1417-1438 | refuses malformed requests and unknown agents; otherwise expires exactly the old pending rows that are due and inserts the pending row, for the lifetime asked for, not yet logged |
| Approvals.ApprovalQueue.LogRequest | eigent-registry/src/server.ts:1439-1440 | after the notifications the request has exactly one audit row |
| Approvals.ApprovalQueue.Decide | eigent-registry/src/server.ts:1447-1476 | succeeds exactly for a pending row whose expiry the reading compared with it has not reached, and writes decision, decider and stamp; a pending row that is late is expired instead, and nothing else ever changes |
| Approvals.ApprovalQueue.Poll | eigent-registry/src/server.ts:1445 | afterwards the row is expired if and only if it was, or was pending with its expiry reached by the reading; no other row and no other column changes otherwise, and the reply is the row's status |
| Approvals.FirstFinalExactly | eigent-sidecar/src/interceptor.ts:812-836 | each outcome holds if and only if some reply is that answer and every earlier one is missing or `pending`; `timeout` if and only if all are |
| Approvals.RequestAndPoll | eigent-sidecar/src/interceptor.ts:812-836 | the outcome is the first final answer, `timeout` if there is none |
| Approvals.OutcomeIsTheRowsStatus | eigent-sidecar/src/interceptor.ts:768-837 | whatever the registry does around the polls, a final outcome is the row's status for good: `approved` means approved in time by an event of the run, with exactly one audit row saying so and none saying the opposite |
| RateLimit.WindowBound | eigent-registry/src/rate-limit.ts:34-64 | any half-open interval one window long holds at most `maxRequests` allowed calls |
| RateLimit.DecideExactly | eigent-registry/src/rate-limit.ts:34-64 | on the times of the key's allowed calls: allowed if and only if fewer than `maxRequests` lie in the window that ends now; the remaining number is what the window still takes; a refusal announces the time until the oldest of them leaves, at least a second |
| RateLimit.RecordKeepsSpacing | eigent-registry/src/rate-limit.ts:44-58 | allowing a call keeps any `maxRequests + 1` allowed calls a window apart |
| RateLimit.RetryIsEnough | eigent-registry/src/rate-limit.ts:47-55 | after a refusal, with no other call on the key, the next check is allowed exactly from the moment the oldest counted call leaves the window, and always after the announced wait |
| RateLimit.CheckStep | eigent-registry/src/rate-limit.ts:34-64 | the pruned timestamps answer as the key's full history would, now and later |
| RateLimit.CleanupStep | eigent-registry/src/rate-limit.ts:67-77 | cleaning up changes no answer to come |
| RateLimit.RateLimiter.Check | eigent-registry/src/rate-limit.ts:34-64 | the answer is the one the key's full history of allowed calls requires, allowed if and only if fewer than `maxRequests` of them lie in the window; the history gains the call exactly if it is allowed; other keys are untouched |
| RateLimit.RateLimiter.Cleanup | eigent-registry/src/rate-limit.ts:67-77 | no history changes, so no later answer does |
| RateLimit.RateLimiter.WindowBoundHolds | eigent-registry/src/rate-limit.ts:34-77 | the bound holds of the limiter after every sequence of checks and cleanups |
| Permissions.IsActionAllowed | eigent-core/src/permissions.ts:53-79 | true exactly if some scope is `*`, the tool, or a `prefix:*` the tool starts with |
| Permissions.IntersectScopes | eigent-core/src/permissions.ts:19-39 | granted are exactly the requested scopes held and delegatable, in request order with their repetitions; granted and denied together are the request and share nothing |
| Permissions.CanDelegate | eigent-core/src/permissions.ts:93-114 | true exactly if a non-empty request below the depth limit would be granted in full |
| Permissions.NarrowingIsSemantic | eigent-core/src/permissions.ts:53-79 | a narrower scope list allows no further tool, wildcards included, in all three components |
| Permissions.MatchersAreNested | eigent-sidecar/src/auth.ts:296-301 | what the registry allows the sidecar allows, and what the sidecar allows the core allows |
| Permissions.MatchersDiffer | eigent-core/src/permissions.ts:53-79 | neither implication can be reversed: `*` divides the first two, `db:*` the last two |
| Permissions.TwoWayIsThreeWayExactly | eigent-registry/src/server.ts:446-451 | the registry's filter grants what the core's intersection grants for every request if and only if `can_delegate` is within scope |
| CoreDelegation.ValidateDelegationChain | eigent-core/src/delegation.ts:169-214 | no violations exactly for consistent chain metadata; each of the five kinds is reported exactly where it occurs |
| CoreDelegation.SameTrustDomain | eigent-core/src/delegation.ts:83-85 | a child has its parent's trust domain |
| CoreDelegation.ChildIsWellFormedExactly | eigent-core/src/delegation.ts:83-85 | the child's subject is well formed if and only if the parent's trust domain is longer than the scheme |
| CoreDelegation.ShortTrustDomainCannotDelegate | eigent-core/src/delegation.ts:105-122 | from a shorter one no request is ever granted |
| CoreDelegation.ShortTrustDomainsExist | eigent-core/src/types.ts:25-44 | two shapes of valid subject with such a trust domain |
| CoreDelegation.GrantedRequestsExactly | eigent-core/src/delegation.ts:38-100 | a request is granted if and only if it names an agent, some scopes and no non-positive time, the parent is in time at both readings and above its limit, some requested scope is one that it holds and may delegate, and its trust domain is longer than the scheme |
| CoreDelegation.RefusalsInOrder | eigent-core/src/delegation.ts:38-122 | which refusal a request meets, each stated on the request and the parent with everything checked before it |
| CoreDelegation.DelegationGrantsExactly | eigent-core/src/delegation.ts:68-130 | the child's scope and `can_delegate` are exactly the requested scopes that the parent holds and may delegate, in the order and with the repetitions of the request; its lifetime is the one asked for, by default 1800 seconds, or what the parent had left, whichever is shorter; subject, chain, depth and the inherited claims are given |
| CoreDelegation.DelegationKeepsValidity | eigent-core/src/delegation.ts:60-130 | a child of an accepted token is accepted, in the same trust domain, its chain extended, and outlives it by at most the gap between the two clock readings; what it is granted is stated by `DelegationGrantsExactly` |
| CoreDelegation.DelegationChainsKeepValidity | eigent-core/src/delegation.ts:38-130 | the same for any number of delegations, with the gaps summed, and no tool allowed that the root does not allow |
| Revocation.InMemoryRevocationStore.RevokeWithCascade | eigent-core/src/revocation.ts:55-75 | files exactly the token and every non-empty child under one expiry, leaves every other entry, and lists and counts the children |
| Revocation.InMemoryRevocationStore.Cleanup | eigent-core/src/revocation.ts:84-94 | removes exactly the entries past their expiry and counts them |
| Revocation.RememberedExactly | eigent-core/src/revocation.ts:40-94 | over any later operations on other tokens a revocation is remembered if and only if no cleanup ran at or after its expiry |
| Revocation.EntryCoversExactly | eigent-core/src/revocation.ts:40-94 | a revocation survives every later sequence of operations on other tokens with cleanups before a given time if and only if it is filed for at least as long |
| Revocation.CascadeCoversChildExactly | eigent-core/src/revocation.ts:55-94 | a token delegated over any number of hops, cascaded under the top token's expiry among any children into any store, stays revoked for its own life under every such sequence if and only if it does not outlive the top token; with no clock gaps it never does |
| Glob.TranslationParses | eigent-sidecar/src/policy.ts:46-51 | the translated pattern is ill-formed if and only if a `?` is misplaced; otherwise it is the expression of its characters, a starred dot for each star, with each `?` making the character before it optional or the quantifier before it lazy |
| Glob.ItemsDenote | eigent-sidecar/src/policy.ts:46-51 | that expression accepts exactly the values obtained by filling one-line texts in for the stars and keeping or dropping the marked characters, whatever the value |
| Glob.GlobMatchMeans | eigent-sidecar/src/policy.ts:46-51 | every pattern that does not throw matches exactly those values, but for the single star, which matches everything |
| Glob.GlobMatchIsGlobExactly | eigent-sidecar/src/policy.ts:46-51 | a pattern without `?` is matched as the glob it denotes on every one-line value; a one-line pattern with `?` differs from it on some one-line value |
| Glob.GlobThrowsExactly | eigent-sidecar/src/policy.ts:46-51 | the expression is ill-formed if and only if a `?` leads the pattern, is the third in a row, or is the second after a star |
| Policy.SortRulesSorts | eigent-sidecar/src/policy.ts:76-84 | the sort is by descending priority and a permutation |
| Policy.FirstMatchDecides | eigent-sidecar/src/policy.ts:94-118 | the first of the sorted rules to match or throw is the best such rule: highest priority, earliest in the file |
| Policy.EvaluationIsBestRule | eigent-sidecar/src/policy.ts:94-118 | among the rules that match or throw the one of highest priority, earliest in the file, decides, by its action or by its exception; the default decides exactly if there is none |
| Policy.EvaluationExactly | eigent-sidecar/src/policy.ts:71-194 | on the fields of the rules: of those that meet the call or throw on it the one reached first, by priority with 0 where none is given and then by place in the file, gives its action or leaves nothing; without one the default is taken |
| Policy.VerdictExactly | eigent-sidecar/src/enforcer.ts:72-212 | enforce mode on the token and the evaluation: no tool call passes otherwise than by a token that covers the tool and a rule that lets it be; an uncovered one is denied whatever the rules say; a token-less one is denied, held or thrown on as its rule says |
| Policy.EvaluationThrowsExactly | eigent-sidecar/src/policy.ts:94-194 | evaluation throws if and only if a rule whose test throws is reached no later than the first match |
| Policy.PatternsThrowExactly | eigent-sidecar/src/policy.ts:135-163 | a pattern list throws if and only if a pattern with a misplaced `?` comes before any that matches |
| Policy.PatternsMatchExactly | eigent-sidecar/src/policy.ts:135-163 | a pattern list matches if and only if some pattern does and neither it nor an earlier one has a misplaced `?`, and throws if and only if one has and none before it matches |
| Policy.RuleMatchesExactly | eigent-sidecar/src/policy.ts:126-243 | a rule matches a call if and only if each condition it has holds, on the fields: the tool; a null agent, exactly without a token; agent name and address, only with one; the depth bounds, only with one; day and time; arguments present and accepted |
| Policy.RuleTestMeans | eigent-sidecar/src/policy.ts:126-194 | a rule's test throws if and only if one of its pattern lists or the arguments' expression does and every condition before it holds |
| Policy.WindowLeavesOutExactly | eigent-sidecar/src/policy.ts:208-243 | of an accepted day a window leaves out the minutes from `before` up to and not including `after`, or those on the far side of a single bound |
| Policy.WindowIsIdleExactly | eigent-sidecar/src/policy.ts:208-243 | a window with bounds matches all day if and only if no minute of the day lies between them |
| Policy.ModesAgree | eigent-sidecar/src/enforcer.ts:72-117 | monitor logs exactly what enforce denies or holds and allows exactly what enforce allows; permissive allows everything; the three throw together |
| Policy.PolicyEscalatesExactly | eigent-sidecar/src/enforcer.ts:162-212 | a policy makes enforcement milder if and only if a token-less tool call is decided by an approval rule or makes evaluation throw |
| Policy.EnforceAllowsExactly | eigent-sidecar/src/enforcer.ts:72-117 | under a policy a tool call is allowed if and only if the token covers the tool and the deciding rule, which matches, or the default, lets it through |
| Policy.PolicyEnforcer.EvaluatePolicy | eigent-sidecar/src/policy.ts:94-118 | the scan over the sorted rules returns the specified evaluation: what the first reached of the rules that meet the call or throw on it gives, or the default |
| Policy.PolicyEnforcer.Decide | eigent-sidecar/src/enforcer.ts:72-117 | the decision under the policy in force is the specified one; in enforce mode a token that does not cover the tool is denied, and without a policy the token decides |
| Webhooks.NothingLostOrDuplicated | eigent-registry/src/webhooks.ts:84-132 | under every interleaving each delivery is in exactly one of queue, batch, flight or finished, is sent at most four times and given up only after the fourth; a non-empty queue has its timer armed |
| Webhooks.QuietMeansFinished | eigent-registry/src/webhooks.ts:84-132 | when nothing is queued and every call has ended, everything asked for has been finished once |
| Webhooks.WebhookService.Settle | eigent-registry/src/webhooks.ts:91-101 | an unsuccessful send below three retries queues the next attempt 1, 5 or 25 seconds later and arms the timer; anything else finishes the delivery; nothing else changes |
| Webhooks.WebhookService.Tick | eigent-registry/src/webhooks.ts:108-122 | the new batch is exactly what is due and the queue exactly what is not, both in their order |
| Webhooks.WebhookService.Next | eigent-registry/src/webhooks.ts:124-131 | the batch's next delivery is sent, or the pass ends and stops the timer exactly if nothing waits |
| AuditChain.AuditLog.InsertAuditLog | eigent-registry/src/db.ts:364-381 | appends the row hashed onto the last row in (timestamp, id) order; a used identifier is refused |
| AuditChain.LastRowExactly | eigent-registry/src/db.ts:364-369 | the row that a new one is hashed onto is the hashed one with the latest time, by identifier among equal times, if there is one |
| AuditChain.AuditLog.VerifyAuditChain | eigent-registry/src/audit-integrity.ts:33-70 | the specified verdict: valid exactly if every row recomputes to its own hash; otherwise the reported row does not and every earlier one does |
| AuditChain.BuiltLogIsConsistent | eigent-registry/src/db.ts:347-381 | every log built by insertions verifies |
| AuditChain.OrderedInsertsFormOneList | eigent-registry/src/db.ts:364-381 | insertions in (timestamp, id) order form one list from `genesis` |
| AuditChain.LinkedExactlyInOrder | eigent-registry/src/db.ts:364-381 | for distinct entries, each row in the walk's order names the one before if and only if the insertions came in (timestamp, id) order |
| AuditChain.TamperingIsLocated | eigent-registry/src/audit-integrity.ts:44-67 | changing any covered field of one hashed row makes that row and no other fail to recompute, and the walk reports it |
| AuditChain.DeletionIsInvisible | eigent-registry/src/audit-integrity.ts:33-70 | any sequence of a log's rows, deleted, repeated or moved, is accepted if and only if each row it holds recomputes; so every log that verifies stays valid |
| AuditChain.LinkedExactlyPrefixes | eigent-registry/src/audit-integrity.ts:44-67 | the comparison the walk leaves out: of the sequences of rows of a linked log that verifies, exactly its prefixes are linked |
| AuditChain.RemovalBreaksLinks | eigent-registry/src/audit-integrity.ts:44-67 | removing one row still verifies, and breaks the links if and only if it was not the last |
| AuditChain.DanglingLinkVerifies | eigent-registry/src/audit-integrity.ts:44-67 | of two chained rows the second alone verifies, naming the hash of no row |
| DecisionLog.RotationDropsOldest | eigent-sidecar/src/decision-log.ts:140-164 | rotation loses exactly the highest-numbered file's contents, if there is such a file, and leaves no gap |
| DecisionLog.DecisionLog.Rotate | eigent-sidecar/src/decision-log.ts:140-164 | the renaming loop moves every file up by one and opens an empty current file |
| DecisionLog.DecisionLog.Write | eigent-sidecar/src/decision-log.ts:58-76 | the files, oldest first, are always the end of everything written, and all of it until the last number is used; the current file stays below the limit between writes |

## Left out

- RegistryDb.Registry.Delegate: one atomic step; `RegistryWaits` takes its wait and that of a rotation apart. The wait of `/verify` is covered by `WaitKeepsToken` and the two readings of the clock. Registration reads nothing before its wait that it uses afterwards.
- RegistryDb.Registry.Verify: says nothing about usage records or the chain written into the audit row.
- Scim.Webhook: each cascade reads the clock for its own `revoked_at`; the model uses one reading for the event. Whether the payload passes the schema is given.
- Ndjson.HoldRefinesBatch: requires that what the chunks leave unfinished fits into the buffer; `HoldJudgesPieces` says what happens to every other stream.
- Interceptor.McpInterceptor.HandleClientMessageHold: a failure to write to stdout, to the decision log or to telemetry is not modelled.
- Interceptor.ForwardedCallsAreAuthorised: the token's claims, the arguments and the time are given; validating the token is not part of this model.
- Glob.GlobMatchIsGlobExactly: compares with the glob on one-line values, and one-line patterns with `?`; `GlobMatchMeans` says what every pattern matches on every value.
- CoreDelegation.ValidateDelegationChain: starts from a token whose signature and claims have been accepted.
- Policy.EvaluationIsBestRule: the argument patterns are one given test of the arguments, which may throw, and `HH:MM` texts arrive as minutes.
- Approvals.RequestAndPoll: takes the replies that arrive before the deadline as a list; the interval between polls is not modelled.
- RateLimit.WindowBound: requires `maxRequests >= 1` and a positive window, without which a refusal has no oldest call.
- Webhooks.NothingLostOrDuplicated: runs without `stopRetryTimer`.
- DecisionLog.DecisionLog.Write: requires at least one numbered file and a positive limit, starts with an empty log, and has no I/O errors.
- AuditChain.TamperingIsLocated: the hash is injective, the row encoding is injective JSON text, and a hash contains no brace and is not `genesis`.
- CoreDelegation.DelegationChainsKeepValidity: fresh identifiers contain no slash and no line terminator; token ids and the agent's metadata are not modelled.
- The agent's name, metadata and creation time, organisations, sessions, OIDC and the signing keys.
- Foreign keys and schema constraints other than the primary key and the agent reference of the audit log and the organisation reference of the agents table.
- Usage tracking, notification bodies, HTTP and SSE plumbing, telemetry, configuration and the command line.
- JSON parsing: whether a line is a message, and which, is a parameter.
- Report rendering, posture scoring, dashboards and scanners: sums and set differences with no state.
- The PostgreSQL and SQLite adapters, which delegate to or repeat the modelled operations.
