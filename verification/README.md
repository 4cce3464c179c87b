# Identity provider core, modelled and proved in Dafny

A model of the algorithmic core of the Identuum identity provider and machine-checked proofs
of what it promises. `dafny verify dfyconfig.toml` verifies the whole project. Nothing of the
Go program is executed; the proofs are about the model, which follows the code branch by branch.

| Part | Modules |
|---|---|
| At-rest encryption, key rotation | `Primitives`, `AtRestCipher`, `CipherFormats`, `Rotation`, `RotationTool`, `GuardReach`, `RotationProofs`, `RotationOutcome` |
| JSON documents through `float64` | `Binary64`, `ShortestNumeral`, `JsonNumber`, `NumeralDigits`, `NumeralExamples`, `JsonDocument` |
| The at-rest key over boots | `ApplianceKey` |
| Admission gate for password hashing | `HashGate`, `GateAdmission`, `PeakInFlight` |
| Agent communication policies | `StringOrder`, `AgentPolicy`, `AgentAuthorization` |
| Scope and authentication-context algebra | `LlmScopes`, `ScopeNarrowing`, `Acr` |
| Signing keys | `KeyManager` |
| Printers, parsers, normalisers | `Encoding`, `RefreshToken`, `PasswordHash`, `DomainName`, `TextCleaning` |
| Client documents and the pre-upgrade audit | `Client`, `PreupgradeAudit`, `EmailAudit` |
| Shared text laws and outcomes | `Text`, `Wrappers` |

Cryptography is symbolic: AES-GCM is any pair with `open(k, n, seal(k, n, t)) == t`, key ids come
from any 32-byte digest, signatures are any scheme whose signatures verify under the public half,
and argon2id is any function that fills the requested key length. Nonces, salts, random bytes, the
clock and every way the file system or the database can refuse are inputs. Go map iteration is an
arbitrary enumeration, and results are proved for all of them. Concurrency is a step relation over
any number of callers. Code that works by changing state (the cipher service, the rotation, the key
manager, in-place deduplication, the scanners and sweeps) is imperative Dafny proved against
specification functions; the theorems are about those functions.

## Where the code and its documentation part

- The rotation's comment promises that other members of a provider document survive byte for byte
  in meaning (`cmd/identuum-idp/rotate_encryption_key.go:483-485`). Go decodes every number to a
  `float64` and prints the shortest numeral that reads back, so 2^53 + 1 comes back as 2^53
  (`Rotation.LargeNumberChanges`). `Rotation.StoredMembersKeptExactly` says exactly when the promise
  holds, and `JsonNumber.SurvivesExactly` which numerals survive, whole or fractional: numerals are
  counted in steps of 10^-places, for any number of places that holds every float64. Fifteen
  significant digits survive, more than seventeen are lost. Being a binary64 value is neither
  necessary nor sufficient: 2^60 is one and is lost, 10^23 is none and survives. A number out of
  range stops the whole rotation (`RotationProofs.HugeNumberStopsRotation`).
- The schema guard's stated limit is that bare ciphertexts have no recognisable shape
  (`cmd/identuum-idp/rotate_encryption_key.go:291-292`). It misses more: a v1 text with a line end in
  it, which Go's base64 skips, and any v1 text inside a document. `GuardReach.TextReachExactly` and
  `GuardReach.JsonReachExactly` give its exact reach.
- `ACRMax` is "meet both floors" only when no unknown floor is involved in certain positions;
  `Acr.MaxIsBothFloors` gives the exact condition, `Acr.UnknownFloorDropped` an input.
- `resolveAtRestKey` is documented as the precedence the appliance applies at boot, but it also
  consults `AUTH_SERVICE_ENCRYPTION_KEY`, and it reads through a link that the boot refuses.
  `ApplianceKey.CommandLineAgrees` and `ApplianceKey.OneFileTwoReaders` give the exact conditions,
  `ApplianceKey.CompatVariableDiverts` and `ApplianceKey.LinkDivides` an input each.
- A first boot whose write is cut short leaves a shortened key that later boots resolve as persisted.
  `ApplianceKey.AfterACreatingBoot` says exactly when; `ApplianceKey.ResolvedKeysAreGenuine` shows
  that the cipher then refuses it.
- The audit is described as unable to under-report relative to `Client.Validate`. That holds of the
  documents it rebuilds. It does not select `skip_consent`, `dynamically_registered`, `pkce_required`
  and `id_token_signed_response_alg`, so a stored client can fail on those columns alone
  (`PreupgradeAudit.UnderReportsSkipConsent`, `PreupgradeAudit.SilentAuditOfStored`). The
  schema itself constrains the last column (`migrations/0032_client_id_token_alg.sql:21-23`) and
  opting out of PKCE for confidential clients (`migrations/0052_oauth_clients_pkce_required.sql:18-19`),
  but neither `skip_consent` nor an opt-out of a dynamically registered public client.
- The canonical policy is described as independent of participant order. With a repeated role it is
  not: `AgentPolicy.CanonicalFormExactly` says what it depends on, and
  `AgentPolicy.OrderForgottenExactly` that order is forgotten if and only if no two participants of
  one role differ in their set of capabilities. The validator excludes repeated roles.

## Model

| member | source | states |
|---|---|---|
| `AtRestCipher.IssuedStaysReadable` | internal/crypto/crypto.go:124-220 | over every run of key swaps (failed, repeated, back to an earlier key) and encryptions, every ciphertext ever issued decrypts to its plaintext, if distinct keys have distinct ids |
| `AtRestCipher.SwapKeepsExactly` | internal/crypto/crypto.go:124-146 | a swap loses a held key exactly when a different key with the same id displaces it |
| `AtRestCipher.RunTraceable` | internal/crypto/crypto.go:124-172 | the invariant over whole runs: every issued ciphertext was sealed by a key the ring still holds |
| `AtRestCipher.DecryptSealed` | internal/crypto/crypto.go:177-220 | a sealed text is opened by exactly the key its id is looked up to, and fails as unknown key otherwise |
| `AtRestCipher.OrderIrrelevantExactly` | internal/crypto/crypto.go:226-255 | the result for an id-less ciphertext is independent of the order in which the pool is tried if and only if the active key opens it or all pool keys that open it agree |
| `AtRestCipher.TryKeysMeans` | internal/crypto/crypto.go:238-255 | trying keys returns some opener's result, and fails only if none opens, with an error that does not depend on the order |
| `AtRestCipher.CryptoService.New` | internal/crypto/crypto.go:51-60 | a service exists exactly for the texts of 64 hexadecimal digits in either case, with that key active and an empty pool |
| `AtRestCipher.ParseKeyExactly` | internal/crypto/crypto.go:64-73 | a key parses if and only if it is 64 hexadecimal digits, to the bytes they spell; texts that are not hexadecimal and texts of another length are told apart |
| `AtRestCipher.CryptoService.SwapActive` | internal/crypto/crypto.go:124-146 | the new ring, unchanged on a bad key or the same key; the returned ids; the retired key filed under its own id |
| `AtRestCipher.CryptoService.Encrypt` | internal/crypto/crypto.go:150-172 | seals under the active key in the v2 format |
| `AtRestCipher.CryptoService.DecryptUnkeyed` | internal/crypto/crypto.go:226-255 | the loop over candidates computes the first success or the last failure, for the order the map happened to give |
| `AtRestCipher.CryptoService.Decrypt` | internal/crypto/crypto.go:177-186 | routes the three formats |
| `AtRestCipher.KeyId` | internal/crypto/crypto.go:79-82 | sixteen hexadecimal digits that spell the first eight bytes of the digest |
| `CipherFormats.GcmOpenExactly` | internal/crypto/crypto.go:259-281 | opening succeeds exactly when there are twelve bytes of nonce and the cipher accepts the rest |
| `CipherFormats.V2Exactly` | internal/crypto/crypto.go:192-220 | a v2 text opens to a text exactly when the key filed under its id, the active one first, opens its base64 to it |
| `CipherFormats.LegacyReads` | internal/crypto/crypto.go:177-255 | v1 and bare texts sealed under any key of the ring, active or in the pool, are read in both base64 alphabets and in every order of the pool, unless another key of the ring opens them to something else |
| `CipherFormats.LegacyReadsAlone` | internal/crypto/crypto.go:226-255 | for every key, nonce and plaintext, a service with that key alone reads all four id-less spellings |
| `Rotation.RotationKeepsMeaning` | cmd/identuum-idp/rotate_encryption_key.go:458-481 | rotating a value seals it under the new key, and a service with only the new key reads what the two-key service read (a plaintext PEM reads as itself) |
| `Rotation.CurrentReadsAlike` | internal/crypto/crypto.go:192-220 | a value naming the new key reads the same with and without the old key, failures included |
| `Rotation.OneWalk` | internal/crypto/crypto.go:226-255 | the tool's pool admits one order only, so its readings are determined |
| `Rotation.RotateProviderConfig` | cmd/identuum-idp/rotate_encryption_key.go:486-514 | fails exactly on bad JSON, a number out of range or an unreadable sealed field; otherwise changes exactly the stale sealed members of the decoded document, and returns the input text when there is none |
| `Rotation.DocKeepsMeaning` | cmd/identuum-idp/rotate_encryption_key.go:486-514 | every member of the decoded document reads alike afterwards under the new key alone; nothing stale is left |
| `Rotation.StoredMembersKeptExactly` | cmd/identuum-idp/rotate_encryption_key.go:483-514 | every member of the stored document that was not due is unchanged if and only if nothing was stale or each number in it, nested ones included, survives a float64 |
| `Rotation.LargeNumberChanges` | cmd/identuum-idp/rotate_encryption_key.go:483-514 | the failing input: beside a stale secret 2^53 + 1 comes back as 2^53 |
| `Binary64.RoundNearest` | cmd/identuum-idp/rotate_encryption_key.go:487-489 | decoding a number takes it to a nearest binary64 value, subnormal ones included |
| `Binary64.Binary64Form` | cmd/identuum-idp/rotate_encryption_key.go:487-489 | the fixed points of rounding are the significands below 2^53 times a power of two |
| `Binary64.TieToEven` | cmd/identuum-idp/rotate_encryption_key.go:487-489 | halfway between two neighbours decoding takes the even one |
| `NumeralExamples.OverflowIsPowerOfTwo` | cmd/identuum-idp/rotate_encryption_key.go:487-489 | numbers that round to 2^1024 are out of range |
| `NumeralExamples.RangeExactly` | cmd/identuum-idp/rotate_encryption_key.go:487-489 | a number is in range exactly below 2^1024 - 2^970 in magnitude |
| `ShortestNumeral.ShowExactly` | cmd/identuum-idp/rotate_encryption_key.go:509-512 | encoding a number prints the one numeral with the most trailing zeros that reads back, the nearest of several, the even of two |
| `JsonNumber.SurvivesExactly` | cmd/identuum-idp/rotate_encryption_key.go:486-514 | a positive numeral, whole or fractional, survives if and only if it is the shortest numeral of the value it is decoded to |
| `JsonNumber.SignIrrelevant` | cmd/identuum-idp/rotate_encryption_key.go:486-514 | a negative number survives if and only if its magnitude does |
| `NumeralDigits.FifteenDigitsSurvive` | cmd/identuum-idp/rotate_encryption_key.go:486-514 | every numeral of at most fifteen significant digits survives, unless below the normal numbers |
| `NumeralDigits.SeventeenDigitsAtMost` | cmd/identuum-idp/rotate_encryption_key.go:486-514 | every numeral of more than seventeen significant digits is lost |
| `NumeralDigits.WholeSurvives` | cmd/identuum-idp/rotate_encryption_key.go:486-514 | every whole number below 2^53 survives |
| `NumeralExamples.BinaryValueLost` | cmd/identuum-idp/rotate_encryption_key.go:486-514 | 2^60 is a binary64 value and does not survive |
| `NumeralExamples.NonBinaryValueSurvives` | cmd/identuum-idp/rotate_encryption_key.go:486-514 | 10^23 is no binary64 value and survives |
| `JsonDocument.EncodeDecodes` | cmd/identuum-idp/rotate_encryption_key.go:486-514 | a document of float64 values survives encoding and decoding |
| `JsonDocument.NestedNumber` | cmd/identuum-idp/rotate_encryption_key.go:486-514 | numbers are reached at any depth of arrays and objects |
| `RotationTool.RotateFamily` | cmd/identuum-idp/rotate_encryption_key.go:242-279 | one family: succeeds exactly when all selected rows can be rotated and written; rewrites exactly the stale ones; converted plus skipped equals rows read |
| `RotationTool.RotateCore` | cmd/identuum-idp/rotate_encryption_key.go:242-279 | all families: succeeds exactly when every selected row of every family can be rotated; the report tallies each family |
| `RotationTool.RotateDatabase` | cmd/identuum-idp/rotate_encryption_key.go:175-228 | all or nothing: success exactly when nothing obstructs, otherwise the database equals the original |
| `RotationTool.Dispatch` | cmd/identuum-idp/rotate_encryption_key.go:139-237 | rotates towards the key of the new variable and away from the key of the old one; exit code 2 exactly without a URL or two different usable keys, 0 exactly when nothing obstructs (pool, lease, transaction, guard, every row, commit), otherwise 1; any other code than 0 leaves the database untouched |
| `RotationTool.JobFor` | cmd/identuum-idp/rotate_encryption_key.go:145-172 | a rotation starts exactly when both variables hold keys with different ids, from the old variable's key to the new one's |
| `RotationTool.Configure` | cmd/identuum-idp/rotate_encryption_key.go:145-172 | installing the old key and swapping the new one in yields that rotation and the service that reads with either |
| `RotationTool.GuardCandidateColumns` | cmd/identuum-idp/rotate_encryption_key.go:314-326 | comparing dotted names finds exactly the columns outside the families |
| `RotationTool.ProbeUnknownSealedColumns` | cmd/identuum-idp/rotate_encryption_key.go:328-377 | names exactly the unknown columns that hold a sealed-looking value |
| `RotationTool.GuardSeesEverySeal` | cmd/identuum-idp/rotate_encryption_key.go:300-304 | every v2 ciphertext of any key is recognised, in a text column and inside a document |
| `GuardReach.TextReachExactly` | cmd/identuum-idp/rotate_encryption_key.go:281-304 | in a text column a value that some ring reads is recognised if and only if it starts with v2:, or with v1: and has no line end |
| `GuardReach.JsonReachExactly` | cmd/identuum-idp/rotate_encryption_key.go:281-304 | inside a document the pattern matches at a readable text if and only if it starts with v2: |
| `GuardReach.BareValueMissed` | cmd/identuum-idp/rotate_encryption_key.go:291-304 | for every key and plaintext, the bare format is read by the cipher and missed by the guard |
| `GuardReach.WrappedV1Missed` | cmd/identuum-idp/rotate_encryption_key.go:300-304 | so is the v1 format wrapped by a line feed at any place |
| `GuardReach.EmbeddedV1Missed` | cmd/identuum-idp/rotate_encryption_key.go:300-304 | so is the v1 format inside a document |
| `RotationProofs.RotationRetiresOldKey` | cmd/identuum-idp/rotate_encryption_key.go:242-279 | after a successful run every sealed value of every family names the new key and reads, under the new key alone, what the two-key service read before; current values are unchanged |
| `RotationProofs.SecondRunIsIdle` | cmd/identuum-idp/rotate_encryption_key.go:32-37 | convergence: a second run finds nothing stale, cannot be stopped by any write failure and leaves the store identical |
| `RotationProofs.RetiredKeyOpensNoFamilyValue` | cmd/identuum-idp/rotate_encryption_key.go:242-279 | after a successful run the retired key alone opens no value of a text family and no sealed field of a provider document |
| `RotationProofs.WhatTheRetiredKeyStillOpens` | cmd/identuum-idp/rotate_encryption_key.go:281-304 | after exit code 0 a value of an unknown text column that the retired key opens is bare, or v1 with a line end; a text in an unknown document that it opens, spelled without escapes, is no v2 text |
| `RotationProofs.MissedValuesPass` | cmd/identuum-idp/rotate_encryption_key.go:328-377 | one more unknown text column, of values each of which some service reads, stops a run that nothing else stops if and only if one of them is recognisable |
| `RotationProofs.ProviderMembersKeptExactly` | cmd/identuum-idp/rotate_encryption_key.go:242-279 | in every rotated provider row the members that were not due are unchanged if and only if nothing was due or every number survives |
| `RotationProofs.HugeNumberStopsRotation` | cmd/identuum-idp/rotate_encryption_key.go:486-490 | a number out of range in any provider document stops every rotation, stale or not |
| `RotationOutcome.TextRowAfterExit` | cmd/identuum-idp/rotate_encryption_key.go:22-24 | after exit code 0 the new variable's key opens every text value to what both keys together read before (a plaintext PEM to itself), and the old variable's key opens none |
| `RotationOutcome.SealedRowAfterExit` | cmd/identuum-idp/rotate_encryption_key.go:22-24 | a secret sealed under the old variable's key opens under the new one's to the same text, and no longer under the old one's |
| `RotationOutcome.OldSealRotates` | cmd/identuum-idp/rotate_encryption_key.go:458-481 | every value sealed under the old key is rotated to one the new key alone opens to the same text |
| `RotationOutcome.TwoKeysReadLegacy` | internal/crypto/crypto.go:226-255 | the two-key service reads what either key sealed in the id-less formats |
| `RotationOutcome.ForeignSealStops` | cmd/identuum-idp/rotate_encryption_key.go:32-34 | a value naming a key that is neither of the two stops the run |
| `RotationOutcome.PemRotatesExactly` | cmd/identuum-idp/rotate_encryption_key.go:458-481 | a plaintext PEM is rotated exactly where it is allowed, and reads as itself afterwards |
| `RotationOutcome.FamilyFlags` | cmd/identuum-idp/rotate_encryption_key.go:94-133 | only signing keys may be PEM, only provider rows hold a document |
| `RotationOutcome.BothFieldsResealed` | cmd/identuum-idp/rotate_encryption_key.go:491-505 | both sealed fields of a provider document name the new key afterwards and read alike |
| `ApplianceKey.Appliance.ResolveEncryptionKey` | internal/appliance/appliance.go:173-235 | the new file, configuration and result of one boot under every fault; an existing file is never replaced; a failed boot leaves the configuration alone |
| `ApplianceKey.BootSucceedsExactly` | internal/appliance/appliance.go:173-235 | a boot comes up exactly with an operator key, a readable key, or an empty path on which every step of making one succeeds, ownership and mode included |
| `ApplianceKey.OneKeyPerVolume` | internal/appliance/appliance.go:173-235 | over every run of boots, failed and operator-key ones included, all successes without an operator key resolve one key and only the first can have generated it |
| `ApplianceKey.OperatorBootsLeaveNoTrace` | internal/appliance/appliance.go:174-177 | striking operator-key boots from any run ends with the same file |
| `ApplianceKey.ResolvedKeysAreGenuine` | internal/appliance/appliance.go:205-220 | on a fresh volume every resolved key was generated by one of the boots; the cipher accepts it exactly when it is whole, and then as those very bytes |
| `ApplianceKey.AfterACreatingBoot` | internal/appliance/appliance.go:211-234 | what the next boot resolves after a first boot that failed midway: the whole key exactly when write and close were whole, a refusal on an empty file, the cut text otherwise |
| `ApplianceKey.KeyLasts` | internal/appliance/appliance.go:186-199 | the key of any success stays in the file to the end of the run |
| `ApplianceKey.CommandLineAgrees` | cmd/identuum-idp/bootstrap.go:84-101 | after any run the command line resolves the boot's key exactly when the compatibility variable is unset, equal, or shadowed by the operator's |
| `ApplianceKey.OneFileTwoReaders` | cmd/identuum-idp/bootstrap.go:84-101 | with both variables unset, boot and command line take the same persisted key exactly on regular files |
| `ApplianceKey.CompatVariableDiverts` | cmd/identuum-idp/bootstrap.go:88-90 | an input on which boot and command line resolve different keys |
| `ApplianceKey.LinkDivides` | internal/appliance/appliance.go:183-185 | an input the command line reads and the boot refuses |
| `ApplianceKey.KeyPathExactly` | cmd/identuum-idp/bootstrap.go:91-95 | the command line looks under the configured directory, or the default |
| `HashGate.GateBounds` | internal/crypto/hash_gate.go:31-60 | for every interleaving running <= in flight <= slots <= capacity and peak <= capacity, resets included; the peak covers the count unless some call is between its two assignments; one mutex holder |
| `PeakInFlight.PeakIsHighWater` | internal/crypto/hash_gate.go:31-60 | after any run, unless some call is between its two assignments, the peak is the largest number in flight since the last reset, or since the start |
| `HashGate.CancelledNeverRan` | internal/crypto/hash_gate.go:31-48 | a call that leaves through its context never ran its function; one that returned did |
| `HashGate.AllOverAllFree` | internal/crypto/hash_gate.go:31-48 | when all calls are over, all slots are free and nothing is in flight |
| `HashGate.NeverStuck` | internal/crypto/hash_gate.go:31-60 | no reachable state with an unfinished call is deadlocked |
| `GateAdmission.AdvancesExactly` | internal/crypto/hash_gate.go:31-48 | in every reachable state a waiting call is admitted exactly when fewer than the capacity hold a slot, entering and leaving need only the mutex, and nothing else blocks |
| `GateAdmission.OthersExactly` | internal/crypto/hash_gate.go:32-60 | a waiting call, and only that, can leave through its context; a free mutex can be taken by the reader and the resetter of the peak |
| `GateAdmission.CapacityIsReached` | internal/crypto/hash_gate.go:31-48 | some run has the whole capacity running at once |
| `HashGate.CallIsBounded` | internal/crypto/hash_gate.go:31-48 | in any run a call takes at most ten steps of its own, exactly ten when it returns |
| `HashGate.RunKeepsInv` | internal/crypto/hash_gate.go:31-60 | the invariant behind these holds in every reachable state |
| `HashGate.Capacity` | internal/crypto/hash_gate.go:25-27 | the processor count between 2 and 8, 2 below and 8 above |
| `AgentPolicy.CanonicalizeCapabilities` | internal/domain/agent_communication_authorization.go:85-101 | fails exactly on an unlisted capability; otherwise the hash-set-then-sort result equals sort-then-drop-adjacent |
| `AgentPolicy.DedupInPlace` | internal/domain/agent_communication_authorization.go:287-304 | deduplicating into the array being read drops exactly the adjacent repetitions |
| `AgentPolicy.BuildCanonical` | internal/domain/agent_communication_authorization.go:280-306 | the imperative canonicaliser computes the canonical form |
| `AgentPolicy.CanonicalFormMeans` | internal/domain/agent_communication_authorization.go:280-306 | for every policy: roles in order, strictly if distinct, capability lists strictly increasing, the same grants |
| `AgentPolicy.CanonicalFormExactly` | internal/domain/agent_communication_authorization.go:280-309 | any two policies have one canonical form if and only if version, limits and, for each role, the sequences of canonical capability lists agree |
| `AgentPolicy.OrderForgottenExactly` | internal/domain/agent_communication_authorization.go:280-309 | reordering participants never changes the form if and only if no two participants of one role differ in their set of capabilities |
| `AgentPolicy.CanonicalFormIdentifies` | internal/domain/agent_communication_authorization.go:280-309 | with distinct roles, two policies have one canonical form if and only if version, limits and each role's set of capabilities agree |
| `AgentPolicy.CanonicalFormIdempotent` | internal/domain/agent_communication_authorization.go:280-306 | canonicalising twice is canonicalising once, distinct roles or not |
| `AgentPolicy.RepeatedRoleBreaksIdentity` | internal/domain/agent_communication_authorization.go:280-306 | a pair of policies with a repeated role that grant the same and differ in form |
| `StringOrder.CanonicalMeans` | internal/domain/agent_communication_authorization.go:287-304 | sort then drop-adjacent gives the strictly increasing list of the distinct values |
| `StringOrder.CanonicalIdentifiesSets` | internal/domain/agent_communication_authorization.go:85-101 | two lists have one canonical list if and only if they have the same elements |
| `StringOrder.LtExactly` | internal/domain/agent_communication_authorization.go:287-304 | the order is byte order: decided by the first difference, a prefix first |
| `AgentAuthorization.Validate` | internal/domain/agent_communication_authorization.go:445-556 | the one-pass validator with five sets accepts exactly the well-formed aggregates |
| `AgentAuthorization.CheckHeader` | internal/domain/agent_communication_authorization.go:445-486 | the checks before the participants accept exactly the stated header |
| `AgentAuthorization.HeaderFields` | internal/domain/agent_communication_authorization.go:445-486 | the header conditions, field by field |
| `AgentAuthorization.ParticipantFields` | internal/domain/agent_communication_authorization.go:487-524 | the conditions on one participant, field by field |
| `AgentAuthorization.PairFields` | internal/domain/agent_communication_authorization.go:487-546 | two participants are accepted exactly when each is fine and they differ in all five identities |
| `AgentAuthorization.DigestMeans` | internal/domain/agent_communication_authorization.go:255-324 | the digest is taken of a policy with the authorization's version and limits and, for each role, exactly the sets its participants hold |
| `AgentAuthorization.SamePolicyExactly` | internal/domain/agent_communication_authorization.go:255-324 | two authorizations with distinct roles have one such policy if and only if version, limits and each role's set agree |
| `AgentAuthorization.V7Exactly` | internal/domain/agent_communication_authorization.go:427-435 | version 7 is the thirteenth hexadecimal digit of the printed identifier |
| `AgentAuthorization.CheckParticipants` | internal/domain/agent_communication_authorization.go:486-546 | accepts exactly when every participant is fine and all are pairwise apart in all five identities |
| `AgentAuthorization.TwoSides` | internal/domain/agent_communication_authorization.go:445-556 | an accepted aggregate has exactly one initiator and one responder and nobody else |
| `AgentAuthorization.FindParticipant` | internal/domain/agent_communication_authorization.go:224-231 | the first participant with the role, none exactly when there is none |
| `AgentAuthorization.RowOrderIrrelevant` | internal/domain/agent_communication_authorization.go:312-324 | swapping the two rows never changes the verdict, and leaves the canonical policy alone exactly when the roles differ or grant the same set |
| `LlmScopes.AcceptedExactly` | internal/domain/scopes.go:338-376 | the validator accepts exactly the spellings of proper scopes |
| `LlmScopes.MatchesMeansCovers` | internal/domain/scopes.go:393-412 | the matcher on spelled scopes is coverage, both ways |
| `LlmScopes.MatchingIsPartialOrder` | internal/domain/scopes.go:393-412 | on accepted scopes matching is reflexive, antisymmetric and transitive, the global wildcard is above exactly the family, and outside the family matching is equality |
| `LlmScopes.NoReachBeyondProvider` | internal/domain/scopes.go:393-412 | no token scope, validated or not, reaches a member of the family except itself, its provider's wildcard or the global one |
| `ScopeNarrowing.KeepScopes` | internal/domain/scopes.go:513-534 | the loop computes the narrowing to the union of its two lists |
| `ScopeNarrowing.NarrowComposes` | internal/domain/scopes.go:513-534 | narrowing to A and then to B gives the same string as narrowing to their intersection |
| `ScopeNarrowing.KeepInOrder` | internal/domain/scopes.go:513-534 | kept tokens stand in the order of their first occurrences |
| `ScopeNarrowing.AdminPermitted` | internal/domain/scopes.go:434-486 | an organisation admin is permitted exactly the two published lists |
| `ScopeNarrowing.OthersPermitted` | internal/domain/scopes.go:449-486 | every other role is permitted the identity scopes only |
| `ScopeNarrowing.NarrowedTokenMeans` | internal/domain/scopes.go:480-509 | a scope survives consent, role and a live set if and only if it was consented and is an identity scope, or an admin scope of an admin that is live |
| `ScopeNarrowing.NarrowingSettles` | internal/domain/scopes.go:496-509 | repeating a narrowing changes nothing and live sets commute |
| `Acr.MaxIsBothFloors` | auth/acr.go:78-105 | meeting the higher floor equals meeting both, exactly when no unknown floor is dropped |
| `Acr.UnknownFloorDropped` | auth/acr.go:98-105 | an input on which an unknown floor is dropped |
| `Acr.MaxOfValidFloors` | auth/acr.go:78-105 | in particular for floors that are known or empty |
| `Acr.LadderExactly` | auth/acr.go:45-88 | on the ladder a rung meets exactly the floors at or below it |
| `Acr.OffTheLadder` | auth/acr.go:70-88 | no floor is met by everything, an unknown floor by nothing, and an unknown value meets no floor |
| `Acr.Fields` | auth/acr_login.go:87-106 | the hand-written splitter computes the fields |
| `Acr.SplitterFindsMaximalRuns` | auth/acr_login.go:87-106 | those fields are exactly the maximal runs free of space and tab, in order |
| `Acr.LowestRequestedRung` | auth/acr_login.go:53-66 | finds a lowest known rung exactly when one was requested |
| `Acr.RequestSatisfiedBy` | auth/acr_login.go:71-83 | satisfied exactly when nothing known was requested or some known request is met |
| `Acr.SatisfiedExactlyByLowest` | auth/acr_login.go:53-83 | which is exactly meeting the floor of the lowest requested rung |
| `Acr.ToLower` | auth/acr.go:180-190 | lower-cases the ASCII letters and nothing else |
| `Acr.ContainsAscii` | auth/acr.go:192-212 | the nested loop finds a substring exactly when there is one |
| `Acr.MapUpstream` | auth/acr.go:153-175 | always a known rung; known rungs map to themselves; when the default is assumed and when the top rung is reached, exactly |
| `KeyManager.LoadMeans` | auth/keymanager.go:51-106 | loading succeeds exactly when some active key can sign; the primary is such a key under its own kid, EdDSA whenever there is one |
| `KeyManager.LastActiveMeans` | auth/keymanager.go:62-97 | the last parseable active row of an algorithm wins |
| `KeyManager.KeysOfExactly` | auth/keymanager.go:62-85 | with distinct kids the map holds exactly the parseable rows |
| `KeyManager.ParsedKeyMeans` | auth/keymanager.go:218-297 | signing keys parse exactly with their private half and carry its public half, RS256 with the public half only, nothing else |
| `KeyManager.PrimaryStaysSound` | auth/keymanager.go:109-120 | over every run of reloads and signings the primary can sign and is found under its kid |
| `KeyManager.SignatureVerifiesExactly` | auth/keymanager.go:109-205 | after any run of reloads and signings a signature verifies if and only if the last list loaded since it was issued keeps its key, whatever became of other keys |
| `KeyManager.SignaturesOutliveReloads` | auth/keymanager.go:109-205 | a signature still verifies while each list loaded since keeps its own key |
| `KeyManager.Manager.New` | auth/keymanager.go:51-106 | the loop computes the loaded state or fails |
| `KeyManager.Manager.Reload` | auth/keymanager.go:109-120 | all or nothing |
| `KeyManager.Manager.SignBytes` | auth/keymanager.go:137-166 | signs with the primary, and what it signs verifies |
| `KeyManager.Manager.VerifyBytes` | auth/keymanager.go:175-205 | accepts exactly when the kid is loaded with a signing algorithm and the scheme accepts, so any loaded key its own signatures; each of the three refusals exactly when it holds |
| `RefreshToken.TokenRoundTrip` | internal/domain/auth_tokens.go:34-60 | parsing the printed token returns it, for validators of every length; exactly one dot |
| `RefreshToken.UuidRoundTrip` | internal/domain/auth_tokens.go:34-50 | the dashed spelling of a selector (section 4 of RFC 9562) reads back |
| `RefreshToken.UuidSpellings` | internal/domain/auth_tokens.go:46-50 | a selector is read exactly from its dashed, URN, wrapped or undashed spelling, in either letter case |
| `RefreshToken.AcceptedExactly` | internal/domain/auth_tokens.go:40-60 | the accepted tokens: one dot, such a spelling before it, after it the base64 of the validator up to line ends and unused bits |
| `Encoding.Base64RoundTrip` | internal/domain/auth_tokens.go:34-60 | base64 of either alphabet, padded or not (sections 4 and 5 of RFC 4648), decodes to the bytes encoded |
| `Encoding.DecodeExactly` | internal/domain/auth_tokens.go:52-55 | a text decodes to given bytes if and only if, line ends apart, it is their encoding up to the unused low bits of the last symbol |
| `Encoding.Base64Alphabet` | internal/domain/auth_tokens.go:34-37 | the symbols are those of sections 4 and 5 of RFC 4648 |
| `Encoding.HexAlphabet` | internal/crypto/crypto.go:79-82 | digits are printed in lower case |
| `PasswordHash.PhcRoundTrip` | internal/crypto/password.go:31-131 | every hash with affordable cost survives printing, splitting, scanning and the bounds |
| `PasswordHash.AcceptedExactly` | internal/crypto/password.go:71-131 | exactly the accepted texts: six parts, version and cost numbers after optional blanks with any text behind them, salt and digest in base64 up to line ends and unused bits, cost within the ceilings |
| `PasswordHash.GeneratedHashAccepts` | internal/crypto/password.go:31-153 | a generated hash accepts its password and exactly those that derive the same key |
| `PasswordHash.GeneratedHead` | internal/crypto/password.go:31-49 | every generated hash starts with the scheme, version 19 and the default cost, spelled out |
| `PasswordHash.DummyReachesComparison` | internal/crypto/password.go:54-59 | the dummy hash parses at full cost and reaches the digest comparison for every password |
| `PasswordHash.CompareExactly` | internal/crypto/password.go:71-153 | any affordable hash accepts exactly the passwords that derive its digest from its salt at its own cost |
| `DomainName.ValidateFormat` | internal/domain/organization_domain.go:310-369 | accepts exactly the inputs whose normal form is two or more good labels joined by dots |
| `DomainName.WellFormedBySplit` | internal/domain/organization_domain.go:310-369 | the grammar stated by joining labels agrees with splitting |
| `DomainName.LdhExactly` | internal/domain/organization_domain.go:344-358 | labels are made of lower-case letters, digits and hyphens |
| `DomainName.LabelExactly` | internal/domain/organization_domain.go:330-354 | a label has 1 to 63 such characters and no hyphen at an end |
| `DomainName.WellFormedIsNormal` | internal/domain/organization_domain.go:126-129 | a well-formed name is its own normal form |
| `DomainName.NormalFormIsFixed` | internal/domain/organization_domain.go:126-129 | for accepted inputs normalising is idempotent, stays accepted, and rejoins its labels |
| `DomainName.RootDotForgotten` | internal/domain/organization_domain.go:126-129 | the trailing root dot does not distinguish inputs |
| `DomainName.SpellingsNormalise` | internal/domain/organization_domain.go:126-129 | white space around, capitals within and a root dot behind a well-formed name all normalise to it |
| `TextCleaning.SanitizeString` | tools/tools.go:111-131 | both collapse loops end and the result is the input's tokens joined by single spaces |
| `TextCleaning.SanitizedIsClean` | tools/tools.go:111-131 | no tab, CR, LF, doubled or outer space; a fixed point |
| `TextCleaning.SlugIsJoin` | tools/tools.go:23-27 | a slug is the alphanumeric runs of the lower-cased input joined by hyphens |
| `TextCleaning.IsValidSlug` | tools/tools.go:30-49 | the scan accepts exactly the declared shape |
| `TextCleaning.GeneratedSlugValid` | tools/tools.go:23-49 | a generated slug is valid exactly when its length is 1 to 63 |
| `TextCleaning.ValidSlugIsFixed` | tools/tools.go:23-49 | generation is the identity on valid slugs |
| `Client.ValidExactly` | internal/domain/client.go:412-519 | the validator's decision tree accepts exactly the declared shapes of public and confidential clients |
| `PreupgradeAudit.EvaluateClients` | cmd/identuum-idp/audit_preupgrade.go:183-247 | the sweep's counters are the numbers of rows of each shape |
| `PreupgradeAudit.NonZero` | cmd/identuum-idp/audit_preupgrade.go:324-332 | keeps exactly the positive findings, in order |
| `PreupgradeAudit.ShapeOfRefusal` | cmd/identuum-idp/audit_preupgrade.go:187-208 | the named shapes are the refusals they are named after |
| `PreupgradeAudit.ShapesApart` | cmd/identuum-idp/audit_preupgrade.go:187-208 | what each named shape asks of a row |
| `PreupgradeAudit.AuditCannotUnderReport` | cmd/identuum-idp/audit_preupgrade.go:183-247 | silent if and only if every rebuilt document passes the validator and every key address is https after trimming |
| `PreupgradeAudit.SilenceIsValidity` | cmd/identuum-idp/audit_preupgrade.go:183-247 | with a URL parser for which trimming keeps https, silence is exactly validity |
| `PreupgradeAudit.StoredAgainstRebuilt` | cmd/identuum-idp/audit_preupgrade.go:210-225 | a stored document is valid if and only if its rebuilt one is and the unselected columns fit |
| `PreupgradeAudit.SilentAuditOfStored` | cmd/identuum-idp/audit_preupgrade.go:183-247 | after a silent audit updates can fail exactly on the unselected columns |
| `PreupgradeAudit.UnderReportsSkipConsent` | cmd/identuum-idp/audit_preupgrade.go:183-247 | a stored client the audit is silent about and the validator refuses |
| `EmailAudit.EvaluateEmailDuplicates` | cmd/identuum-idp/audit_preupgrade.go:153-179 | the grouping loops print one line per shared address, in order of first appearance, with the ids in row order |
| `EmailAudit.OneLinePerSharedAddress` | cmd/identuum-idp/audit_preupgrade.go:153-179 | as many lines as addresses with two or more rows |
| `EmailAudit.SharedMeansTwoRows` | cmd/identuum-idp/audit_preupgrade.go:153-179 | an address counts as shared exactly when two rows have it |
| `EmailAudit.SilentWhenDistinct` | cmd/identuum-idp/audit_preupgrade.go:153-179 | nothing is reported if and only if all addresses are distinct |
| `EmailAudit.LineOfTwo` | cmd/identuum-idp/audit_preupgrade.go:165-176 | the line of two accounts, spelled out |
| `EmailAudit.AddressesNeverShown` | cmd/identuum-idp/audit_preupgrade.go:150-152 | the report is the same under any injective renaming of the addresses: it never shows one |

## Left out

- HTTP handlers, middleware, logging, metrics: behaviour of frameworks.
- Postgres access, SQL text, the instance lease protocol, signals and printed messages: only which step refuses, and commit or rollback, is modelled.
- Failures of the random source and of cipher construction inside `Encrypt`: a nonce is an input.
- JSON text: parsing to a document and spelling one are abstract, and so are escapes.
- Key files and PEM blocks: parsing is abstract, with success or failure.
- Unicode: white space and case mapping are ASCII, or any functions that agree with ASCII there, one character at a time.
- `url.Parse`, audience normalisation and address syntax: abstract functions.
- The file system's check-to-open race on the key file and lexical cleaning of its path.
- The order of the agent validator's header errors and all error texts: refusals are classes.
- Cancellation inside the password functions: the gate models it on its own.
- Status and expiry predicates, sessions, MFA and lease lifecycles, token claims: field comparisons or code outside the core.
- The audit's other sweeps (organizations, service accounts, roles, resources, templates): each counts the rows failing one field's validator.
- The doctor's key-id census and the recover, reset and bootstrap commands: sequencing and printing.
