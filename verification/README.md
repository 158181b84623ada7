# Shadownet: a verified model of its core

Shadownet is an identity and messaging protocol: shadows are named by a domain, a Shadowname or an Ed25519
key; they exchange signed envelopes; issuers hand out revocable credentials; services charge per call. This
project models the parts of the repository that everything else leans on, in Dafny, and proves what they
promise over all inputs, all runs or all interleavings.

Nothing in the model is bounded: texts, numbers, runs and numbers of concurrent requests are arbitrary.
`dafny verify dfyconfig.toml` checks the whole project.

## What is modelled

| module | part of the system |
|---|---|
| `Unicode`, `JsonValue`, `JsonText`, `Jcs`, `JsonGrammar` | RFC 8785 canonical JSON: the recursive Python encoder, the Go encoder that appends to a builder, a parser that inverts both, and the grammar of the text, written independently of them |
| `AgentCard`, `PyAgentCard` | the empty-value normaliser, the signed payload, signing and the signature search; the Python signer, whose bodies may hold tuples |
| `Base58`, `Identifiers` | base58btc by big integers (Python) and by in-place byte arithmetic (Go), multibase keys, the identifier grammar |
| `Idempotency` | the preimage of the issuer's idempotency key |
| `StatusList`, `Epochs`, `EpochStores` | revocation bits, the (epoch, idx) allocator as transactions, and the SQLite and Postgres stores that perform them |
| `Issuer`, `IssuerAnswers` | concurrent issue requests as processes with a program counter, interleaved with each other and with the administrator |
| `Envelope`, `Receiver`, `ReceiverRuns`, `ReplayWindow`, `ReceiverOutcomes`, `ReceiverPipeline` | `msgHash`, the receiver as a function on its stores, theorems over its runs, how much clock leeway they bear, when exactly a request is let in, and the pipeline object with its caches |
| `Paywall` | the x402 challenge and settle protocol, its nonce store and its budgets |
| `Dedup`, `RateLimiter` | the webhook's delivery dedup and the fixed-window limiter |
| `Retry` | the sender's jittered retry loop |

The shape is the same throughout: a method or class in the source's own form is proved equal to a pure
specification (`ensures (Stores(), reply) == SettleStep(…)`), and the theorems are about the specification,
folded over whole runs.

## Where the code does less than its documentation says

Each of these is followed as the code has it, and the exact condition is proved.

- The SQLite store writes 0 for an absent time and reads 0 as absent. An epoch closed at Unix time 0 stays
  open (`Epochs.OnlyHighestIsOpen`, `Epochs.RotatingAtTimeZeroLeavesTwoOpen`), and a last expiry of 0 is
  lost (`Epochs.LastExpiryIsMax`). Postgres has neither problem.
- `_strip_empty` reads lists but not tuples, while the canonicalizer prints both as arrays. A body with a tuple
  that is empty or holds an empty value is signed over bytes no verifier recomputes, so its card fails
  (`PyAgentCard.PySignedVerifiesIff`, `PyAgentCard.EmptyTupleCardFails`).
- Replay protection holds for clock leeways under 150 seconds and fails for every larger one
  (`ReceiverRuns.EnvelopePassesOnce`, `ReplayWindow.ReplayPossible`, `ReplayWindow.ReplaySafeIff`); the default
  leeway is 60.
- The dedup map forgets: it answers as a map that never evicts if and only if no id is redelivered within the
  TTL after 10,000 or more other ids (`Dedup.AnswersAlikeIff`, `Dedup.WaveForgets`).
- The dedup map stops evicting at an empty id, which is falsy; its only caller never passes one
  (`Dedup.EvictionBoundsIff`, `Dedup.EmptyIdDefeatsTheBound`).
- The limiter lets the call that opens a window through unseen, so a limit below 1 still admits one call a
  window; on the other hand a sliding interval admits at most 2·limit − 1 calls, one fewer than two full
  windows (`RateLimiter.SlidingIntervalBound`, `RateLimiter.SlidingBoundIsTight`).
- The retry loop checks none of its parameters. With positive delays and a positive budget it is sure to end
  exactly when the jitter is below 1; `Retry.EndsIffSure` has the condition for every policy.
- A rejected ceremony is documented as final, but `UpdatePendingStatus` changes any status to any other;
  the model allows it, and the theorem is about an approval at some earlier step.

## Assumptions

Signatures, SHA-256, base64url, JWT decoding, DNS, HTTP, credential verification and revocation lookups are
function-valued parameters. Where a theorem needs something of one of them it is a stated precondition on the
values at hand: the two hashed inputs do not collide, a signature made with a key verifies under it (and, for
the failing half of `PyAgentCard.PySignedVerifiesIff`, for no other message), two challenges do not draw the
same nonce. The receiver reads its clock once per call. A store transaction is one atomic step, and one that
fails changes nothing.

## Model

| member | source | states |
|---|---|---|
| `Unicode.KeyOrdersAgree` | python-sdk/src/shadownet/jcs.py:50-60 | on surrogate-free texts, comparing big-endian UTF-16 bytes and comparing 16-bit units order every pair the same way |
| `Unicode.KeyOrderIsStrictTotal` | core/internal/jcs/jcs.go:126-167 | either order is irreflexive, transitive and total on surrogate-free keys, so sorting has one result |
| `Unicode.UnitOrderIsNotCodePointOrder` | core/internal/jcs/jcs.go:151-167 | a concrete pair that unit order and code point order sort differently: the UTF-16 step cannot be left out |
| `Unicode.Utf16Less` | core/internal/jcs/jcs.go:154-167 | the comparison loop decides lexicographic order of the UTF-16 units |
| `Unicode.Utf8Injective` | python-sdk/src/shadownet/jcs.py:24-25 | different texts have different UTF-8 bytes |
| `Unicode.ValidIsScalar` | python-sdk/src/shadownet/jcs.py:73-79 | what text may hold is exactly the Unicode scalar values: nothing else is allowed |
| `Unicode.UnitsDecode` | core/internal/jcs/jcs.go:154-160 | a supplementary character is a high and a low surrogate carrying ten bits each, any other character one unit |
| `Unicode.LexLessIff` | core/internal/jcs/jcs.go:154-167 | the order is decided where two sequences first differ, or by the shorter length |
| `JsonValue.SortedUnique` | core/internal/jcs/jcs.go:126-133 | fields with distinct keys have exactly one sorted arrangement, whichever sort produced it |
| `JsonValue.SortsAgree` | python-sdk/src/shadownet/jcs.py:50-60 | sorting by Python's key and by Go's comparison gives the same fields in the same order |
| `JsonValue.EquivalentIffSameNormalForm` | python-sdk/src/shadownet/jcs.py:28-56 | two values are equal up to field order, at every depth, if and only if their sorted forms are identical |
| `JsonText.QuotedParses` | python-sdk/src/shadownet/jcs.py:63-91 | the escaped string is read back exactly, whatever text follows |
| `JsonText.ParseInvertsPrint` | python-sdk/src/shadownet/jcs.py:28-91 | the parser recovers every accepted value and leaves exactly the delimiter-led text that followed it |
| `JsonText.PrintInjective` | python-sdk/src/shadownet/jcs.py:28-91 | different accepted values have different text |
| `JsonGrammar.SpellsIffPrinted` | python-sdk/src/shadownet/jcs.py:28-91 | the grammar of RFC 8785, written over character literals, has exactly one text for every accepted value, and it is the one printed |
| `JsonGrammar.EncodesIffCanonical` | python-sdk/src/shadownet/jcs.py:28-60 | the encoder returns a text if and only if that is the grammar's text of the value with all keys in increasing UTF-16 order |
| `JsonGrammar.CanonicalBytes` | core/internal/jcs/jcs.go:47-53 | the bytes both canonicalizers return are the UTF-8 of that text, and of no other |
| `Jcs.EncodeStringLoop` | python-sdk/src/shadownet/jcs.py:73-91 | the appending loop yields the quoted form of every valid text and an error for any lone surrogate |
| `Jcs.GoEncodeString` | core/internal/jcs/jcs.go:172-205 | appends exactly the quoted form to the builder, or refuses malformed text |
| `Jcs.GoEncode` | core/internal/jcs/jcs.go:71-107 | succeeds exactly on accepted values and appends the text of their normal form |
| `Jcs.GoEncodeArray` | core/internal/jcs/jcs.go:109-124 | the array loop appends the normal form's text with its separators |
| `Jcs.GoEncodeObject` | core/internal/jcs/jcs.go:126-149 | collecting, sorting and looking up the keys appends the text of the sorted object |
| `Jcs.GoCanonicalize` | core/internal/jcs/jcs.go:47-53 | returns the same bytes, or refuses, exactly as the Python canonicalizer does, for every value whose integers Python will print |
| `Jcs.EncodeIsPrintOfNormalForm` | python-sdk/src/shadownet/jcs.py:28-56 | under either sort key the recursive encoder yields the text of the normal form, and fails exactly on values that are not accepted |
| `Jcs.CanonicalizersAgree` | python-sdk/src/shadownet/jcs.py:24-60 | sorting by units or by bytes makes no difference to the output of any value |
| `Jcs.SameBytesIffEquivalent` | python-sdk/src/shadownet/jcs.py:24-91 | two values have the same canonical bytes if and only if they are equal up to the order fields were inserted in |
| `Jcs.CanonicalTextDecodes` | python-sdk/src/shadownet/jcs.py:28-91 | canonical text followed by anything delimiter-led parses back to an equivalent value and that rest |
| `Jcs.NormalizeIdempotent` | python-sdk/src/shadownet/jcs.py:50-56 | a value in normal form is its own normal form |
| `AgentCard.StripIsTheNormalForm` | core/internal/agentcard/agentcard.go:328-365 | the result is the one and only empty-free value that the input pads; it exists unless everything is empty; stripping again changes nothing |
| `AgentCard.StripIgnoresPadding` | python-sdk/src/shadownet/agentcard.py:428-441 | inserting empty values anywhere in arrays and objects, at any depth, does not change the result |
| `AgentCard.StripRespectsEquivalence` | core/internal/agentcard/agentcard.go:331-365 | values equal up to field order strip to values equal up to field order |
| `AgentCard.PayloadIs` | core/internal/agentcard/agentcard.go:160-168 | the signed bytes are the UTF-8 of the canonical text of the empty-free value that the body pads, and there are none exactly when there is no such value or text |
| `AgentCard.SamePayloadIffEquivalent` | python-sdk/src/shadownet/agentcard.py:421-425 | two bodies have the same signed bytes if and only if they strip to equivalent values |
| `AgentCard.PayloadSurvivesTransport` | core/internal/agentcard/agentcard.go:248-256 | reordering fields and adding empty values leaves the signed bytes alone |
| `AgentCard.StripSignaturesOfSigned` | core/internal/agentcard/agentcard.go:317-326 | removing the signatures of a signed card gives back the body |
| `AgentCard.VerifyEntry` | core/internal/agentcard/agentcard.go:260-307 | accepts an entry exactly when header and kid fit and some candidate key verifies it |
| `AgentCard.VerifyEntries` | core/internal/agentcard/agentcard.go:258-312 | the search accepts exactly when some entry is acceptable |
| `AgentCard.Verify` | core/internal/agentcard/agentcard.go:236-312 | the verdict over the whole card, error paths included |
| `AgentCard.VerifiesIffAttested` | core/internal/agentcard/agentcard.go:236-312 | a card verifies if and only if some entry of its `signatures` has an EdDSA JOSE header with the expected kid and a signature by a candidate key over header, dot and recomputed payload |
| `AgentCard.NoFittingHeaderNoCard` | core/internal/agentcard/agentcard.go:283-294 | a card without an entry whose header reads EdDSA, JOSE and the expected kid never verifies |
| `AgentCard.KidDecides` | core/internal/agentcard/agentcard.go:290-294 | a card signed under one kid verifies under another if and only if they are the same |
| `AgentCard.SignsIff` | core/internal/agentcard/agentcard.go:152-204 | signing succeeds exactly on an unsigned body with a payload, under a kid |
| `AgentCard.SignedCardVerifies` | core/internal/agentcard/agentcard.go:152-312 | every signed card verifies under its signer's key and kid, even after its body was reordered and padded in transport |
| `AgentCard.SignThenVerify` | core/internal/agentcard/agentcard.go:152-312 | every card as signed verifies |
| `PyAgentCard.StripsAgreeIff` | python-sdk/src/shadownet/agentcard.py:428-441 | the Python normaliser gives the value the Go one gives on the wire if and only if no tuple it comes to holds an empty value or is empty |
| `PyAgentCard.PyPayloadIff` | python-sdk/src/shadownet/agentcard.py:588-592 | of a body the Python signer accepts, the signed bytes are those a verifier recomputes if and only if the same holds |
| `PyAgentCard.PySignedVerifiesIff` | python-sdk/src/shadownet/agentcard.py:571-603 | a card the Python SDK signs, of a body signed before or not, verifies in core if and only if the same holds |
| `PyAgentCard.EmptyTupleCardFails` | python-sdk/src/shadownet/agentcard.py:571-603 | the concrete body with an empty tuple that is signed and does not verify |
| `PyAgentCard.SignersAgree` | python-sdk/src/shadownet/agentcard.py:588-603 | both signers turn an unsigned body without such tuples into the same card, or both refuse it |
| `Base58.ConvertRoundTrip` | python-sdk/src/shadownet/crypto/multibase.py:51-73 | converting any digits to another base and back is the identity, leading zeros included |
| `Base58.DecodeInvertsEncode` | core/internal/identifiers/identifiers.go:284-353 | every byte string is decoded from its own text |
| `Base58.EncodeInvertsDecode` | core/internal/identifiers/identifiers.go:284-353 | every text the decoder accepts is the encoding of what it decodes to |
| `Base58.Alphabet` | core/internal/identifiers/identifiers.go:281-282 | the alphabet is the ASCII digits and letters without 0, O, I and l, in increasing order |
| `Base58.PyEncode` | python-sdk/src/shadownet/crypto/multibase.py:51-60 | the big-integer loop computes the specified text |
| `Base58.PyDecode` | python-sdk/src/shadownet/crypto/multibase.py:63-73 | the big-integer loop computes the specified bytes and rejects exactly the texts with a foreign character |
| `Base58.DivideInPlace` | core/internal/identifiers/identifiers.go:297-302 | one pass over the array leaves the quotient by 58 in place and returns the remainder |
| `Base58.DivideOut` | core/internal/identifiers/identifiers.go:294-307 | repeated in-place division ends, and yields the base-58 digits, least significant first |
| `Base58.GoEncode` | core/internal/identifiers/identifiers.go:284-316 | the byte-array encoder returns exactly what the big-integer one does |
| `Base58.MultiplyAdd` | core/internal/identifiers/identifiers.go:336-345 | the carry loop multiplies by 58 and adds the digit, with no superfluous top byte |
| `Base58.GoDecode` | core/internal/identifiers/identifiers.go:318-353 | the byte-array decoder returns, or rejects, exactly as the big-integer one does |
| `Base58.ReverseInPlace` | core/internal/identifiers/identifiers.go:311-314 | the two-index swap loop reverses the array |
| `Identifiers.KeyDigits` | core/internal/identifiers/identifiers.go:240-249 | 34 bytes behind the multicodec have 47 base-58 digits that start 5, 20, 43, for every key |
| `Identifiers.KeyWireForm` | core/internal/identifiers/identifiers.go:240-249 | every 32-byte key encodes to exactly 48 characters that start with z6Mk |
| `Identifiers.KeyRoundTrip` | core/internal/identifiers/identifiers.go:240-275 | a text decodes to a key if and only if it is that key's encoding |
| `Identifiers.ClassifiedHasNoSeparator` | core/internal/identifiers/identifiers.go:62-212 | no accepted domain, Shadowname or key contains U+001F |
| `Identifiers.ClassifiedAs` | core/internal/identifiers/identifiers.go:62-78 | which texts are Shadownames, public keys and domains: each class if and only if the text has that form, spelled out over its characters |
| `Identifiers.DomainIff` | core/internal/identifiers/identifiers.go:168-212 | a domain is 1 to 253 bytes of dot-joined labels of 1 to 63 bytes with inner hyphens only, one trailing dot allowed |
| `Idempotency.PreimageInjective` | core/internal/issuer/idempotency.go:19-37 | equal preimages come from equal issuer and audience and an equivalent request |
| `Idempotency.SameKeyIffSameRequest` | core/internal/issuer/idempotency.go:19-37 | two accepted requests share a key if and only if they agree in iss, aud, kind and org |
| `Idempotency.PreimageIs` | core/internal/issuer/idempotency.go:19-37 | the preimage is issuer, 0x1F, audience, 0x1F and the canonical text of the request; there is none exactly for an empty part or a request that cannot be canonicalized |
| `Idempotency.RequestText` | core/internal/issuer/handler.go:223-227 | the canonical text of the request the handler builds is `{"kind":K,"org":O}` with both quoted |
| `StatusList.SetBitIsExact` | core/internal/status/status.go:80-88 | setting one bit changes that bit and no other |
| `StatusList.BitLayout` | core/internal/status/status.go:71-77 | index 8j + k is bit k of byte j counted from the most significant |
| `StatusList.EmptyRevokesNothing` | python-sdk/src/shadownet/status.py:62-73 | a fresh list covers the size asked for rounded up to whole bytes (8 for none), revokes nothing in range and rejects everything out of range |
| `StatusList.WithRevokedIsExact` | core/internal/status/status.go:71-88 | revoking changes the answer for that index alone |
| `Epochs.RunKeepsInv` | core/internal/issuer/sqlitestore/store.go:418-555 | every run in either store keeps the allocator's invariant: gapless epochs, counters that summarise what was handed out, revocations in range |
| `Epochs.OpeningIs` | core/internal/issuer/sqlitestore/store.go:139-158 | opening leaves a database with an open epoch alone, gives epoch 1 to one without, and fails if 1 is closed |
| `Epochs.FirstEpoch` | core/internal/issuer/sqlitestore/store.go:139-158 | a new database has epoch 1 open, with the cap asked for or 131072 |
| `Epochs.AllocationInRun` | core/internal/issuer/sqlitestore/store.go:498-555 | in every run an allocation succeeds unless the expiry is Go's zero time; it hands out the next index of the highest epoch, or index 0 of a new one when that is exhausted |
| `Epochs.RotationInRun` | core/internal/issuer/sqlitestore/store.go:418-470 | in every run a rotation closes the highest epoch and opens the next with the cap asked for, and touches no other |
| `Epochs.RestartInRun` | core/internal/issuer/sqlitestore/store.go:85-158 | in every run a restart changes the default cap and nothing else |
| `Epochs.NoIndexTwice` | core/internal/issuer/sqlitestore/store.go:498-555 | over every run of allocations, rotations and restarts with changing caps no (epoch, idx) is handed out twice and each lies below its epoch's cap |
| `Epochs.OnlyHighestIsOpen` | core/internal/issuer/sqlitestore/store.go:418-495 | epochs are 1..n without gaps and n is open; it is the only open one if and only if the store is Postgres or no epoch was closed at Unix time 0 |
| `Epochs.RotatingAtTimeZeroLeavesTwoOpen` | core/internal/issuer/sqlitestore/store.go:418-470 | the concrete SQLite run that leaves two epochs open |
| `Epochs.PostgresRecordsMax` | core/pgstore/issuer.go:374-438 | Postgres records the maximum of all expiries |
| `Epochs.SqliteRecords` | core/internal/issuer/sqlitestore/store.go:498-555 | what SQLite's column holds after any expiries |
| `Epochs.LastExpiryIsMax` | core/internal/issuer/sqlitestore/store.go:498-555 | in every run the recorded last expiry is the maximum of the epoch's expiries, with the exact condition for SQLite |
| `Epochs.PositiveExpiriesAreRecorded` | core/internal/issuer/sqlitestore/store.go:498-555 | for expiries after 1970 the record is the maximum in both stores |
| `Epochs.RevokedIffRevokeSucceeded` | core/internal/issuer/sqlitestore/store.go:558-580 | an index is in the table if and only if some earlier revocation of it succeeded |
| `Epochs.RevokedNeverClears` | core/internal/issuer/sqlitestore/store.go:558-580 | whatever follows, a revoked index stays revoked |
| `Epochs.RevocationInRun` | core/internal/issuer/sqlitestore/store.go:558-580 | in every run SetRevoked succeeds if and only if the epoch exists and the index is below its cap, open or closed; the first time stays on record |
| `Epochs.HandedCanBeRevoked` | core/internal/issuer/sqlitestore/store.go:558-580 | any index ever handed out can be revoked, whatever happened since |
| `Epochs.RevocationIsExact` | core/internal/status/status.go:63-77 | end to end: the verifier's bit test on the rendered list is true exactly for revoked indices, padding is zero, every index handed out is in range |
| `EpochStores.SqliteStore.Open` | core/internal/issuer/sqlitestore/store.go:139-158 | opening a database inserts epoch 1 exactly when no epoch is open |
| `EpochStores.SqliteStore.CurrentEpoch` | core/internal/issuer/sqlitestore/store.go:472-495 | returns the highest open epoch, if there is one |
| `EpochStores.SqliteStore.RotateEpoch` | core/internal/issuer/sqlitestore/store.go:418-470 | performs the rotation on the zero-means-absent columns and returns the new epoch, or fails and changes nothing |
| `EpochStores.SqliteStore.AllocateIndex` | core/internal/issuer/sqlitestore/store.go:498-555 | performs the allocation, with the inline roll of a full epoch, or fails and changes nothing |
| `EpochStores.SqliteStore.SetRevoked` | core/internal/issuer/sqlitestore/store.go:558-580 | inserts the revocation once, or refuses an index out of range |
| `EpochStores.SqliteStore.LoadStatusBits` | core/internal/issuer/sqlitestore/store.go:583-611 | renders one bit per index and returns the newest revocation time |
| `EpochStores.PgStore.Open` | core/pgstore/issuer.go:49-67 | the same bootstrap on nullable columns |
| `EpochStores.PgStore.RotateEpoch` | core/pgstore/issuer.go:319-371 | performs the same rotation and returns the new epoch |
| `EpochStores.PgStore.AllocateIndex` | core/pgstore/issuer.go:374-438 | performs the same allocation, keeping the later expiry |
| `EpochStores.PgStore.SetRevoked` | core/pgstore/issuer.go:442-465 | performs the same revocation |
| `EpochStores.PgStore.LoadStatusBits` | core/pgstore/issuer.go:468-500 | renders the same bits |
| `EpochStores.RenderBits` | core/internal/issuer/sqlitestore/store.go:583-611 | whatever order rows come in, bit i is set exactly for a revoked index below the cap |
| `Issuer.AllocationIsFresh` | core/internal/issuer/handler.go:291-339 | an index just allocated was never handed out before |
| `Issuer.ExecutionsAreGood` | core/internal/issuer/handler.go:201-339 | every interleaving keeps the invariant over answers, stored credentials, tokens in flight and parked rows |
| `Issuer.StoredForever` | core/internal/issuer/sqlitestore/store.go:162-198 | a stored credential is never replaced or removed |
| `Issuer.AnswersAgree` | core/internal/issuer/handler.go:233-339 | all 200 answers for one key, at any two moments of any interleaving, carry the token stored for it |
| `Issuer.StoredIndicesUnique` | core/internal/issuer/sqlitestore/store.go:162-198 | no two stored credentials share an (epoch, idx), and each is below its cap |
| `Issuer.StoredOnlyIfApproved` | core/internal/issuer/hooks/queue/queue.go:65-141 | with the queue hook a key has at most one parked row, and a credential only if that row stood approved earlier in the run |
| `IssuerAnswers.LookupAnswers` | core/internal/issuer/handler.go:233-258 | in every execution a stored credential is answered verbatim; without one an authorized request goes to the hook; the rest are problems |
| `IssuerAnswers.QueueAnswers` | core/internal/issuer/hooks/queue/queue.go:74-80 | in every execution an approved row moves its request on to allocation, a rejected one fails it with its reason, a new one leaves it pending |
| `IssuerAnswers.FirstPostParks` | core/internal/issuer/hooks/queue/queue.go:82-114 | a key without a row is parked as new under its handle, and the answer is pending |
| `IssuerAnswers.FailedParkIsProblem` | core/internal/issuer/sqlitestore/store.go:202-228 | a parking that fails or finds the key parked meanwhile is a problem and parks nothing |
| `IssuerAnswers.OracleAnswers` | core/internal/issuer/handler.go:265-288 | any other hook is taken at its word, and one that fails is a problem |
| `IssuerAnswers.AdministrationIsDone` | core/internal/issuer/sqlitestore/store.go:418-580 | revocations, rotations and restarts go to the allocator alone |
| `IssuerAnswers.VerdictIsRecorded` | core/internal/issuer/sqlitestore/store.go:316-333 | the administrator's verdict goes to that row alone |
| `IssuerAnswers.AllocationMints` | core/internal/issuer/handler.go:291-315 | an approved request gets a token with an index never handed out before, recorded for seven days from now |
| `IssuerAnswers.FailedMintIsProblem` | core/internal/issuer/handler.go:294-318 | an index that cannot be allocated or a token that cannot be minted is a problem, and nothing is stored |
| `IssuerAnswers.PutAnswers` | core/internal/issuer/handler.go:319-338 | a clean put stores the token under its key and answers with it |
| `IssuerAnswers.FailedPutRereads` | core/internal/issuer/handler.go:329-337 | a put that fails is followed by a reread, whether or not the row got in |
| `IssuerAnswers.RereadAnswers` | core/internal/issuer/handler.go:331-337 | the reread answers with what is stored, and is a problem otherwise |
| `IssuerAnswers.LoserServesWinner` | core/internal/issuer/handler.go:329-334 | a request that loses the race answers with the winner's token |
| `IssuerAnswers.ApproveThenPost` | core/internal/issuer/handler.go:201-339 | in every execution, once a parked row is approved the next post for its key ends in a fresh, stored credential |
| `Envelope.ComputeMsgHash` | python-sdk/src/shadownet/envelope.py:84-101 | the dictionary filled key by key is hashed as specified; missing metadata is left out, metadata that is not an object is an error |
| `Envelope.CanonicalInputShape` | python-sdk/src/shadownet/envelope.py:84-101 | the hashed object has no key twice and answers for each hashed key as the message does |
| `Envelope.SameMsgHashIff` | python-sdk/src/shadownet/envelope.py:84-101 | two messages have one msgHash if and only if they agree, up to field order, in every hashed field and in metadata without the envelope, unless the hash collides on them |
| `Envelope.MsgHashFixesMessageId` | python-sdk/src/shadownet/envelope.py:84-101 | messages with one msgHash carry one messageId, unless the hash collides on them |
| `Envelope.MsgHashIs` | python-sdk/src/shadownet/envelope.py:84-101 | the hash is of the canonical text of exactly messageId, role, parts, contextId, taskId and the metadata without the envelope, absent fields left out; there is none only for metadata that is no object or a field that cannot be canonicalized |
| `ReceiverRuns.EnvelopePassesOnce` | python-sdk/src/shadownet/receiver.py:242-349 | in every run on a nondecreasing clock with a leeway under 150 s, one envelope passes the replay step at most once, whatever message carries it and however its token is written: no two payloads that pass are equal |
| `ReceiverRuns.ReplayRefusedIff` | python-sdk/src/shadownet/receiver.py:139-149 | in every run a screened request is taken for a replay if and only if one with its sender and messageId passed less than 600 s before |
| `ReplayWindow.SentAgainPassesIff` | python-sdk/src/shadownet/receiver.py:320-327 | in every run a request sent again passes if and only if its envelope is still in its time window and none with its sender and messageId passed within 600 s |
| `ReplayWindow.ReplayPossible` | python-sdk/src/shadownet/receiver.py:139-149 | for every leeway of 150 s or more, every full-lifetime envelope let through at its earliest moment is let through again 600 s later |
| `ReplayWindow.ReplaySafeIff` | python-sdk/src/shadownet/envelope.py:170-177 | over environments that canonicalise, test keys and validate payloads as the code does, also over those whose hash has no collisions, no run replays an envelope if and only if the leeway is under 150 s |
| `ReceiverRuns.RunCacheVouched` | python-sdk/src/shadownet/receiver.py:351-380 | in every run each cached credential was verified and found unrevoked for its sender by an earlier request |
| `ReceiverRuns.ClassifiedByVouchedCredentials` | python-sdk/src/shadownet/receiver.py:351-429 | each credential used for classification was verified and revocation-checked at this or an earlier step; a cached one has more than 60 s left |
| `ReceiverRuns.ContactsChangeOnlyByAutoAdd` | python-sdk/src/shadownet/receiver.py:382-429 | a rejected request never changes the contacts; an accepted one adds at most its sender |
| `ReceiverRuns.AutoAddTracesToOutbound` | python-sdk/src/shadownet/receiver.py:152-175 | over every run an automatic contact traces to an outbound to that peer, recorded within the lookback in the message's own conversation |
| `ReceiverRuns.ContactsHaveOrigins` | python-sdk/src/shadownet/receiver.py:152-175 | in every run the contacts are exactly those added by hand or by such an automatic add and not removed since |
| `ReceiverRuns.AcceptedHasGrounds` | python-sdk/src/shadownet/receiver.py:242-429 | over every run an accepted request is genuine, and the run shows why: same organisation, a contact with an origin and no removal since, an answer to an outbound of its own conversation, or else a trusted credential this run verified |
| `ReceiverOutcomes.ScreenedIffAuthentic` | python-sdk/src/shadownet/receiver.py:242-324 | a request reaches the replay step if and only if its own fields show every claim: envelope declared and found, addressed, in time, signed by the sender's key, hash and messageId right |
| `ReceiverOutcomes.RefusedIff` | python-sdk/src/shadownet/receiver.py:242-324 | how a readable request is refused: for its recipient, its signature, an unhashable message, or its claims, each if and only if |
| `ReceiverOutcomes.RejectedBeforeClassification` | python-sdk/src/shadownet/receiver.py:320-335 | the error of a replay, of a bad credential and of a bad context, in that order |
| `ReceiverOutcomes.CacheAnswersIff` | python-sdk/src/shadownet/receiver.py:178-193 | in every run the cache answers with exactly the credentials an earlier request of that sender presented good, with more than 60 s left and cached less than 30 days ago |
| `ReceiverOutcomes.AdmissionIff` | python-sdk/src/shadownet/receiver.py:382-429 | in every run: into the inbox if and only if same provider, contact added and not removed, or answer to an outbound; to review if and only if not and a trust entry accepts a credential of a kind the policy asks for; otherwise which error |
| `ReceiverOutcomes.AutoAddIff` | python-sdk/src/shadownet/receiver.py:405-413 | in every run a sender becomes a contact by its request if and only if its answer to an outbound is all that makes it known |
| `ReceiverPipeline.InMemoryReplayCache.Seen` | python-sdk/src/shadownet/receiver.py:139-149 | prunes what has expired, then answers whether the pair is remembered |
| `ReceiverPipeline.InMemoryReplayCache.Remember` | python-sdk/src/shadownet/receiver.py:143-144 | remembers the pair until the retention is over |
| `ReceiverPipeline.InMemoryContactGraph.HasRecentOutbound` | python-sdk/src/shadownet/receiver.py:171-175 | answers whether an outbound was recorded within the lookback |
| `ReceiverPipeline.InMemoryCredentialCache.ForSender` | python-sdk/src/shadownet/receiver.py:184-189 | returns the live credentials and writes the live part back |
| `ReceiverPipeline.InMemoryCredentialCache.Cache` | python-sdk/src/shadownet/receiver.py:191-193 | appends to the sender's bucket and leaves the others alone |
| `ReceiverPipeline.SatisfiesPolicy` | python-sdk/src/shadownet/trust.py:98-125 | the early-return loop decides whether some trusted credential has a required kind |
| `ReceiverPipeline.Pipeline.ValidateCreds` | python-sdk/src/shadownet/receiver.py:351-380 | refines the specification on the cache and the result |
| `ReceiverPipeline.Pipeline.Classify` | python-sdk/src/shadownet/receiver.py:382-429 | refines the specification on the outcome and the contacts |
| `ReceiverPipeline.Pipeline.Receive` | python-sdk/src/shadownet/receiver.py:242-349 | the whole call maps the stores and the request to exactly the specified stores and outcome |
| `Paywall.SpendIsSettledAndCapped` | shadownet-x402/src/shadownet_x402/budget.py:28-47 | over every run an identity's spend is the sum of its settled amounts and never exceeds the cap |
| `Paywall.StoredNonceWasIssued` | shadownet-x402/src/shadownet_x402/nonce.py:28-41 | every stored nonce was issued by an earlier challenge to the subject it is bound to, whose credential verified, was not revoked and not denied |
| `Paywall.ChallengeAnswers` | shadownet-x402/src/shadownet_x402/server.py:103-124 | when a challenge is issued, and which status each refusal carries, each if and only if; a refused one changes nothing |
| `Paywall.SettleAnswers` | shadownet-x402/src/shadownet_x402/server.py:126-169 | when a payment settles, and which status each refusal carries, each if and only if; the nonce is gone once looked at, and only a settlement charges |
| `Paywall.SettlementHadChallenge` | shadownet-x402/src/shadownet_x402/server.py:126-169 | each settlement consumes an unexpired nonce that an earlier challenge answered the same subject with; the subject is on the deny-list at neither moment |
| `Paywall.SettlementsUseDistinctNonces` | shadownet-x402/src/shadownet_x402/nonce.py:33-41 | no nonce is settled with twice |
| `Paywall.NonceStore.Issue` | shadownet-x402/src/shadownet_x402/nonce.py:28-31 | stores the nonce with its subject and expiry |
| `Paywall.NonceStore.Consume` | shadownet-x402/src/shadownet_x402/nonce.py:33-41 | succeeds on an unexpired nonce bound to nobody else, and removes it in any case |
| `Paywall.BudgetStore.Reserve` | shadownet-x402/src/shadownet_x402/budget.py:34-38 | checks deny-list and cap, and charges nothing |
| `Paywall.BudgetStore.Record` | shadownet-x402/src/shadownet_x402/budget.py:40-41 | adds the amount to that identity alone |
| `Paywall.Server.Challenge` | shadownet-x402/src/shadownet_x402/server.py:103-124 | maps stores and request to exactly the specified stores and reply |
| `Paywall.Server.Settle` | shadownet-x402/src/shadownet_x402/server.py:126-169 | maps stores and request to exactly the specified stores and reply, the consumed nonce gone on every later failure |
| `Dedup.IdempotencyLru.RecordSeen` | integrations/plugins/openclaw/src/webhook.ts:63-81 | the map and answer after one delivery, eviction loop included |
| `Dedup.RunIsEndOfHistory` | integrations/plugins/openclaw/src/webhook.ts:63-81 | in every run the map is the newest end of what its own log of fresh answers rebuilds, and holds at most 10,000 entries |
| `Dedup.AnswersAsHistory` | integrations/plugins/openclaw/src/webhook.ts:63-81 | in every run a delivery is called a duplicate exactly when its id was answered as fresh less than the TTL ago and fewer than 10,000 other ids were since |
| `Dedup.NeverEvictsAnswers` | integrations/plugins/openclaw/src/webhook.ts:63-81 | the same function without its eviction loop answers by its whole history |
| `Dedup.RunIsEndOfNeverEvicting` | integrations/plugins/openclaw/src/webhook.ts:63-81 | until an id is redelivered within the TTL after 10,000 other ids, both maps log the same deliveries and the bounded one is the newest end of the one that never evicts |
| `Dedup.FirstDisagreement` | integrations/plugins/openclaw/src/webhook.ts:63-81 | the first such redelivery is exactly where the answers first differ: fresh instead of duplicate |
| `Dedup.AnswersAlikeIff` | integrations/plugins/openclaw/src/webhook.ts:63-81 | a run gets the answers of a map that never evicts if and only if it has no such redelivery |
| `Dedup.WaveForgets` | integrations/plugins/openclaw/src/webhook.ts:63-81 | the concrete run: after more than 10,000 different ids the first is taken for fresh again |
| `Dedup.EntriesInTimeOrder` | integrations/plugins/openclaw/src/webhook.ts:63-81 | entries stand in nondecreasing order of first-seen time |
| `Dedup.EvictionBoundsIff` | integrations/plugins/openclaw/src/webhook.ts:75-79 | eviction brings a map of any size back to its bound if and only if no id it has to drop is empty |
| `Dedup.EmptyIdDefeatsTheBound` | integrations/plugins/openclaw/src/webhook.ts:75-79 | after an empty first id the map grows without bound |
| `RateLimiter.ShadownetRateLimiter.Check` | integrations/plugins/openclaw/src/security.ts:49-57 | the counters and the answer after one call |
| `RateLimiter.WindowAdmitsItsQuota` | integrations/plugins/openclaw/src/security.ts:49-57 | a window admits exactly the first `limit` of its calls, and its first in any case |
| `RateLimiter.SlidingIntervalBound` | integrations/plugins/openclaw/src/security.ts:37-61 | on every nondecreasing clock a key is admitted at most 2·limit − 1 times in any half-open interval of one window length |
| `RateLimiter.SlidingBoundIsTight` | integrations/plugins/openclaw/src/security.ts:37-61 | for every limit and window a call sequence reaches that bound |
| `Retry.LoopEnds` | python-sdk/src/shadownet/a2a.py:426-447 | with positive delays and a jitter below 1 the loop ends, in every possible world, within budget / ((1 − jitter)·min(initial, max)) + 2 attempts |
| `Retry.EndsIffSure` | python-sdk/src/shadownet/a2a.py:426-447 | for every policy: the loop ends in all possible worlds if and only if the budget is not positive, or the jitter is below 1, the initial delay positive, and either the cap positive or the shortest first sleep uses the budget up |
| `Retry.StuckForever` | python-sdk/src/shadownet/a2a.py:440-447 | for every other policy there is a world in which it never ends |
| `Retry.SleepStaysWithinBudget` | python-sdk/src/shadownet/a2a.py:440-447 | whatever the policy, the sleep asked for never exceeds the budget |
| `Retry.DelayDoubles` | python-sdk/src/shadownet/a2a.py:444-447 | the delay after n turns is the initial delay doubled n times, capped each time |
| `Retry.CappedDelay` | python-sdk/src/shadownet/a2a.py:444-447 | with a cap that is not negative: the smaller of the cap and the initial delay doubled n times |
| `Retry.SleepAsked` | python-sdk/src/shadownet/a2a.py:444-446 | each sleep asked for is the delay times one plus the draw, not below zero and not beyond the budget |
| `Retry.SendWithRetries` | python-sdk/src/shadownet/a2a.py:426-447 | whenever the loop ends at all it returns at the first turn that ends it, with that attempt's outcome, within the bounds on sleep and attempts |

## Left out

- Ed25519, SHA-256, base64url, gzip, JWT and JSON library internals: parameters only, constrained where a theorem says so.
- JSON numbers: every float and foreign type is one value, `Unsupported`; `json.Number` literals other than plain decimals (`-0`, leading zeros, which Go prints verbatim) are not modelled.
- `Jcs.GoCanonicalize`: Python from 3.11 on refuses to print an integer of more than 4300 digits (a configurable limit of the interpreter), which Go prints; the model's Python encoder prints every integer.
- Go strings that are not UTF-8 and Python strings with lone surrogates are both texts with surrogate code points; dictionaries with keys that are not strings are not modelled.
- The sorts of both libraries are modelled by insertion sort; `JsonValue.SortedUnique` is why that makes no difference.
- Go slices and maps other than `[]any` and `map[string]any`, which `stripEmpty` passes through unread.
- `AgentCard.Scheme`: the payload enters the signing input unencoded, because its base64url text is injective; extension and security-scheme checks of the Python verifier are not modelled.
- `Identifiers.Classify`: the Unicode letter test outside ASCII is a parameter; lower-casing, `Canonical*` and `IsSubdomainOf` are left out, being library case folding.
- Integer widths: `int64`, `uint64` and JavaScript numbers are unbounded integers; times are whole seconds or ticks, except in the paywall and the retry loop, which use real numbers.
- Stores: SQL drivers, locking and retries are left out; a transaction is one step. `ListPending`, `ListOpenEpochs`, `GetEpoch` and the credential list are plain reads.
- `Issuer.Execute`: the handler appears as atomic steps of a state machine, not as one sequential method, because its calls interleave; CSR parsing, response bodies and `CeremonyExpiry`, which `Evaluate` does not enforce, are not modelled.
- `Receiver.Screen`: a failure of `verify_envelope` other than the signature is always a parse error; the code decides by the words of the error message.
- `ReceiverPipeline.Pipeline.Receive`: calls are sequential and read the clock once; the asynchronous pipeline and the other `a*` siblings are left out.
- `Paywall.Server.Settle`: calls come one at a time; between `reserve` and `record` two concurrent calls could both pass.
- `Retry.SendWithRetries`: asks that the loop ends in the given world, because a Dafny method must return; `Retry.EndsIffSure` says for which policies that is certain.
- DNS, HTTP, TLS pinning, URL parsing, MCP, CLI wiring, Algorand settlement, host adapters, the conformance runner and demos: plumbing around the parts above.
