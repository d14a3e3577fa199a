# Verified model of the cogno chain

A Dafny model of the parts of the cogno chain that every node, or every operator, has to get right, with proofs of
what those parts are for. `dafny verify dfyconfig.toml` checks it.

- **The Cardano observation.** Each node reduces its own db-sync rows to an observation that must be the same on every
  node. `Text`, `Vault`, `VaultFields`, `VaultQuery`, `Commitment`, `Scale`, `Ledger`, `Roles`, `RoleFields`,
  `RoleReduction`, `RoleLaws`, `CommitteeSql`, `CommitteeView` and `Observation` model the vault fold, its commitment,
  the role reduction, the SQL filters in front of them, each node's own db-sync tables and the service around them.
  The main result is `Observation.TwoNodesAgree`, on top of `Ledger.ViewTellsTheLedger`,
  `RoleReduction.ReduceRoleObservation`, `RoleFields.RoleSetMeaning`, `RoleLaws.RolesOrderFree` and
  `CommitteeView.AnswersAgree`.
- **Calidus registrations.** `Cbor`, `CborTable`, `Calidus`, `CalidusReader`, `CalidusMeaning` and `CalidusLaws` model
  the strict CBOR reader and the CIP-0151 verifier as mutable-cursor methods, proved against a functional parser,
  which is proved sound and complete for the item grammar. Main results: `Cbor.SkipIsGrammar`, `Cbor.PrefixFree`,
  `CalidusLaws.VerifyExact`, `CalidusLaws.RegistrationRoundTrip`, `CalidusLaws.SigStructureInjective`.
- **People reads.** `People` and `Enrichment` model the paged searches over whole runs of cursors, and the memoised
  author enrichment. Main results: `People.EveryMatchOnce`, `People.TopOfUnionIsTopOfAll`,
  `Enrichment.EnrichAuthorProfiles`.
- **Governance.** `Governance` models the committee's membership guards as a state machine; `Motion` models the driver
  against an endpoint that may answer anything. Main results: `Governance.NeverBricks`, `Motion.ViaCommittee`.
- **Author tally.** `Authors` models the window search and the session-cached count. Main result:
  `Authors.TallyIsUncached`.

`Prelude` and `Ordering` hold shared helpers. Hashes and signatures are function-valued parameters (`Calidus.Crypto`,
the `blake` argument in `Motion`), so every statement holds for any hash and any signature scheme.

## What turned out false

- **Narrowing the committee query.** The SQL narrows certificates by `committee_hash` row, the reduction works by
  bytes, and a key hash and a script hash may share their bytes. `CommitteeSql.TwinsDisagree` gives a database on which
  the narrowed read badges another hot key than the full read. `CommitteeSql.SeatExact` says, from the certificates
  alone, exactly when a seat's hot key is unchanged, and `CommitteeSql.NarrowingExact` says it for all seats at once.
  The other half of the narrowing, one newest certificate per row, never changes anything
  (`CommitteeSql.DistinctOnKeepsBadges`).
- **Unresolved spends.** The spentness clause reads a spend whose slot the join cannot resolve as no spend. That moves
  a node's entries exactly when such an output tops what the chain really locks under its beacon
  (`Ledger.UnresolvedExact`).
- **The label wrapper.** Wrapping is transparent except around a value that is itself wrapped
  (`CalidusLaws.DoubleWrapperFails`, `CalidusLaws.WrapperExact`).
- **Nonce ties.** A pool whose top nonce is held by different keys gets the key that comes first, so registration order
  matters exactly then (`RoleLaws.OrderFreeIffNoTie`).
- **Two enrichments.** The memoised form keeps a stale field where a read comes back empty; the plain form clears it
  (`Enrichment.AgreeIff`, `Enrichment.StaleNameSurvives`).
- **The threshold.** Its 32-bit cast makes it too small from a committee of about 7.2 billion on
  (`Governance.ThresholdIsLeast`, with an input in `Governance.ThresholdWraps`).

Where code and comments differ the code is followed: the Calidus key in a payload must be a 32-byte byte string
(cogno-dbsync/src/calidus.rs:424-432), where the file's header comment shows hex text
(cogno-dbsync/src/calidus.rs:29).

## Model

| member | source | states |
|---|---|---|
| `Cbor.ReadHeadComplete` | cogno-dbsync/src/calidus.rs:122-166 | a printed head (major type, shortest big-endian argument) is read back exactly, wherever it stands |
| `Cbor.ReadHeadSound` | cogno-dbsync/src/calidus.rs:122-166 | whatever head is accepted is the one shortest printed form: non-minimal and indefinite arguments never pass |
| `Cbor.BigEndianRoundTrip` | cogno-dbsync/src/calidus.rs:135-162 | big-endian decoding inverts encoding |
| `Cbor.FromBigEndianRoundTrip` | cogno-dbsync/src/calidus.rs:135-162 | big-endian encoding inverts decoding, and the value fits the width |
| `Cbor.HeadBytes` | cogno-dbsync/src/calidus.rs:122-166 | every head: the major type times 32 plus the argument, or plus 24 to 27 and then the argument in 1, 2, 4 or 8 bytes, each just where no shorter form fits |
| `Cbor.BigEndianBytes` | cogno-dbsync/src/calidus.rs:135-162 | the argument bytes one by one, most significant first |
| `Cbor.ItemHeads` | cogno-dbsync/src/calidus.rs:122-225 | which of the eight major types each item is printed with, and what its argument counts |
| `Cbor.ParseComplete` | cogno-dbsync/src/calidus.rs:203-225 | completeness: every valid item, printed anywhere in a buffer, is consumed whole and returned |
| `Cbor.ParseSound` | cogno-dbsync/src/calidus.rs:203-225 | soundness: the bytes consumed are the printed form of a valid definite-length, minimal-argument item |
| `Cbor.SkipIsGrammar` | cogno-dbsync/src/calidus.rs:203-225 | skipping goes from `pos` to `end` if and only if `buf[pos..end]` is one printed item |
| `Cbor.PrefixFree` | cogno-dbsync/src/calidus.rs:203-225 | items are prefix-free and uniquely decodable, so the end of a skip is unique |
| `Cbor.ParseItem` | cogno-dbsync/src/calidus.rs:203-225 | every success consumes at least one byte and never passes the buffer |
| `Cbor.Reader.constructor` | cogno-dbsync/src/calidus.rs:102-104 | a new reader stands at offset 0 of its buffer |
| `Cbor.Reader.Take` | cogno-dbsync/src/calidus.rs:108-113 | returns the next `n` bytes and advances, or fails truncated and stays put |
| `Cbor.Reader.ReadByte` | cogno-dbsync/src/calidus.rs:114-119 | returns the next byte and advances, or fails truncated and stays put |
| `Cbor.Reader.NextHead` | cogno-dbsync/src/calidus.rs:122-166 | the in-place reader returns the head of the grammar and lands on its end, same error otherwise |
| `Cbor.Reader.TypedHead` | cogno-dbsync/src/calidus.rs:167-182 | the head of one wanted major type, any other refused |
| `Cbor.Reader.NextBytes` | cogno-dbsync/src/calidus.rs:183-189 | a byte string of at most `max` bytes |
| `Cbor.Reader.BytesRaw` | cogno-dbsync/src/calidus.rs:192-200 | the content together with the exact span it was encoded in |
| `Cbor.Reader.Skip` | cogno-dbsync/src/calidus.rs:203-225 | the recursive mutable-cursor skip lands where the grammar says, same error otherwise, and terminates because each item consumes a byte |
| `Cbor.Reader.SkipMany` | cogno-dbsync/src/calidus.rs:208-220 | the counted array and map loops skip exactly that many items |
| `CalidusReader.StripLabelWrapper` | cogno-dbsync/src/calidus.rs:282-295 | strips a whole `{867: item}` wrapper and otherwise returns the bytes untouched |
| `CalidusReader.ParsePayload` | cogno-dbsync/src/calidus.rs:378-446 | the field loop over the payload map equals the payload specification, including every error |
| `CalidusReader.Scope` | cogno-dbsync/src/calidus.rs:378-446 | the pool-scope array of the payload |
| `CalidusReader.Method` | cogno-dbsync/src/calidus.rs:378-446 | the validation-method array of the payload: 0 or 2 |
| `CalidusReader.ParseAll` | cogno-dbsync/src/calidus.rs:297-333 | wrapper, version, payload span and witness span equal the specification |
| `CalidusReader.ParseWitness` | cogno-dbsync/src/calidus.rs:478-510 | the method-0 witness map: a 32-byte key and a 64-byte signature |
| `CalidusReader.ParseCoseKeyPubkey` | cogno-dbsync/src/calidus.rs:588-609 | the `-2` entry of a COSE key map |
| `CalidusReader.ParseCoseSign1` | cogno-dbsync/src/calidus.rs:616-634 | the four parts of a COSE_Sign1 array, with raw spans |
| `CalidusReader.CoseSigStructure` | cogno-dbsync/src/calidus.rs:639-648 | the pushed buffer is the five pieces in order |
| `CalidusReader.CoseWitnessAuthorizesOne` | cogno-dbsync/src/calidus.rs:540-583 | one COSE witness: payload, key hash and signature checks |
| `CalidusReader.WitnessAuthorizesEd25519` | cogno-dbsync/src/calidus.rs:452-474 | the method-0 witness loop; on a printed witness array it answers yes if and only if some witness, preceded only by well-formed ones, holds a key that decodes and hashes to the pool id and whose signature verifies over the hash of the payload |
| `CalidusReader.WitnessAuthorizesCose` | cogno-dbsync/src/calidus.rs:522-535 | the method-2 witness loop; on a printed witness array it answers yes if and only if some witness, preceded only by well-formed ones, carries the hash of the payload and a key that decodes, hashes to the pool id and verifies the signature over the `Sig_structure` |
| `CalidusReader.Parse` | cogno-dbsync/src/calidus.rs:336-343 | the parse-only form returns the fields of the parse specification |
| `CalidusReader.Verify` | cogno-dbsync/src/calidus.rs:348-371 | the verifying form returns the result of the verification specification |
| `Calidus.VerifiedIsParsed` | cogno-dbsync/src/calidus.rs:336-371 | whatever verifies carries exactly the fields the parse-only form returns |
| `CalidusMeaning.PayloadMeaning` | cogno-dbsync/src/calidus.rs:378-446 | the payload loop accepts exactly the maps with integer keys in which keys 1, 3, 4 and 7 occur and every occurrence is well formed, and returns their last values |
| `CalidusMeaning.ParseAllMeaning` | cogno-dbsync/src/calidus.rs:297-333 | parsing succeeds if and only if the bytes are, bare or wrapped once, the printed form of a registration item |
| `CalidusMeaning.ParseAllIsItem` | cogno-dbsync/src/calidus.rs:297-333 | whatever parses is the printed form of one item: nothing trails it |
| `CalidusMeaning.WitnessMeaning` | cogno-dbsync/src/calidus.rs:478-510 | the method-0 witness parser accepts exactly the witness maps and returns their last 32-byte key and 64-byte signature |
| `CalidusMeaning.CoseKeyMeaning` | cogno-dbsync/src/calidus.rs:588-609 | the COSE key parser accepts exactly the maps that carry a well-formed `-2` entry and returns its last value |
| `CalidusMeaning.Sign1Meaning` | cogno-dbsync/src/calidus.rs:616-634 | the COSE_Sign1 parser accepts exactly the four-item arrays of the right shapes and returns their raw spans |
| `CalidusMeaning.CoseMeaning` | cogno-dbsync/src/calidus.rs:540-583 | the COSE witness method accepts exactly the well-formed witness maps and returns whether the witness authorizes |
| `CalidusMeaning.AnyWitnessMeaning` | cogno-dbsync/src/calidus.rs:452-535 | the witness loop authorizes if and only if some witness does and every one before it is well formed |
| `CalidusMeaning.VerifyMeaning` | cogno-dbsync/src/calidus.rs:348-371 | verification succeeds if and only if the bytes denote a registration with an authorizing witness, preceded only by well-formed ones; `CalidusLaws.VerifyExact` spells out which those are |
| `CalidusLaws.PayloadRoundTrip` | cogno-dbsync/src/calidus.rs:378-446 | a payload printed with any unknown fields before and after parses back to the same payload |
| `CalidusLaws.RegistrationRoundTrip` | cogno-dbsync/src/calidus.rs:297-333 | printing then parsing, bare or wrapped, returns the fields, the exact payload span and the exact witness span |
| `CalidusLaws.RegistrationNotWrapped` | cogno-dbsync/src/calidus.rs:282-333 | a registration is never mistaken for a label wrapper |
| `CalidusLaws.WrapperTransparent` | cogno-dbsync/src/calidus.rs:282-333 | a value that is not itself a wrapper parses wrapped if and only if it parses bare, with the same result |
| `CalidusLaws.DoubleWrapperFails` | cogno-dbsync/src/calidus.rs:282-333 | only one wrapper is stripped: a wrapper around a wrapper never parses |
| `CalidusLaws.WrapperExact` | cogno-dbsync/src/calidus.rs:282-333 | wrapping changes success exactly when the value is the wrapped print of a registration item |
| `CalidusLaws.SigStructureIsItem` | cogno-dbsync/src/calidus.rs:639-648 | that buffer is the printed four-item array of section 4.4 of RFC 9052: the text `Signature1`, protected header, empty external data, payload |
| `CalidusLaws.SigStructureInjective` | cogno-dbsync/src/calidus.rs:639-648 | the signing preimage is injective on byte-string encodings of header and payload |
| `CalidusLaws.Ed25519Exact` | cogno-dbsync/src/calidus.rs:452-474 | method 0: yes exactly when a witness before any malformed one holds a decodable key that hashes to the pool id and verifies over the hash of the payload |
| `CalidusLaws.CoseExact` | cogno-dbsync/src/calidus.rs:522-583 | method 2: yes exactly when a witness before any malformed one has a decodable key that hashes to the pool id, a `COSE_Sign1` whose payload is the hash of the registration payload, and a signature over the array of context, protected header, empty data and that hash |
| `CalidusLaws.ParseExact` | cogno-dbsync/src/calidus.rs:336-343 | parsing returns a pool id, key hash and nonce exactly when the bytes denote a registration whose payload carries that pool id and nonce and a key with that hash |
| `CalidusLaws.VerifyExact` | cogno-dbsync/src/calidus.rs:348-371 | verification returns them exactly when, besides, a witness of the payload's own method signs the hash of that payload with the pool's own key |
| `CalidusLaws.CoseMessageFixed` | cogno-dbsync/src/calidus.rs:540-583 | an authorizing COSE witness signs the message fixed by its protected header and the registration preimage, with a key hashing to the pool id |
| `Text.HexBytes` | cogno-dbsync/src/reduction.rs:41-54 | the hex loop equals the hex specification, optional `0x` included |
| `VaultFields.HexExact` | cogno-dbsync/src/reduction.rs:41-54 | the accepted texts: after an optional `0x` exactly two digits a byte, of either case, the high one first |
| `Text.HexRoundTrip` | cogno-dbsync/src/reduction.rs:41-54 | hex decoding inverts `hex_encode` |
| `Text.HexInjective` | cogno-dbsync/src/reduction.rs:696-702 | `hex_encode` is injective |
| `Text.DecimalRoundTrip` | cogno-dbsync/src/reduction.rs:67-86 | the strict digit parser reads back every printed decimal |
| `Text.DigitsMeanNumerals` | cogno-dbsync/src/reduction.rs:67-86 | a string of digits has a value exactly when it is that value's decimal form behind any number of zeros |
| `Vault.UnsignedMeaning` | cogno-dbsync/src/reduction.rs:67-86 | the strings accepted are exactly the decimal numerals of the values below the limit: no sign, no space, no prefix |
| `VaultFields.UnsignedExact` | cogno-dbsync/src/reduction.rs:67-86 | a value reads as `n` exactly when it is the JSON integer `n` or a numeral of `n` below the limit |
| `Vault.ScanAssets` | cogno-dbsync/src/reduction.rs:95-163 | the asset loop, in whatever order the map yields, counts the vault assets and finds the beacon of a sole one |
| `Vault.RowCandidate` | cogno-dbsync/src/reduction.rs:95-163 | one row yields exactly the candidate its sole vault asset at quantity 1 denotes, or none |
| `VaultFields.PolicyExact` | cogno-dbsync/src/reduction.rs:95-163 | an asset is of the vault policy exactly when the text before the first dot is the vault hash, character for character up to ASCII case |
| `VaultFields.CandidateExact` | cogno-dbsync/src/reduction.rs:95-163 | a row is a candidate, read off its JSON: `value.assets` holds exactly one asset of the policy, at quantity 1, named by 32 bytes of hex; `created_at.slot_no` and `value.coins` denote its slot and coins; `spent_at.slot_no` denotes its spend or nothing |
| `Vault.CandidateUnique` | cogno-dbsync/src/reduction.rs:95-163 | a row denotes at most one candidate |
| `Vault.CandidatesMember` | cogno-dbsync/src/reduction.rs:175-230 | the candidates are exactly those the rows denote |
| `Vault.ObserveAsOf` | cogno-dbsync/src/reduction.rs:95-163 | the fold returns, in ascending beacon order, exactly the beacons locked as of the reference, each with its largest locked amount |
| `Vault.ObservesUnique` | cogno-dbsync/src/reduction.rs:95-163 | two results over row sets with the same locks are equal |
| `Commitment.CandidateOrder` | cogno-dbsync/src/reduction.rs:165-230 | the key order used here is the derived field-by-field order (beacon, created, spent with none first, coins) |
| `Commitment.CandidateTuples` | cogno-dbsync/src/reduction.rs:175-230 | the pushed and sorted vector is the sorted multiset of the candidates |
| `Commitment.SortedCandidatesUnique` | cogno-dbsync/src/reduction.rs:228-229 | sorting forgets row order: equal multisets sort to equal vectors |
| `Commitment.CompactInjective` | cogno-dbsync/src/reduction.rs:232-238 | the SCALE compact length is uniquely decodable in front of any bytes |
| `Commitment.EncodeCandidateInjective` | cogno-dbsync/src/reduction.rs:232-238 | the SCALE candidate encoding is uniquely decodable in front of any bytes |
| `Commitment.CandidateBytesInjective` | cogno-dbsync/src/reduction.rs:232-238 | equal commitment pre-images mean equal candidate vectors |
| `Scale.DecodeInverts` | cogno-dbsync/src/reduction.rs:232-238 | a decoder written from the SCALE format accepts exactly the pre-images and returns the tuples each was made of |
| `Scale.DecodesCandidate` | cogno-dbsync/src/reduction.rs:232-238 | one tuple on the wire: 32 beacon bytes, 8 little-endian bytes of creation slot, the optional spend, 16 little-endian bytes of coins |
| `Scale.DecodesSpent` | cogno-dbsync/src/reduction.rs:232-238 | the spend on the wire: `0x00`, or `0x01` and 8 little-endian bytes |
| `Scale.CompactDecodes` | cogno-dbsync/src/reduction.rs:232-238 | the compact length is read back in all four forms |
| `Scale.CompactSound` | cogno-dbsync/src/reduction.rs:232-238 | whatever length is read was written in its shortest form |
| `Commitment.CommitmentFixesEntries` | cogno-dbsync/src/reduction.rs:95-238 | equal pre-images give equal vault entries at every reference |
| `Commitment.RowOrderIrrelevant` | cogno-dbsync/src/reduction.rs:95-238 | permuting the rows changes neither the pre-image nor the entries |
| `Ledger.AnchorAgrees` | cogno-dbsync/src/dbsync.rs:85-87 | two views past the reference, of chains that agree up to it, resolve the same anchor block |
| `VaultQuery.RowMeaning` | cogno-dbsync/src/dbsync.rs:88-99 | the JSON row of an output denotes a candidate exactly when the output holds one vault asset at quantity 1, with that output's slots and coins |
| `VaultQuery.SpentnessAgrees` | cogno-dbsync/src/dbsync.rs:1657-1674 | the SQL spentness clause keeps exactly the rows whose emitted `spent_at` the reduction reads as not spent by the reference |
| `Ledger.ViewTellsTheLedger` | cogno-dbsync/src/dbsync.rs:82-113 | whatever a node past the reference reduces is the ledger's own answer, the beacons locked as of the reference with their largest amounts, if its unresolved spends are harmless |
| `Ledger.ViewReduces` | cogno-dbsync/src/dbsync.rs:82-113 | without any assumption on the view: the entries are the largest locks among the outputs it shows |
| `Ledger.UnresolvedExact` | cogno-dbsync/src/dbsync.rs:58-67 | spends the view cannot resolve leave the entries right if and only if none of them tops what the chain locks under its beacon |
| `Ledger.ForkKeepsEntries` | cogno-dbsync/src/dbsync.rs:82-113 | chains that fork only after the reference have the same answer |
| `Ledger.LedgerEntriesUnique` | cogno-dbsync/src/reduction.rs:95-163 | that answer is unique, so no two views can disagree |
| `Ledger.PrefilterDrops` | cogno-dbsync/src/dbsync.rs:58-74 | the SQL pre-filter removes exactly the candidates spent by the reference |
| `Ledger.PrefilterKeepsEntries` | cogno-dbsync/src/dbsync.rs:58-74 | the SQL pre-filter never changes the entries |
| `Roles.RoleOrder` | pallets/cardano-observer/src/lib.rs:280-340 | the key order used here is the derived order of role entries: source (Calidus, owner, dRep, committee), credential, id, weight |
| `Roles.CanonicalUnique` | cogno-dbsync/src/reduction.rs:256-264 | a strictly ascending listing of a set of entries is unique |
| `Roles.CanonicalIdempotent` | cogno-dbsync/src/reduction.rs:677-692 | canonicalising a canonical listing again is the identity |
| `Roles.CanonicalRoleEntries` | cogno-dbsync/src/reduction.rs:261-264 | the result is the strictly ascending listing of exactly the entries given |
| `RoleReduction.BestIsWinner` | cogno-dbsync/src/reduction.rs:464-484 | the specification's winner is the earliest registration of the highest nonce among those that verify |
| `RoleReduction.GateKeepsEmitters` | cogno-dbsync/src/reduction.rs:315-329 | every pool that emits passes the parse-only gate |
| `RoleReduction.CalidusWinners` | cogno-dbsync/src/reduction.rs:464-484 | the gated loop holds, for every gated pool, the ungated winner |
| `RoleReduction.CalidusArm` | cogno-dbsync/src/reduction.rs:459-518 | the emitted entries equal the ungated specification: each active pool's winner, when its key is claimed |
| `RoleReduction.OwnerArm` | cogno-dbsync/src/reduction.rs:522-531 | an owner entry is emitted if and only if its credential and pool are a row of the owners, the pool is active, and its weight is the pool's stake |
| `RoleReduction.DrepArm` | cogno-dbsync/src/reduction.rs:536-543 | exactly the live dReps, with their stake |
| `RoleReduction.FoldSeats` | cogno-dbsync/src/reduction.rs:569-577 | one seat per cold credential, at its minimum expiry over duplicate rows |
| `RoleReduction.FoldRegistrations` | cogno-dbsync/src/reduction.rs:586-601 | the newest registration of each seated cold credential by (order, hot, script) |
| `RoleReduction.FoldDeregistrations` | cogno-dbsync/src/reduction.rs:602-613 | the newest de-registration of each seated cold credential |
| `RoleReduction.SeatEmitsIsBadge` | cogno-dbsync/src/reduction.rs:615-669 | the seat loop's chain of skips is the declarative badge condition |
| `RoleReduction.CommitteeArm` | cogno-dbsync/src/reduction.rs:569-669 | a hot credential is emitted if and only if a seated in-term cold credential's newest registration names it, it is not a script, no strictly newer de-registration withdraws it, and it is claimed |
| `RoleReduction.ReduceRoleObservation` | cogno-dbsync/src/reduction.rs:442-672 | the whole reduction is the canonical listing of exactly the entries that the rows read support, each source by its own rule (`RoleFields.Supported`) |
| `RoleFields.RoleSetMeaning` | cogno-dbsync/src/reduction.rs:442-672 | an entry is in the role set if and only if the rows support it, source by source and field by field |
| `RoleFields.CalidusMeaning` | cogno-dbsync/src/reduction.rs:459-518 | a Calidus entry: the pool is active, its earliest highest-nonce verified registration names the credential, the credential is claimed, the weight is the pool's stake |
| `RoleFields.OwnerMeaning` | cogno-dbsync/src/reduction.rs:522-531 | an owner entry: the pair is an owner row, the pool is active, the weight is the pool's stake |
| `RoleFields.DrepMeaning` | cogno-dbsync/src/reduction.rs:536-543 | a dRep entry: credential and id are one live dRep, the weight is its own stake |
| `RoleFields.CommitteeMeaning` | cogno-dbsync/src/reduction.rs:545-669 | a committee entry: credential and id are one claimed hot key that a seat in term registered last and has not resigned, the weight is 0 |
| `RoleFields.ServesMeaning` | cogno-dbsync/src/reduction.rs:545-669 | in term means at most the expiration epoch in every row of the seat; last means by transaction, then certificate, then hot key, then script; resigned means strictly later |
| `RoleFields.BestMeaning` | cogno-dbsync/src/reduction.rs:464-484 | the winner of a pool among the raw registrations: it verifies, and every other that verifies for the pool has a lower nonce, or the same and comes later |
| `RoleFields.WeightMeaning` | cogno-dbsync/src/reduction.rs:442-456 | the weight of an id is its last stake row, or 0 without one |
| `RoleFields.ClaimedPoolsMeaning` | cogno-dbsync/src/reduction.rs:315-329 | the gate holds exactly the active pools with some parseable registration of a claimed key |
| `RoleLaws.UnverifiableChangesNothing` | cogno-dbsync/src/reduction.rs:459-518 | inserting any registration that does not verify, at any position and with any nonce or pool id, changes nothing |
| `RoleLaws.OnlyVerifiedMatter` | cogno-dbsync/src/reduction.rs:459-518 | the result depends on the registrations only through those that verify |
| `RoleLaws.OrderFreeIffNoTie` | cogno-dbsync/src/reduction.rs:477-483 | a pool's winning key survives every reordering of the registrations if and only if its top nonce has no tie between different keys |
| `RoleLaws.TieFlips` | cogno-dbsync/src/reduction.rs:477-483 | moving a tied registration first makes it the winner |
| `RoleLaws.RenumberingKeepsBadges` | cogno-dbsync/src/reduction.rs:331-341 | any increasing renumbering of the transaction ids keeps every badge |
| `RoleLaws.CommitteeOrderFree` | cogno-dbsync/src/reduction.rs:569-669 | the committee arm depends neither on the order of the three row lists nor on the transaction ids an instance assigned |
| `RoleLaws.PermutedCommittee` | cogno-dbsync/src/reduction.rs:569-669 | permuted row lists are such a case |
| `RoleLaws.RolesOrderFree` | cogno-dbsync/src/reduction.rs:442-672 | the whole role output is invariant under permuting every input list (registrations without top ties, stake rows with distinct ids) and renumbering the committee transactions |
| `RoleLaws.ClaimsFilterResult` | cogno-dbsync/src/reduction.rs:653-662 | the result for a claimed set is the all-claimed result filtered by it, so the claim test belongs after newest-wins |
| `RoleLaws.ScopeSuffices` | node/src/service.rs:294-329 | reducing with stake restricted to the service's pool set equals reducing with the whole stake table |
| `RoleLaws.EntryDetermined` | cogno-dbsync/src/reduction.rs:256-264 | source, credential and id determine an entry: the weight never splits one |
| `RoleLaws.OneCalidusEntryPerPool` | cogno-dbsync/src/reduction.rs:509-518 | at most one Calidus entry per pool, and only for active pools |
| `RoleLaws.CalidusWeightBounded` | cogno-dbsync/src/reduction.rs:509-518 | the Calidus weights sum to at most the active pools' stake |
| `RoleLaws.CanonicalDistinct` | cogno-dbsync/src/reduction.rs:261-264 | canonical entries are pairwise distinct |
| `CommitteeSql.DistinctOnKeepsBadges` | cogno-dbsync/src/dbsync.rs:532-543 | keeping one newest certificate per seated row keeps the result for every claimed set, whatever bytes rows share |
| `CommitteeSql.RowScopeExact` | cogno-dbsync/src/dbsync.rs:522-543 | a badge of the row-scoped read is a badge of the full read if and only if no unseated row with the same bytes has a newer certificate |
| `CommitteeSql.FullBadgeExact` | cogno-dbsync/src/dbsync.rs:522-543 | a badge of the full read survives row scoping if and only if its certificate belongs to a seated row |
| `CommitteeSql.NamesInForce` | cogno-dbsync/src/dbsync.rs:522-543 | a sitting credential badges exactly the hot key of the registration in force among the certificates read |
| `CommitteeSql.UndisturbedExact` | cogno-dbsync/src/dbsync.rs:522-543 | on the certificates alone: the hot key in force is the same with and without unseated rows of the same bytes if and only if what they overtake they name again and what they name was named already |
| `CommitteeSql.SeatExact` | cogno-dbsync/src/dbsync.rs:522-543 | narrowing leaves a sitting credential's hot key alone if and only if its certificates are so undisturbed |
| `CommitteeSql.NarrowingExact` | cogno-dbsync/src/dbsync.rs:522-543 | no seat changes under narrowing if and only if no sitting credential is disturbed, and then neither does the result for any claimed set |
| `CommitteeSql.NarrowingKeepsBadges` | cogno-dbsync/src/dbsync.rs:522-543 | in particular when every unseated row with a seated row's bytes is outdated, or there is none |
| `CommitteeSql.TwinsAreReads` | cogno-dbsync/src/dbsync.rs:522-566 | a concrete database with a key-hash row and a script-hash row of the same bytes, and its two reads |
| `CommitteeSql.TwinsDisagree` | cogno-dbsync/src/dbsync.rs:522-566 | on that database the narrowed read and the full read badge different hot keys |
| `CommitteeSql.NoClaimsNoBadges` | cogno-dbsync/src/dbsync.rs:616-619 | with nothing claimed there is no badge, so gating the whole block on a non-empty claimed set is free |
| `CommitteeView.CutExact` | cogno-dbsync/src/dbsync.rs:517-521 | the largest transaction id of the last transaction-bearing block at or under the reference cuts exactly at the reference slot |
| `CommitteeView.TablesWellFormed` | cogno-dbsync/src/dbsync.rs:522-543 | the tables of a chain resolve their keys, and an order identifies a registration |
| `CommitteeView.KeptRegIsLast` | cogno-dbsync/src/dbsync.rs:532-538 | a registration row survives the query exactly when its certificate is its seated credential's last by the reference |
| `CommitteeView.KeptDeregIsLast` | cogno-dbsync/src/dbsync.rs:539-543 | the same for de-registrations |
| `CommitteeView.AnswersAgree` | cogno-dbsync/src/dbsync.rs:517-566 | two instances with their own row and transaction ids, on chains that agree up to the reference, answer with the same seats and certificates up to row order and ids |
| `Observation.ReferenceSlot` | cogno-dbsync/src/reduction.rs:22-35 | defined exactly when the parent is at least the stability window past the Shelley start and the slot fits 64 bits; then it trails the current slot by exactly the window and never precedes Shelley |
| `Observation.CanonicalStakeEntries` | cogno-dbsync/src/reduction.rs:251-254 | the ascending listing of the last-wins stake map |
| `Observation.StakeMapOrderFree` | cogno-dbsync/src/reduction.rs:247-254 | with distinct credentials the stake map does not depend on row order |
| `Observation.BuildObservation` | cogno-dbsync/src/reduction.rs:677-692 | each field is the reduction it is specified to be, the commitment over the sorted candidates |
| `Observation.ObserveForParent` | node/src/service.rs:119-361 | lands exactly when every guard passes, an empty stake or pool scope counting as an empty answer, and then builds the specified observation; its role entries are exactly those the node's own rows and the chain's claims support (`Observation.Backed`) |
| `Observation.LandsExact` | node/src/service.rs:119-345 | lands if and only if the vault read and its anchor are there, a reference trailing the parent by the window fits and is at or under the tip, and every stake and role read that is needed succeeded |
| `Observation.ReferenceExact` | node/src/service.rs:148-159 | the reference, plus the stability window, is the Cardano slot at six seconds a parent slot, and not before Shelley |
| `Observation.ReducedAreBacked` | node/src/service.rs:270-329 | each role arm from the node's rows: owners and Calidus keys by active pool and pool stake, a Calidus key only if claimed as one, a dRep only if live, a committee key only if claimed as one |
| `Observation.LandedHeader` | node/src/service.rs:331-361 | a landed observation carries the reference slot, the hash of the anchor block, db-sync's tip and the distance to the current slot |
| `Observation.LandedStake` | node/src/service.rs:217-230 | its stake entries are each credential's last row, and none when no credential is bound |
| `Observation.ScopeImmaterial` | node/src/service.rs:294-329 | the scoped pool-stake read gives the same role entries as the whole table |
| `Observation.BehindAbstains` | node/src/service.rs:178-188 | a view whose tip is below the reference abstains |
| `Observation.LandedTellsTheLedger` | node/src/service.rs:119-361 | a landed observation's vault entries are the ledger's own answer |
| `Observation.TwoNodesAgree` | node/src/service.rs:119-361 | two nodes that both land, on db-sync instances of their own whose chains agree up to the reference and which read the same other settled rows, build the same reference, anchor, vault, stake and role entries |
| `Observation.PrefilterMovesCommitment` | cogno-dbsync/src/dbsync.rs:69-74 | one candidate spent by the reference makes the pre-filter change the commitment pre-image |
| `Observation.LagBounded` | node/src/service.rs:349-352 | on the landed path the lag is how far db-sync trails the current slot, at most the stability window |
| `People.ContainsCi` | pallets/microblog/src/lib.rs:2984-2994 | true exactly when at some offset the needle stands byte for byte, two bytes matching when equal or when one is the ASCII capital of the other |
| `People.Clamp` | runtime/src/apis.rs:501 | the limit is kept between 1 and 100, 0 becomes 1 and anything above becomes 100 |
| `People.FirstAfter` | runtime/src/apis.rs:513-516 | an exclusive resume starts at the first row beyond the account, present or not |
| `People.ResumesNext` | runtime/src/apis.rs:508-516 | resuming after a row starts at the very next one |
| `People.Rank` | runtime/src/apis.rs:553 | a permutation ordered by follower count, descending |
| `People.SearchPeople` | runtime/src/apis.rs:500-564 | one page: the matches of the rows up to the first point where the page is full or the budget spent, ranked, with a cursor exactly when a row remains |
| `People.WindowFacts` | runtime/src/apis.rs:532-548 | a page examines at most 10000 rows, returns at most the limit, always advances, and stops short of the end only when full or after exactly 10000 rows |
| `People.CursorMeansMore` | runtime/src/apis.rs:524-549 | a cursor always leaves an unexamined row, and the next page starts strictly later |
| `People.RunCovers` | runtime/src/apis.rs:500-564 | a chased run returns exactly the remaining matches |
| `People.RunBounded` | runtime/src/apis.rs:500-564 | chasing terminates: no run has more pages than rows it walks |
| `People.ChaseSearch` | runtime/src/apis.rs:500-564 | chasing cursors reaches a page without one |
| `People.EveryMatchOnce` | runtime/src/apis.rs:500-564 | every bound profile whose name contains the term up to ASCII case is returned exactly once, on exactly one page, and nobody else is |
| `People.WhoToFollow` | runtime/src/apis.rs:566-631 | one page: the top `limit` of the whole window by follower count |
| `People.DroppedAreOutranked` | runtime/src/apis.rs:578-588 | whoever a page drops is matched by a full page of accounts with at least as many followers |
| `People.WindowMembers` | runtime/src/apis.rs:578-588 | the accounts a page ranks are exactly the bound ones among the next 10000 rows |
| `People.FollowResumes` | runtime/src/apis.rs:599-613 | the windows partition the authors |
| `People.ChaseFollow` | runtime/src/apis.rs:566-631 | chasing cursors reaches a page without one |
| `People.RunKeepsCounts` | runtime/src/apis.rs:566-631 | over a run, for every follower count, truncating each window loses nothing below the limit, and no author is returned twice |
| `People.TopOfUnionIsTopOfAll` | runtime/src/apis.rs:566-631 | the top `limit` follower counts of the union of all pages equal those of all bound authors |
| `Enrichment.EnrichAuthorProfile` | runtime/src/apis.rs:54-67 | in place, one post takes the plain enrichment and every other post is untouched |
| `Enrichment.FieldsCache.constructor` | runtime/src/apis.rs:106-107 | an empty cache is valid |
| `Enrichment.FieldsCache.AuthorFields` | runtime/src/apis.rs:90-101 | the memoised read equals an uncached read, and an account is read from storage at most once |
| `Enrichment.EnrichThrough` | runtime/src/apis.rs:108-131 | one post and its quoted post through the cache |
| `Enrichment.EnrichAuthorProfiles` | runtime/src/apis.rs:106-132 | in place, every post takes the memoised enrichment; each account the page mentions is read exactly once |
| `Enrichment.EnrichedShows` | runtime/src/apis.rs:54-132 | only the author fields change; the plain form shows the set profile's name and avatar and the account's badges on post and quoted post, the memoised form exactly when nothing stale meets an empty read |
| `Enrichment.AgreeIff` | runtime/src/apis.rs:54-132 | the plain and the memoised form agree on a post if and only if no stale field stands where a read comes back empty |
| `Enrichment.EmptyPagesAgree` | runtime/src/apis.rs:54-132 | they agree on every page whose author fields start empty, quoted authors included |
| `Enrichment.StaleNameSurvives` | runtime/src/apis.rs:54-132 | otherwise they can differ: an emptied profile keeps its old name in the memoised form |
| `Governance.ThresholdIsLeast` | cli/src/committee.rs:271-274 | the threshold is the least number of ayes the 3/5 origin accepts if and only if `3n <= 5(2^32 - 1)` |
| `Governance.ThresholdWraps` | cli/src/committee.rs:271-274 | past that range it fails: a committee of 7158278827 would need one aye |
| `Governance.ThresholdReachable` | cli/src/committee.rs:271-274 | the threshold is between 1 and n, and survives one lost seat if and only if n is at least 3 |
| `Governance.QuorumsMeet` | cli/src/committee.rs:271-274 | any two quorums share at least a fifth of the committee |
| `Governance.PassableIff` | runtime/src/configs/mod.rs:249-260 | distinct members can carry a motion exactly when the distinct seats left reach 3/5 of the listed length |
| `Governance.RepeatedSeatBricks` | runtime/src/configs/mod.rs:249-260 | one key listed three times can never pass anything |
| `Governance.HealthyActs` | runtime/src/configs/mod.rs:279-286 | a healthy committee can always act; after losing a seat, exactly when it has three or more |
| `Governance.CmdMembers` | cli/src/main.rs:949-1024 | the command proposes the named set exactly when that set is non-empty, duplicate-free and not of size 2 |
| `Governance.RejectRepeated` | cli/src/main.rs:1001-1012 | the `seen` loop accepts exactly the duplicate-free lists |
| `Governance.AcceptableFromHealthy` | cli/src/main.rs:949-1024 | from a healthy committee: add needs a stranger and more than a sole founder, remove needs a member and a size other than 1 and 3, set reaches every healthy list |
| `Governance.RemoveUndoesAdd` | cli/src/main.rs:959-978 | removing the member just added gives the old committee back |
| `Governance.FilterMeaning` | runtime/src/configs/mod.rs:241-300 | the call filter accepts exactly the healthy sets of at most 7 seats whose new members hold an allowance |
| `Governance.GenesisGuard` | node/src/gen_chainspec.rs:122-150 | the genesis checks, with the preset's size assertion and the pallet's limit, accept exactly the healthy committees of at most 7 |
| `Governance.StepKeepsHealthy` | runtime/src/configs/mod.rs:241-300 | every accepted change, by command or by any filtered motion, yields a healthy committee |
| `Governance.NeverBricks` | runtime/src/genesis_config_presets.rs:54-59 | every committee reached from a guarded genesis is healthy and can pass a motion; after any one loss it can exactly when it had three seats, and then the runtime admits a motion dropping the lost seat; a successor of three or more exists exactly when three electable accounts remain |
| `Governance.RecoversExact` | runtime/src/configs/mod.rs:241-300 | the admitted motions without the lost seat are exactly the healthy lists of at most seven sitting or funded other accounts |
| `Governance.DropExact` | runtime/src/configs/mod.rs:279-286 | dropping just the lost seat is admitted from four seats to eight, and refused at three |
| `Governance.SwapExact` | runtime/src/configs/mod.rs:287-298 | swapping the lost seat for a newcomer is admitted exactly when the newcomer is funded and the size allowed |
| `Governance.TolerantRecovery` | runtime/src/configs/mod.rs:241-300 | a successor of three or more exists exactly when three electable accounts remain |
| `Governance.MotionThreshold` | cli/src/main.rs:922-934 | the minimum exactly, or an override of at least one and at least the minimum |
| `Governance.ResolveCommittee` | cli/src/committee.rs:289-336 | succeeds exactly when the members whose keys are held can reach the threshold, which is the least one unless overridden; the eligible indices are the first per member |
| `Governance.VotersCarry` | cli/src/committee.rs:317-335 | the first `threshold` eligible seats are that many distinct members and carry the motion |
| `Motion.EnsureExecuted` | cli/src/committee.rs:395-423 | succeeds for a motion if and only if its successful `Executed` event is there and no failed one is; reports no execution if and only if no event of it is there |
| `Motion.ExecutedExact` | cli/src/committee.rs:395-423 | event by event, for one motion and, when none is named, for all |
| `Motion.FinalizedMeansFinalized` | cli/src/rpc.rs:63-94 | a finalizing wait returns a block if and only if that block's finalized status comes after nothing but waiting and inclusion |
| `Motion.InBlockMeansInBlock` | cli/src/rpc.rs:63-94 | a wait for inclusion returns a block if and only if that block's inclusion or finalized status comes after nothing but waiting |
| `Motion.WatchFails` | cli/src/rpc.rs:63-94 | a wait is rejected if and only if a refusal comes first among what settles it, and runs out if and only if nothing settles it |
| `Motion.Rpc.SubmitAndWatch` | cli/src/rpc.rs:282-319 | the watch loop returns a block if and only if the stream was opened and reports that block, included or finalized as asked, after nothing but undecided statuses; every other outcome is that of the stream |
| `Motion.Rpc.ProposalOf` | cli/src/committee.rs:93-115 | one response consumed; a returned call is the preimage of the hash asked for |
| `Motion.Rpc.AccountNonce` | cli/src/rpc.rs:190-197 | one response consumed; succeeds exactly on a nonce |
| `Motion.Rpc.EventsWithPhaseAt` | cli/src/committee.rs:259-270 | one response consumed; the events read are recorded with the block asked for |
| `Motion.Rpc.BlockExtrinsics` | cli/src/rpc.rs:242-259 | one response consumed; the body read is recorded with the block asked for |
| `Motion.AssertExtrinsicOk` | cli/src/committee.rs:428-457 | passes exactly when the block does not hold our extrinsic or blames no failure on its index |
| `Motion.ProposalIndexFor` | cli/src/committee.rs:461-470 | finds an index exactly when a `Proposed` event of the motion is there |
| `Motion.ProposalIndexFirst` | cli/src/committee.rs:461-470 | and it is the index of the first such event |
| `Motion.ProposeAlone` | cli/src/committee.rs:527-542 | at threshold one: success exactly when the watch finalizes and that block's events show the motion executed |
| `Motion.ProposeMotion` | cli/src/committee.rs:513-557 | at most one submission; succeeds exactly under the stated responses; the execute-on-propose outcome only with the motion delivered, the open outcome only after the block was read and blames nothing on the proposal |
| `Motion.VoteMotion` | cli/src/committee.rs:561-577 | at most one submission; succeeds exactly when it lands and nothing is blamed on it |
| `Motion.CloseMotion` | cli/src/committee.rs:585-619 | at most one submission; approved exactly under the stated responses and only with the motion delivered, disapproved only with its removal finalized; either only after the stored proposal matched its hash and the block blames nothing on the close |
| `Motion.CastVotes` | cli/src/committee.rs:656-659 | one aye per voter in turn up to the first failure; all of them exactly when every one lands unblamed |
| `Motion.Verdict` | cli/src/committee.rs:606-619 | approved exactly on an `Approved` event with a successful and no failed execution, disapproved exactly on a `Disapproved` event alone |
| `Motion.ViaCommittee` | cli/src/committee.rs:627-671 | for every sequence of responses: `Ok` only if the motion was delivered in a finalized block, and then exactly propose, `threshold` ayes and close were asked for; a failure leaves a prefix of that plan; and `Ok` exactly for the sequences in which every step of the plan is answered well |
| `Motion.DeliveredOnChain` | cli/src/committee.rs:627-671 | behind a truthful endpoint, delivery means a finalized block whose events hold a successful and no failed execution of this motion |
| `Motion.PlanCarries` | cli/src/committee.rs:627-645 | the plan's ayes come from `threshold` distinct members, enough for 3/5 |
| `Authors.FirstBlockAtOrAfter` | cli/src/query.rs:241-256 | fails only on a missing block; with non-decreasing times it splits `[1, tip]` exactly at the target |
| `Authors.ToMs` | cli/src/query.rs:280-285 | seconds convert exactly when they are non-negative and fit 64 bits, and one more millisecond never overflows |
| `Authors.RoundRobin` | cli/src/query.rs:346-350 | slot `k * n + i` of a set of `n` validators goes to validator `i` |
| `Authors.ResolveRange` | cli/src/query.rs:272-307 | the resolved window holds exactly the blocks inside the bounds; an empty window means no block is |
| `Authors.RunTally` | cli/src/query.rs:309-353 | the loop's tally is the cached attribution, walks until the window or the chain ends, and conserves the count |
| `Authors.RunAuthors` | cli/src/query.rs:265-353 | the tally covers exactly the finalized blocks inside the bounds |
| `Authors.CacheFaithful` | cli/src/query.rs:336-349 | when validators depend only on the session, the cached author of each block is the one an uncached read gives |
| `Authors.TallyIsUncached` | cli/src/query.rs:309-353 | so the counts equal the uncached ones, and counts plus unattributed equal the blocks walked |

## Left out

- Postgres, the SQL text, probes, timeouts, reconnects and the async runtime: only the relational meaning of the vault, anchor and committee filters is modelled, and a failed read is an absent answer.
- Blake2, Ed25519 and the SS58 format: parameters, never computed.
- `transaction_id` and `output_index` of a vault row: the reduction never reads them.
- Case folding of the vault hash and asset keys: ASCII only, which is all that hexadecimal text holds.
- The stack depth of `skip_item` and 32-bit `usize`: the model is the 64-bit build with unbounded recursion.
- SCALE vectors of 2^32 or more candidates: the codec refuses them, so `Observation.ObserveForParent` requires fewer rows.
- How stake, pool, dRep and registration rows are selected in SQL: `Observation.TwoNodesAgree` derives the vault and committee answers from each instance's own tables, and takes the other settled rows to be the same on both, each in its own order.
- The enacted committee behind `epoch_state`: `CommitteeView.Chain` holds the committee of the reference epoch as a fact of the chain.
- CommitteeSql.NarrowingKeepsBadges: one direction only, a simple sufficient condition; the exact one is `CommitteeSql.NarrowingExact`.
- CommitteeSql.NarrowingExact: exact seat by seat; the result as a set can also survive when two disturbed seats exchange their hot keys.
- Authors.CacheFaithful: one direction only; a set that changes inside a session can still pick the same author by chance.
- `max_scanned`, the scan count and the sweep length that `observe_for_parent` also returns: configuration passed through.
- `check_inherent` and the scan rotation that consume the observation: on-chain code outside these modules.
- Hydration of people (`person_summary`, staker weights): rows stand for the summaries.
- Parsing account lists and key files, fees, `length_bound` and weight bounds of the motion calls: I/O and constants.
- The offline preimage check, dry runs and printing of the command line: presentation.
- The order of checks between `Governance.GenesisGuard`'s two homes: the repeated-account and two-seat checks run in the spec builder, the size assertion in the preset; the model runs them together.
- RPC failures inside the author tally: a missing block is modelled, a failing endpoint only aborts.
- `tip + 1` at the largest 32-bit height: the model uses unbounded heights.
- The front end, the indexer, deployment and metrics: no logic the other modules depend on.
