# Verified model of the credential verifier

This project models the parts of the verifier whose correctness is hard to see by reading one function, and
proves what they guarantee. `dafny verify dfyconfig.toml` checks all of it.

- **The verification journal.** `JournalChain` is the hash chain and the loop that re-verifies it,
  `JournalStore` the table with its compare-and-swap append, `JournalRuns` every interleaving of any number of
  concurrent appenders, `JournalAttestations` what those runs commit to, `JournalAppend` the retry loop of one appender
  against arbitrary interference.
- **mDoc credentials** (ISO/IEC 18013-5, sections 9.1.2.4 and 9.1.3.4; section 4.4 of RFC 8152). `Cbor`, `CborCodec` and
  `Json` are the data, with a concrete codec (section 3 of RFC 8949) proved to round-trip; `MdocDecoder` extracts
  claims without checking anything, `MdocVerification` checks signatures, digests, session and validity with a
  second parser, `MdocSoundness` shows that the two agree and what acceptance means, `MdocIssuing` builds a
  presentation, `MdocRoundTrip` shows that building and verifying are inverse, `MdocConcrete` that they are so with the
  concrete codec, `MdocReplay` that a presentation is good for one session only. `MdocClaims` says what the returned
  JSON means in terms of the CBOR that was signed, `MdocWire` what is signed byte by byte and where things are found.
  `MdocLibrary` collects the foreign functions.
- **SD-JWT credentials.** `SdJwt` has the decoding pass and the independent signature pass over the same
  presentation, and the proof that they pick the same Key Binding JWT whenever that matters. `SdJwtPresentations`
  starts from the parts of a presentation: what is found in it, exactly when it is accepted, and with which claims.
- **OpenID4VP transactions.** `Dcql` validates queries, `TransactionStore` is the keyed store and the service
  operations, `TransactionLifecycle` what polls see of one transaction from its creation on, `TransactionRuns` every
  interleaving of wallet posts, wallet errors, deletions, expiry and polls split into read, verify and mark, with atomic updates (the in-memory store) and two-step updates (the SQLite store),
  `UncheckedRows` the exact condition under which two-step updates can leave a Verified row that was never checked.
  `QrOwners` is the owner map behind the QR routes. `VpTokens` joins transactions with credentials: what a
  transaction's Verified status rests on, which presentations reach it, and when they are bound to its session.
- **Byte-level parsers.** `ConcatKdf` (section 4.6.2 of RFC 7518), `PemChain` (section 5 of RFC 7468), `DerSpki`
  (section 8.1.3 of X.690, section 4.1 of RFC 5280), over `BigEndian`.

Code that loops or updates state is a method or a class proved against a function or a declarative rule; the lemmas
are about those functions. Rust strings that are hashed or encoded are their UTF-8 bytes.

## Assumptions

Hashes, signatures, certificate chains, base64, JSON text and date parsing are parameters. No theorem assumes a
hash injective on all inputs, which no fixed-length hash is: each assumes only that the finitely many inputs it talks about
do not collide. Signatures are ideal only on the data involved. What acceptance of an mDoc guarantees
(`MdocSoundness.AcceptedClaimsAreVouched`) assumes nothing about the libraries at all. A verdict takes one clock reading;
instants are integers. The clock of the journal may go back; the theorems about transactions are for a clock that does not.

## Where the code and its documentation part

- The journal module header leaves the username out of the entry hash; the code at lines 356-366 includes it,
  and the code is followed.
- `verify_chain` answers valid for a user without rows before it looks at the head. Rows that were all deleted while
  the head stayed are accepted; any shorter deletion at the end is not (`JournalChain.OnlyWholeDeletionUnnoticed`).
- `verify_chain` reads rows ordered by `created_at`, which leaves the order of equal timestamps open.
  It accepts every reachable journal for every such order exactly when timestamps along the chain strictly increase
  (`JournalRuns.VerifyChainAcceptsIffNoTies`), and ties are reachable (`JournalRuns.TieIsReachable`).
- The comment at `routes.rs` 357-361 takes an unknown owner to mean an expired transaction. The owner entry
  keeps an instant and the transaction milliseconds: the owner outlives the transaction exactly when it was recorded in a
  later millisecond (`QrOwners.OwnerKnownWhileLive`, `QrOwners.OwnerForgottenFirst`).
- A consumed or expired transaction stays gone with atomic updates. The SQLite store updates by reading, changing and
  setting, and a row removed in between comes back (`TransactionRuns.ReappearsIffWriteBackPending`). Only through such a row
  can a transaction be Verified without having been checked itself (`TransactionRuns.RunChecksItself`). When that
  can still happen is decided from the present state (`VpTokens.UncheckedVerifiedIffAtRisk`): the transaction is not yet
  checked for its session, is stored or about to be written back, and is Verified already, or in a task that carries it
  there, or in time while some token is admitted without its session. Without any transaction
  the poll admits an accepted SD-JWT with no Key Binding JWT or one that names any nonce, and unexpired
  plain JSON that names an issuer; never an mDoc (`VpTokens.AcceptsAloneIffAdmitted`,
  `VpTokens.AdmittedAloneGoesUnchecked`).
- The comments at `service.rs` 676-680 and 740-746 say that a Verified transaction was cryptographically verified. The
  poll also admits an SD-JWT whose Key Binding JWT is missing or names no nonce, and plain JSON without any signature.
  An admitted token is bound to its transaction exactly when it is an mDoc or an SD-JWT in which the decoder found a
  nonce (`VpTokens.BoundIffCarriesBinding`); this is what Verified means in `VpTokens.VerifiedMeansAdmitted` and
  `VpTokens.SafeVerifiedMeansAdmitted`. Plain JSON that names an issuer and no expiry turns any transaction that is in
  time Verified (`VpTokens.PlainJsonVerifies`).
- `expires_in` is computed from a second clock reading and can be negative by the time it is reported;
  `TransactionRuns.PollsCountDown` says exactly when.
- The PEM scanner keeps the last body after an END marker, so a stray END marker repeats it
  (`PemChain.ParseUndoesPrint`).
- The backward scan for a SubjectPublicKeyInfo may stop inside a two-octet length: at a high octet 0x30 whose low octet
  reads as an extent that covers the identifier, and, when the algorithm identifier's own length is in long form, at a
  low octet 0x30. `DerSpki.Misleading` is the exact condition for each identifier length
  (`DerSpki.ExtractsSpkiExactly`). An OID at the very end of the input is never found.
- Entry hashes of different users may coincide when one username ends in a hash of the other's chain
  (`JournalChain.CrossUserHashesDiffer`).

## Model

| member | source | states |
|---|---|---|
| `JournalChain.ComputeEntryHash` | crates/ewqwe-credential-verifier-server/src/journal/mod.rs:356-366 | the three hasher updates digest the concatenation username, previous hash if any, attestation hash |
| `JournalChain.PreimageCollisions` | crates/ewqwe-credential-verifier-server/src/journal/mod.rs:345-366 | the unseparated bytes of two entries coincide if and only if the fields do, or one username swallows the other's previous hash (64 hex characters) |
| `JournalChain.ChainNeverRepeats` | crates/ewqwe-credential-verifier-server/src/journal/mod.rs:345-366 | a chain that recomputes never contains the same entry hash twice |
| `JournalChain.HeadDeterminesChain` | crates/ewqwe-credential-verifier-server/src/journal/mod.rs:345-366 | the head hash commits to the history: two recomputing chains of one user with the same head have the same length and the same previous, attestation and entry hash at every position |
| `JournalChain.CrossUserHashesDiffer` | crates/ewqwe-credential-verifier-server/src/journal/mod.rs:345-366 | entries of different users share a hash exactly when one username is the other followed by a previous hash; never when both usernames are shorter than 64 bytes |
| `JournalChain.VerifyChain` | crates/ewqwe-credential-verifier-server/src/journal/stores/sqlite.rs:403-492 | valid if and only if the rows form one recomputing chain from genesis and, when there are rows, the stored head is its last hash; on failure the reported count is the length of the longest good prefix |
| `JournalChain.AcceptedMeansHeadUnlessEmpty` | crates/ewqwe-credential-verifier-server/src/journal/stores/sqlite.rs:415-424 | an accepted answer agrees with the stored head if and only if it is not the case that there are no rows and a head |
| `JournalChain.AcceptedHistoriesAgree` | crates/ewqwe-credential-verifier-server/src/journal/stores/sqlite.rs:403-492 | two accepted answers for one stored head have the same links if and only if both or neither are empty |
| `JournalChain.OnlyWholeDeletionUnnoticed` | crates/ewqwe-credential-verifier-server/src/journal/stores/sqlite.rs:415-424 | of a chain cut back to its first n rows, with the head left in place, exactly the empty and the whole one are accepted |
| `JournalStore.SqliteJournalStore.constructor` | crates/ewqwe-credential-verifier-server/src/journal/stores/sqlite.rs:86-118 | a new journal is empty |
| `JournalStore.SqliteJournalStore.ReadHead` | crates/ewqwe-credential-verifier-server/src/journal/stores/sqlite.rs:202-211 | the user's head, none before the first entry |
| `JournalStore.SqliteJournalStore.AppendEntry` | crates/ewqwe-credential-verifier-server/src/journal/stores/sqlite.rs:213-294 | compare-and-swap: stale head, refused key or appended entry with the head moved; the whole new contents, unchanged on error |
| `JournalStore.AppendKeepsConsistent` | crates/ewqwe-credential-verifier-server/src/journal/mod.rs:206-220 | an append keeps every user's rows one recomputing chain ending in the head, and all entry hashes distinct |
| `JournalStore.FreshAppendSucceeds` | crates/ewqwe-credential-verifier-server/src/journal/stores/sqlite.rs:213-294 | with a current head, an unused id, short usernames and no colliding preimages the unique index never refuses an append |
| `JournalRuns.SyntheticInputsDiffer` | crates/ewqwe-credential-verifier-server/src/journal/mod.rs:379-442 | entries without an attestation hash an input of their own: equal only for the same user and entry id |
| `JournalRuns.CasReadsSnapshot` | crates/ewqwe-credential-verifier-server/src/journal/mod.rs:391-441 | a compare-and-swap is stale exactly when the user's chain has grown since the call read its head |
| `JournalRuns.StepKeepsInv` | crates/ewqwe-credential-verifier-server/src/journal/mod.rs:391-441 | every step of every caller, a clock that goes back included, keeps chains, heads and what each running call remembers |
| `JournalRuns.EveryRunKeepsChains` | crates/ewqwe-credential-verifier-server/src/journal/mod.rs:206-243 | in every interleaving of any number of calls, whatever the clock does, each user has one linear recomputing chain without repeated hashes whose last hash is the head; if the clock never goes back it is sorted by time |
| `JournalRuns.ExhaustionNeedsOverlap` | crates/ewqwe-credential-verifier-server/src/journal/mod.rs:391-441 | a call that gives up was overlapped by at least MAX_CAS_RETRIES entries of its user; one overlapped by fewer and without storage error returned Ok |
| `JournalRuns.OneEntryPerSuccess` | crates/ewqwe-credential-verifier-server/src/journal/mod.rs:391-441 | a user's chain has exactly as many entries as calls that returned Ok |
| `JournalAttestations.EntriesAreSuccesses` | crates/ewqwe-credential-verifier-server/src/journal/mod.rs:379-442 | in every run the entries of a user are exactly those of the calls that returned Ok: each such call has a place in the chain no other has, the entry there hashes its attestation (or "qr:", the user and its own id when there is none), and every place is taken |
| `JournalAttestations.SuccessesKeepAttestationsApart` | crates/ewqwe-credential-verifier-server/src/journal/mod.rs:399-404 | two calls of a run that returned Ok left entries with equal attestation hashes if and only if their attestations are equal, unless the hash collides on these two |
| `JournalAttestations.RunKeepsIds` | crates/ewqwe-credential-verifier-server/src/journal/stores/sqlite.rs:86-118 | in no run does an entry id occur twice |
| `JournalRuns.CasNeverRefused` | crates/ewqwe-credential-verifier-server/src/journal/mod.rs:391-441 | in every run a compare-and-swap with a fresh id and short usernames ends in Ok or a stale head, Ok exactly when the chain has not grown since the read |
| `JournalRuns.LinkedArrangementIsUnique` | crates/ewqwe-credential-verifier-server/src/journal/stores/sqlite.rs:405-441 | of all arrangements of the rows of a chain only the chain itself links |
| `JournalRuns.VerifyChainAcceptsIffNoTies` | crates/ewqwe-credential-verifier-server/src/journal/stores/sqlite.rs:405-492 | on any clock: whatever order the database gives rows with equal timestamps, `verify_chain` accepts a reachable journal if and only if the timestamps along the chain strictly increase |
| `JournalRuns.TieBreaksTheWalk` | crates/ewqwe-credential-verifier-server/src/journal/stores/sqlite.rs:405-441 | two neighbouring entries with one timestamp may come back swapped, and the walk then fails |
| `JournalRuns.TieIsReachable` | crates/ewqwe-credential-verifier-server/src/journal/mod.rs:391-441 | two undisturbed calls of one user within one reading of the clock reach a chain with a tie, which some answer of the database makes `verify_chain` reject |
| `JournalAppend.TryAppend` | crates/ewqwe-credential-verifier-server/src/journal/mod.rs:391-441 | one attempt against any appends of others before and after the head is read; one that succeeds leaves as last entry and head its own, which hashes the attestation handed over, or "qr:", the user and the entry id when there is none |
| `JournalAppend.AppendVerification` | crates/ewqwe-credential-verifier-server/src/journal/mod.rs:379-442 | the retry loop: the first attempt that is not stale decides, five stale attempts give up; a call that succeeds leaves an entry of its own that commits to its attestation |
| `JournalAppend.SuccessCommits` | crates/ewqwe-credential-verifier-server/src/journal/mod.rs:399-441 | whatever others append, the last entry after a successful call was stamped by one of its attempts and commits to the attestation handed over |
| `JournalAppend.StaleIffOvertaken` | crates/ewqwe-credential-verifier-server/src/journal/mod.rs:391-441 | an attempt is stale if and only if another entry of the user landed between its read and its swap |
| `JournalAppend.ExhaustedIffAlwaysOvertaken` | crates/ewqwe-credential-verifier-server/src/journal/mod.rs:391-441 | the call gives up if and only if every attempt was overtaken; a stale head is never returned; the chains stay consistent |
| `Cbor.Untag` | crates/ewqwe-digital-credential/src/util.rs:55-60 | the value below all tags is untagged; an untagged value is itself |
| `Cbor.GetIsMember` | crates/ewqwe-digital-credential/src/util.rs:79-84 | a key found by the lookup is an entry of the map |
| `Cbor.GetAt` | crates/ewqwe-digital-credential/src/util.rs:79-84 | the lookup returns the first entry with the key |
| `CborCodec.DecodeEncode` | crates/ewqwe-digital-credential/src/util.rs:9-14 | decoding what was encoded gives the value and exactly the bytes that followed, for every encodable value |
| `CborCodec.RoundTrip` | crates/ewqwe-digital-credential/src/mdoc_decoder.rs:220-241 | reading undoes writing whatever trails, so an encoding nested in a byte string reads back |
| `CborCodec.EncodeInjective` | crates/ewqwe-digital-credential/src/util.rs:9-14 | encodings are prefix-free and injective |
| `CborCodec.Rfc8949Integers` | crates/ewqwe-digital-credential/src/util.rs:9-14 | integer encodings listed in Appendix A of RFC 8949 |
| `CborCodec.Rfc8949WideIntegers` | crates/ewqwe-digital-credential/src/util.rs:9-14 | integers of four and eight bytes encode as in Appendix A of RFC 8949 |
| `CborCodec.Rfc8949Atoms` | crates/ewqwe-digital-credential/src/util.rs:9-14 | simple value, string and tag encodings listed in Appendix A of RFC 8949 |
| `CborCodec.Rfc8949Containers` | crates/ewqwe-digital-credential/src/util.rs:9-14 | array and map encodings listed in Appendix A of RFC 8949 |
| `MdocLibrary.JsonIgnoresTags` | crates/ewqwe-digital-credential/src/util.rs:114-154 | tags leave no trace in the JSON handed to the relying party |
| `MdocLibrary.DecimalReads` | crates/ewqwe-digital-credential/src/util.rs:114-154 | integers outside 64 bits are handed over as the decimal text that denotes them |
| `MdocLibrary.LastFieldWins` | crates/ewqwe-digital-credential/src/util.rs:114-154 | the last map entry with a field's name decides the field |
| `MdocClaims.ToJsonDenotes` | crates/ewqwe-digital-credential/src/util.rs:114-155 | the JSON of any value denotes it: booleans, null, texts and 64-bit integers are themselves, wider integers their decimal, bytes base64url, arrays element by element, and each map key gives a field for which its last entry decides |
| `MdocClaims.PlainIsDetermined` | crates/ewqwe-digital-credential/src/util.rs:114-155 | booleans, null, texts, 64-bit integers and arrays of them can be read back: two such values denoted by one JSON are equal |
| `MdocDecoder.ParseDocument` | crates/ewqwe-digital-credential/src/mdoc_decoder.rs:118-201 | the namespace loop computes, entry by entry, the claims of the text-keyed arrays, a later namespace replacing an earlier one |
| `MdocDecoder.CollectItems` | crates/ewqwe-digital-credential/src/mdoc_decoder.rs:143-165 | unreadable items are skipped, a later element name replaces an earlier one |
| `MdocDecoder.ClaimHasItem` | crates/ewqwe-digital-credential/src/mdoc_decoder.rs:143-165 | every collected claim comes from an item that reads as that name and value |
| `MdocDecoder.NamespaceHasEntry` | crates/ewqwe-digital-credential/src/mdoc_decoder.rs:143-165 | every collected namespace comes from one entry with that key |
| `MdocDecoder.LastItemDecides` | crates/ewqwe-digital-credential/src/mdoc_decoder.rs:143-165 | the last item that reads as a name decides its value |
| `MdocDecoder.LastEntryDecides` | crates/ewqwe-digital-credential/src/mdoc_decoder.rs:143-165 | with any number of namespaces each keeps the claims of its own last array |
| `MdocVerification.ParseDigests` | crates/ewqwe-digital-credential/src/mdoc_verification.rs:655-685 | the digest loop of one namespace, failing on the first malformed entry |
| `MdocVerification.ParseValueDigests` | crates/ewqwe-digital-credential/src/mdoc_verification.rs:655-685 | the namespace loop over valueDigests; keys that are not text are skipped |
| `MdocVerification.DigestsAreGiven` | crates/ewqwe-digital-credential/src/mdoc_verification.rs:655-685 | a digest table has exactly the ids its entries give, and for each the bytes of the last of them |
| `MdocVerification.NamespacesAreListed` | crates/ewqwe-digital-credential/src/mdoc_verification.rs:655-685 | with any number of namespaces the table has exactly those listed, each with the digests of its own last entry |
| `MdocVerification.AlgorithmsNamed` | crates/ewqwe-digital-credential/src/mdoc_verification.rs:820-841 | each digest algorithm is known by its two names in any mix of cases |
| `MdocVerification.VerifyItemDigests` | crates/ewqwe-digital-credential/src/mdoc_verification.rs:727-818 | true if and only if every text-keyed namespace has digests, is an array, and each item re-encoded hashes to the digest stored under its own digestID |
| `MdocSoundness.ParsersOpenSameDocument` | crates/ewqwe-digital-credential/src/mdoc_decoder.rs:93-201 | decoder and verifier, with different leniency on tags, open the same document, type and namespaces |
| `MdocSoundness.ClaimIsVouched` | crates/ewqwe-digital-credential/src/mdoc_verification.rs:727-818 | once the digest check holds, each claim the decoder collects, even with duplicate namespaces and skipped items, comes from an item the check covered |
| `MdocSoundness.AcceptedClaimsAreVouched` | crates/ewqwe-digital-credential/src/mdoc_verification.rs:104-248 | every claim of an accepted presentation comes from an item whose re-encoded bytes hash to the digest of the issuer's signed object under that namespace and digestID; docType and trust are the issuer's |
| `MdocClaims.EverythingSaidIsReported` | crates/ewqwe-digital-credential/src/mdoc_verification.rs:104-248 | nothing an accepted presentation says is lost: what the last item of a name in the last array of a namespace says is a field of the returned claims that denotes the value, flat for one namespace and nested for several |
| `MdocSoundness.IssuerObjectIsSigned` | crates/ewqwe-digital-credential/src/mdoc_verification.rs:139-149 | the issuer's object was read out of a payload whose signature verifies under the key of the certificate chain in the headers; trust is that chain's |
| `MdocSoundness.FewerItemsStillHold` | crates/ewqwe-digital-credential/src/mdoc_verification.rs:727-818 | dropping, repeating or reordering items and namespaces never breaks the digest check |
| `MdocSoundness.SameDigestSameClaim` | crates/ewqwe-digital-credential/src/mdoc_verification.rs:727-818 | two items vouched for under one namespace and digestID of one object are equal and read the same |
| `MdocSoundness.PresentationsAgree` | crates/ewqwe-digital-credential/src/mdoc_verification.rs:655-818 | under one issuer object, items in two lists of namespaces with one digestID read the same |
| `MdocSoundness.AcceptedPresentationsAgree` | crates/ewqwe-digital-credential/src/mdoc_verification.rs:95-248 | two presentations accepted with equal issuer objects, in any sessions and at any times: every claim of either is vouched for under a digestID, and claims of one namespace and digestID have the same name and value |
| `MdocSoundness.ConcreteCodecIsLawful` | crates/ewqwe-digital-credential/src/util.rs:9-14 | the read-back laws assumed of the CBOR library hold of the concrete codec |
| `MdocIssuing.BuildIssuerSignedItems` | crates/ewqwe-digital-credential/src/mdoc.rs:231-266 | items and digests pushed in one pass: item i is tag 24 of its encoded map, digest i the hash of that item's encoding |
| `MdocIssuing.BuildMdoc` | crates/ewqwe-digital-credential/src/mdoc.rs:40-166 | the builder's steps produce the specified presentation whenever it can read back its own device key and transcript, and fail exactly when it cannot |
| `MdocIssuing.SignedAsMeant` | crates/ewqwe-digital-credential/src/mdoc.rs:196-352 | the object and transcript the issuer builds with its own code are those the verifier reconstructs |
| `MdocRoundTrip.OpensAsBuilt` | crates/ewqwe-digital-credential/src/mdoc.rs:123-166 | the issued bytes open to the document that was built, for decoder and verifier alike |
| `MdocRoundTrip.MsoParsesAsBuilt` | crates/ewqwe-digital-credential/src/mdoc.rs:269-327 | parsing the issued MobileSecurityObject returns the digests, key, type and validity it was built from |
| `MdocRoundTrip.DigestsHoldAsBuilt` | crates/ewqwe-digital-credential/src/mdoc.rs:231-266 | every issued item passes the verifier's digest check |
| `MdocRoundTrip.DeviceDataDeterminesSession` | crates/ewqwe-digital-credential/src/mdoc_verification.rs:888-956 | the bytes the device key signs are equal for two sessions exactly when client, nonce, response URI and the unencrypted mode are equal |
| `MdocRoundTrip.SessionDecides` | crates/ewqwe-digital-credential/src/mdoc_verification.rs:888-956 | the device check of an issued document passes exactly for the session it was built for |
| `MdocRoundTrip.IssuedIsAcceptedExactly` | crates/ewqwe-digital-credential/src/mdoc.rs:40-166 | an issued presentation is accepted if and only if the verifier supplies the same client_id, nonce and response_uri unencrypted, inside the validity window, and then returns exactly the issued claims, docType and namespace |
| `MdocClaims.IssuedClaimsAreReported` | crates/ewqwe-digital-credential/src/mdoc.rs:40-166 | the claims returned for an accepted issuance have exactly the issued names, and each field denotes the value issued last under it |
| `MdocClaims.AgeIsReported` | crates/ewqwe-digital-credential/src/mdoc.rs:52-57 | an issued age_over_18 comes back as the boolean it was issued with, whichever it is |
| `MdocRoundTrip.DistinctClaimsAllReturned` | crates/ewqwe-digital-credential/src/mdoc.rs:49-66 | with distinct names the returned object has exactly the issued names, each with its issued value |
| `MdocRoundTrip.PidClaimsReturned` | crates/ewqwe-digital-credential/src/mdoc.rs:52-57 | the four fixed claims come back |
| `MdocRoundTrip.IssuedPidIsReturned` | crates/ewqwe-digital-credential/src/mdoc.rs:40-166 | the built PID is accepted exactly for its session in its window, and then reported under its document type and namespace with its four claims |
| `MdocRoundTrip.EncodableSurvives` | crates/ewqwe-digital-credential/src/util.rs:9-14 | with a lawful codec the structures of an issuance survive whenever they are encodable |
| `MdocConcrete.AllSurviveConcretely` | crates/ewqwe-digital-credential/src/mdoc.rs:40-166 | with the concrete codec every structure the builder writes reads back, for valid texts, encodable claims and lengths up to 256 MiB |
| `MdocConcrete.IssuedIsAcceptedConcretely` | crates/ewqwe-digital-credential/src/mdoc.rs:40-166 | with the concrete codec: an issued presentation is accepted exactly for its own session inside its window and returns exactly the issued claims; about the encoding only the inputs are assumed to be valid texts, encodable claims and at most 256 MiB long |
| `MdocReplay.DeviceSignedThisSession` | crates/ewqwe-digital-credential/src/mdoc_verification.rs:931-956 | a passing device check is a signature, by the key the issuer bound, over this session's payload |
| `MdocReplay.SignedForOneSessionOnly` | crates/ewqwe-digital-credential/src/mdoc_verification.rs:888-956 | a device signature that passes for two sessions means equal sessions |
| `MdocReplay.AcceptedForOneSessionOnly` | crates/ewqwe-digital-credential/src/mdoc_verification.rs:888-956 | one presentation accepted for two sessions means equal client, nonce, response URI, encryption mode and response key |
| `MdocWire.HandoverBytes` | crates/ewqwe-digital-credential/src/mdoc.rs:196-229 | the handover is hashed as client_id, nonce, thumbprint or null, response_uri, in this order and encoding, with the thumbprint only for encrypted responses |
| `MdocWire.TranscriptBytes` | crates/ewqwe-digital-credential/src/mdoc_verification.rs:888-929 | the transcript is two nulls, "OpenID4VPHandover" and the 32-byte hash of the handover, byte for byte |
| `MdocWire.SignedBytes` | crates/ewqwe-digital-credential/src/mdoc.rs:404-418 | what a COSE signature covers, byte for byte: "Signature1", protected header, no external data, payload |
| `MdocWire.AuthenticationBytes` | crates/ewqwe-digital-credential/src/mdoc_verification.rs:931-956 | what the device authenticates, byte for byte: "DeviceAuthentication", transcript, document type, tagged namespaces |
| `MdocWire.CoseIsFound` | crates/ewqwe-digital-credential/src/mdoc_verification.rs:286-297 | a COSE_Sign1 is read exactly from an array of its four parts whose headers parse |
| `MdocWire.CoseTagIsOptional` | crates/ewqwe-digital-credential/src/mdoc_verification.rs:286-297 | the tag 18 of a signature may be left out |
| `MdocWire.ChainIsFound` | crates/ewqwe-digital-credential/src/mdoc_verification.rs:299-326 | the chain under label 33, protected header first: one byte string, or an array of them in order, and nothing else |
| `MdocWire.AlgorithmIsFound` | crates/ewqwe-digital-credential/src/mdoc_verification.rs:463-481 | the algorithm under label 1, protected header first |
| `MdocWire.KeyIsFound` | crates/ewqwe-digital-credential/src/mdoc_verification.rs:958-1006 | an EC2 device key is read exactly on the curves 1 to 3 |
| `MdocWire.NameSpacesAreOneEncoding` | crates/ewqwe-digital-credential/src/mdoc_verification.rs:843-886 | the device namespaces are the same signed bytes as bytes, as tagged bytes or as the value; left out, the empty map |
| `MdocWire.PartsAreFound` | crates/ewqwe-digital-credential/src/mdoc_verification.rs:607-725 | the parts of a document and of the issuer object are found under their names below any tags |
| `MdocWire.FormsAreRead` | crates/ewqwe-digital-credential/src/mdoc_verification.rs:607-625 | the issuer object may be bare, bytes or tagged bytes, an item bytes or tagged bytes |
| `MdocWire.DigestIdIsFound` | crates/ewqwe-digital-credential/src/mdoc_verification.rs:727-818 | the digestID an item states is a 64-bit integer under that name |
| `MdocWire.FirstDocumentIsOpened` | crates/ewqwe-digital-credential/src/mdoc_verification.rs:261-284 | of several documents decoder and verifier open the first |
| `MdocWire.BareDocumentIsOpened` | crates/ewqwe-digital-credential/src/mdoc_verification.rs:261-284 | both also open a document that stands by itself |
| `MdocWire.EachBase64IsTried` | crates/ewqwe-digital-credential/src/mdoc_verification.rs:254-259 | base64url without padding, then padded, then standard base64 |
| `TransactionStore.InMemoryTransactionStore.constructor` | crates/ewqwe-openid4vp/src/stores/memory.rs:14-27 | a new store is empty |
| `TransactionStore.InMemoryTransactionStore.Set` | crates/ewqwe-openid4vp/src/stores/memory.rs:30-45 | stores the row, or refuses it exactly when another row has its state |
| `TransactionStore.InMemoryTransactionStore.Get` | crates/ewqwe-openid4vp/src/stores/memory.rs:47-49 | the row with this id |
| `TransactionStore.InMemoryTransactionStore.Find` | crates/ewqwe-openid4vp/src/stores/memory.rs:51-59 | a scan in any order finds the one row with this state, or none |
| `TransactionStore.InMemoryTransactionStore.Delete` | crates/ewqwe-openid4vp/src/stores/memory.rs:61-63 | removes the row and reports whether there was one |
| `TransactionStore.InMemoryTransactionStore.Update` | crates/ewqwe-openid4vp/src/stores/memory.rs:70-82 | applies the change to the row with this id only |
| `TransactionStore.InMemoryTransactionStore.UpdateStatus` | crates/ewqwe-openid4vp/src/stores/memory.rs:65-68 | changes the status of the row with this id only |
| `TransactionStore.InMemoryTransactionStore.UpdateByState` | crates/ewqwe-openid4vp/src/stores/memory.rs:84-96 | applies the change to the row with this state only |
| `TransactionStore.InMemoryTransactionStore.CheckExpired` | crates/ewqwe-openid4vp/src/stores/memory.rs:98-112 | absent or past its time; a row past its time is removed |
| `TransactionStore.SetKeepsKeyed` | crates/ewqwe-openid4vp/src/transaction.rs:70-106 | setting a row keeps states pairwise distinct |
| `TransactionStore.OpenId4VpService.constructor` | crates/ewqwe-openid4vp/src/service.rs:146-193 | a service starts with an empty store and its configured time to live |
| `TransactionStore.OpenId4VpService.InitTransaction` | crates/ewqwe-openid4vp/src/service.rs:210-316 | succeeds exactly for a valid query and a state no other row has; then one row is added, whose every field is named: Pending, without response or error, created now and expiring 1000 times the time to live later |
| `TransactionStore.OpenId4VpService.HandleWalletResponse` | crates/ewqwe-openid4vp/src/service.rs:506-556 | sets response and Received on the row of the response's state, whatever its status was |
| `TransactionStore.OpenId4VpService.HandleWalletError` | crates/ewqwe-openid4vp/src/service.rs:564-589 | sets error and Error on the row of the error's state |
| `TransactionStore.OpenId4VpService.GetTransactionStatus` | crates/ewqwe-openid4vp/src/service.rs:595-653 | Expired for absent or overdue rows, else what the row says; removes an overdue row |
| `TransactionStore.OpenId4VpService.MarkTransactionVerified` | crates/ewqwe-openid4vp/src/service.rs:682-686 | sets Verified on the row if it is still there |
| `TransactionStore.OpenId4VpService.ConsumeTransactionByState` | crates/ewqwe-openid4vp/src/service.rs:691-697 | removes exactly the row found by state |
| `TransactionLifecycle.FreshIsCreatable` | crates/ewqwe-openid4vp/src/service.rs:210-316 | the row init_transaction makes is one a run may create, and making it is that step |
| `TransactionLifecycle.FreshIsPending` | crates/ewqwe-openid4vp/src/service.rs:595-653 | a poll of a new transaction reports Pending, with the whole seconds left, exactly until created_at plus 1000 times the time to live in seconds; after that Expired, and the row is gone |
| `TransactionLifecycle.PostedIsReceived` | crates/ewqwe-openid4vp/src/service.rs:506-556 | a response posted for the row's state changes status and response only, and polls in time report it with the row's nonce |
| `TransactionLifecycle.FailedIsError` | crates/ewqwe-openid4vp/src/service.rs:564-589 | an error posted for the row's state, or without a state for an empty one, is what polls in time report |
| `TransactionLifecycle.UnknownStateChangesNothing` | crates/ewqwe-openid4vp/src/service.rs:506-589 | a message for a state no row has changes nothing |
| `TransactionLifecycle.MarkedIsVerified` | crates/ewqwe-openid4vp/src/service.rs:682-686 | a marked row is reported Verified while it is in time |
| `TransactionLifecycle.ConsumedIsGone` | crates/ewqwe-openid4vp/src/service.rs:691-697 | a consumed transaction is Expired for every later poll |
| `TransactionLifecycle.MessageSteps` | crates/ewqwe-openid4vp/src/service.rs:506-589 | in a run a response or error changes status and message of the row of its state and nothing else, whatever that row's status |
| `TransactionLifecycle.TwoStepPostIsOne` | crates/ewqwe-openid4vp/src/stores/sqlite.rs:139-163 | left alone, the two steps of a response in the SQLite store do what the one step does |
| `TransactionLifecycle.TwoStepPostErrorIsOne` | crates/ewqwe-openid4vp/src/stores/sqlite.rs:139-163 | the same for a wallet error |
| `TransactionLifecycle.TwoStepMarkIsOne` | crates/ewqwe-openid4vp/src/stores/sqlite.rs:139-163 | the same for the mark that ends a poll |
| `TransactionRuns.StepKeepsInv` | crates/ewqwe-openid4vp/src/service.rs:506-697 | each step, atomic or half of a two-step update, keeps states distinct, identities fixed, and each status justified by a past message |
| `TransactionRuns.EveryRunKeepsRows` | crates/ewqwe-openid4vp/src/service.rs:538-697 | in every interleaving: fields fixed at creation never change, stored queries are valid, Received has a response for the row's own state, Error a wallet error for it, Verified an accepted response posted for it, and lookup by state finds the row |
| `TransactionRuns.EveryPollReportsItsOwn` | crates/ewqwe-openid4vp/src/service.rs:595-653 | a poll returns a response only if it was posted for this row's own state, with the nonce fixed at creation, and an error only if it was reported for this row |
| `TransactionRuns.PollsCountDown` | crates/ewqwe-openid4vp/src/service.rs:595-653 | of any two polls of a run that find the transaction live: expires_in is at most the time to live, non-negative with one clock reading and with a later second one exactly until a second past expiry, and never increases |
| `TransactionRuns.RunChecksItself` | crates/ewqwe-credential-verifier-ui/src/routes.rs:366-409 | in every run whose write-backs never bring back a removed row, as all runs with atomic updates, Verified means an accepted response was checked against this very transaction |
| `TransactionRuns.RestoredRowUnchecked` | crates/ewqwe-openid4vp/src/stores/sqlite.rs:139-163 | a concrete two-step run that brings a removed row back ends with the row Verified and no response ever accepted for any transaction, for every token accepted without a transaction |
| `TransactionRuns.ExpiredRowUnchecked` | crates/ewqwe-openid4vp/src/stores/sqlite.rs:139-163 | the same without a deletion: the row expires between read and write-back, and the token is accepted without a transaction later |
| `TransactionRuns.AtomicNeverRestores` | crates/ewqwe-openid4vp/src/stores/memory.rs:70-96 | with atomic updates no step brings back a removed row |
| `UncheckedRows.StepKeepsSafe` | crates/ewqwe-openid4vp/src/stores/sqlite.rs:139-163 | a transaction that is not at risk of standing Verified unchecked never becomes so, whatever step follows |
| `UncheckedRows.UncheckedIffAtRisk` | crates/ewqwe-openid4vp/src/stores/sqlite.rs:139-163 | for every verdict that looks only at the session: a transaction can come to stand Verified without an accepted verification for its session if and only if it is not yet checked, is stored or about to be written back, and is Verified already, carried there by a task, or in time while some token can be accepted without its session |
| `TransactionRuns.ReappearsIffWriteBackPending` | crates/ewqwe-openid4vp/src/stores/sqlite.rs:139-163 | a removed transaction can be polled as live again if and only if a two-step update read it before and its time is not over |
| `TransactionRuns.AtomicRunsExpireForGood` | crates/ewqwe-openid4vp/src/transaction.rs:103-105 | with atomic updates a consumed or expired id is reported expired by every later poll |
| `TransactionRuns.RecordedWereAccepted` | crates/ewqwe-credential-verifier-ui/src/routes.rs:366-409 | every recorded acceptance was a verdict of the verifier at that time against that lookup |
| `VpTokens.SdJwtHoldsIffAccepted` | crates/ewqwe-openid4vp/src/verification.rs:196-278 | the verdict computed from the decoder's nonce equals the one about the signed nonce |
| `VpTokens.AcceptsIffAdmitted` | crates/ewqwe-openid4vp/src/verification.rs:313-419 | the poll accepts a token for a found transaction exactly when it is an mDoc of a trusted issuer valid for that session, an SD-JWT accepted for its nonce, or unexpired plain JSON naming an issuer |
| `VpTokens.ClientMustMatch` | crates/ewqwe-openid4vp/src/verification.rs:313-345 | a client_id that is supplied must be the transaction's, and then plays no further part |
| `VpTokens.BoundIffCarriesBinding` | crates/ewqwe-openid4vp/src/verification.rs:196-278 | an admitted token is bound to the transaction, as an mDoc signed for its session or by the nonce under the Key Binding signature, if and only if it is an mDoc or an SD-JWT in which the decoder found a nonce |
| `VpTokens.ReturnedClaimsAreBacked` | crates/ewqwe-openid4vp/src/verification.rs:313-419 | of an accepted token each returned claim is vouched for by the object a trusted issuer signed (mDoc), or is a clear claim a trusted issuer signed or what the last disclosure of its name says (SD-JWT); of plain JSON nothing is claimed |
| `VpTokens.AcceptsAloneIffAdmitted` | crates/ewqwe-openid4vp/src/verification.rs:313-419 | when no transaction is found: never an mDoc, an SD-JWT exactly when accepted without a server nonce, plain JSON exactly when unexpired and naming an issuer |
| `VpTokens.VerdictDependsOnSession` | crates/ewqwe-openid4vp/src/verification.rs:313-419 | the verdict is the same for any two transactions with equal client, nonce, response URI and response mode |
| `VpTokens.UncheckedVerifiedIffAtRisk` | crates/ewqwe-credential-verifier-ui/src/routes.rs:366-409 | in every reachable state, with the verdict of the poll: a Verified row never checked for its session is reachable if and only if the transaction is at risk now, with acceptance spelled out as admission alone or for another session |
| `VpTokens.SafeVerifiedMeansAdmitted` | crates/ewqwe-credential-verifier-ui/src/routes.rs:366-409 | from a state in which the transaction is not at risk, after any steps at all, Verified means some response for its own state had a token admitted for it, which is bound to its session exactly when it carries a binding |
| `VpTokens.AdmittedAloneGoesUnchecked` | crates/ewqwe-openid4vp/src/stores/sqlite.rs:139-163 | the concrete restoring runs with the verdict of the poll, with a deletion and with expiry: every token admitted without a transaction leaves a Verified row no accepted verification was made for |
| `VpTokens.VerifiedMeansAdmitted` | crates/ewqwe-credential-verifier-server/src/server/verify_endpoint.rs:482-500 | in every run whose write-backs never bring back a removed row a Verified transaction had a response posted for its own state whose token is admitted for it, and bound to its session exactly when it carries a binding |
| `VpTokens.OneMdocOneSession` | crates/ewqwe-digital-credential/src/mdoc_verification.rs:888-956 | one mDoc presentation is admitted for transactions of one client, nonce and response URI only |
| `VpTokens.PollDecides` | crates/ewqwe-credential-verifier-ui/src/routes.rs:366-409 | a response posted and polled without interference changes that row only: removed when overdue, else Verified exactly when the verdict accepts the response against it |
| `VpTokens.PollVerifiesAdmitted` | crates/ewqwe-credential-verifier-ui/src/routes.rs:366-409 | posted and polled without interference, a response turns its transaction Verified exactly when the transaction is in time and the token is admitted for it |
| `VpTokens.PlainJsonVerifies` | crates/ewqwe-credential-verifier-ui/src/routes.rs:366-409 | plain JSON that names an issuer and no expiry turns any transaction that is in time Verified, though it is bound to no session |
| `VpTokens.PlainJsonIsReturned` | crates/ewqwe-openid4vp/src/verification.rs:281-305 | what is returned for plain JSON: its claims, else its namespaces, else nothing |
| `VpTokens.PresentedSdJwtVerifiesExactly` | crates/ewqwe-openid4vp/src/verification.rs:196-278 | an SD-JWT put together from its parts, posted and polled, turns its transaction Verified if and only if the transaction is in time, a trusted issuer signed claims that are in time, and the Key Binding JWT, if there is one, is signed under the bound key and names no other nonce |
| `VpTokens.PresentedSdJwtIsReturned` | crates/ewqwe-openid4vp/src/verification.rs:281-419 | what is returned for it: the disclosed claims, the last disclosure of a name deciding, and the clear claims nobody discloses |
| `VpTokens.IssuedMdocVerifiesExactly` | crates/ewqwe-digital-credential/src/mdoc.rs:40-166 | an issued mDoc, posted and polled, turns a transaction Verified if and only if the transaction is in time and it was issued for that transaction's session, unencrypted, within validity, by a trusted issuer |
| `QrOwners.QrUserMap.constructor` | crates/ewqwe-credential-verifier-ui/src/qr_user_map.rs:31-35 | a new owner map is empty |
| `QrOwners.QrUserMap.Insert` | crates/ewqwe-credential-verifier-ui/src/qr_user_map.rs:37-56 | drops the entries that are past their time, then adds the new one |
| `QrOwners.QrUserMap.Get` | crates/ewqwe-credential-verifier-ui/src/qr_user_map.rs:60-67 | the entry if it is present and in time |
| `QrOwners.InsertionPrunes` | crates/ewqwe-credential-verifier-ui/src/qr_user_map.rs:37-56 | an insertion leaves no entry behind that is past its time |
| `QrOwners.PruningInvisible` | crates/ewqwe-credential-verifier-ui/src/qr_user_map.rs:36-67 | on a monotone clock the pruned map answers every lookup as a map that is never pruned |
| `QrOwners.OwnerStays` | crates/ewqwe-credential-verifier-ui/src/qr_user_map.rs:36-67 | insertions for other transactions never hide an owner before its time |
| `QrOwners.OwnerKnownWhileLive` | crates/ewqwe-credential-verifier-ui/src/routes.rs:307-315 | the owner is known whenever the transaction can be polled if and only if the entry was written in a later millisecond than the transaction |
| `QrOwners.OwnerForgottenFirst` | crates/ewqwe-credential-verifier-ui/src/routes.rs:357-361 | a last instant in which the transaction is found but its owner is not |
| `QrOwners.GenerateQr` | crates/ewqwe-credential-verifier-ui/src/routes.rs:215-330 | creates the transaction, then records its owner; on failure neither changes |
| `QrOwners.QrStatus` | crates/ewqwe-credential-verifier-ui/src/routes.rs:336-409 | Forbidden if and only if there is a live owner entry of somebody else and the user is no administrator; otherwise status, verification and mark, each with its own clock reading, with the whole new store |
| `QrOwners.RefusedExactly` | crates/ewqwe-credential-verifier-ui/src/routes.rs:351-364 | after generate_qr and any insertions for other transactions exactly those are refused who neither started the transaction nor are administrators, until the owner entry lapses; the one who started it never is |
| `QrOwners.AnswersExactly` | crates/ewqwe-credential-verifier-ui/src/routes.rs:366-409 | whoever is not refused gets the verdict asked in the name of the owner when a live row holds a response and there is a verifier, otherwise what the row says, Expired when it is overdue or absent; the store changes only by the mark or by the removal of an overdue row |
| `QrOwners.AnswerIsThreeSteps` | crates/ewqwe-credential-verifier-ui/src/routes.rs:366-409 | without interference an answer does to the store what read, verify and mark of a poll do in the runs |
| `QrOwners.StrangersRefused` | crates/ewqwe-credential-verifier-ui/src/routes.rs:351-364 | until the time to live has passed a non-admin who did not start the transaction is answered Forbidden and nothing changes, whatever was inserted meanwhile |
| `QrOwners.OwnerIsNamed` | crates/ewqwe-credential-verifier-ui/src/routes.rs:307-330 | until it lapses the entry names the user who started the transaction and his email |
| `SdJwt.SplitJoin` | crates/ewqwe-digital-credential/src/sd_jwt_verification.rs:95-150 | splitting is undone by joining and no piece contains the separator |
| `SdJwt.SplitAtFirst` | crates/ewqwe-digital-credential/src/sd_jwt_verification.rs:90-93 | issuer JWT and segments are the two sides of the first separator |
| `SdJwt.DecodePresentation` | crates/ewqwe-digital-credential/src/sd_jwt_verification.rs:83-209 | the segment loop updating claims and nonce |
| `SdJwt.LastDisclosureWins` | crates/ewqwe-digital-credential/src/sd_jwt_verification.rs:127-195 | a decoded claim is a clear issuer claim or a disclosed one; the last disclosure of a name decides its value |
| `SdJwt.NonceOfLastKb` | crates/ewqwe-digital-credential/src/sd_jwt_verification.rs:149-171 | however many segments look like KB-JWTs, the nonce kept is that of the last one if its payload reads |
| `SdJwt.DecodedNonceIsSigned` | crates/ewqwe-digital-credential/src/sd_jwt_verification.rs:440-494 | when the checked KB-JWT verifies, the decoder's nonce is exactly the nonce claim under that signature |
| `SdJwt.AcceptedPayloadIsSigned` | crates/ewqwe-digital-credential/src/sd_jwt_verification.rs:229-323 | of an accepted token the claims the decoder read unverified are those verified under the key of a trusted certificate |
| `SdJwt.AcceptedNonceIsSigned` | crates/ewqwe-digital-credential/src/sd_jwt_verification.rs:440-494 | the decoder's nonce of an accepted token is the signed one and, if there is one, the server's |
| `SdJwt.AcceptedTokenIsBacked` | crates/ewqwe-digital-credential/src/sd_jwt_verification.rs:83-209 | type, issuer and times of an accepted token are those of the verified payload, and each claim is a clear claim of it or what the last disclosure of its name says |
| `SdJwt.VerifyKbJwt` | crates/ewqwe-digital-credential/src/sd_jwt_verification.rs:440-494 | valid exactly when there is no KB-JWT or the last one verifies under the holder key; one error exactly when not |
| `SdJwt.VerifySignatures` | crates/ewqwe-digital-credential/src/sd_jwt_verification.rs:229-323 | issuer and KB-JWT verdicts characterised; no error recorded exactly when both hold |
| `SdJwt.CheckSignatures` | crates/ewqwe-openid4vp/src/verification.rs:252-268 | valid unless the signature pass ran and a signature failed; no error is left exactly when there was none before, both hold and the pass left none |
| `SdJwt.VerifyVpToken` | crates/ewqwe-openid4vp/src/verification.rs:196-278 | valid exactly when every check passes; the error list is empty exactly when it is valid and the signature pass left no error |
| `SdJwt.VerifyAgainst` | crates/ewqwe-openid4vp/src/verification.rs:313-419 | the SD-JWT path end to end: valid exactly when the error list is empty, exactly when the token is accepted for the server's nonce |
| `SdJwtPresentations.KbJwtIsThreeParts` | crates/ewqwe-digital-credential/src/sd_jwt_verification.rs:154-157 | a segment is taken for a Key Binding JWT if and only if it starts with "eyJ" and is three parts between dots |
| `SdJwtPresentations.KbJwtIsFound` | crates/ewqwe-digital-credential/src/sd_jwt_verification.rs:440-452 | in a presentation put together from issuer JWT, disclosures and Key Binding JWT, that JWT is the one found; without one none is found |
| `SdJwtPresentations.PresentedIsAcceptedExactly` | crates/ewqwe-digital-credential/src/sd_jwt_verification.rs:229-494 | accepted for a nonce if and only if a trusted issuer signed claims in time and the Key Binding JWT, if there is one, is signed under cnf.jwk of those claims and names that nonce or none |
| `SdJwtPresentations.ForeignKbJwtIsRefused` | crates/ewqwe-digital-credential/src/sd_jwt_verification.rs:440-494 | a Key Binding JWT that names another nonce, or is not signed under the bound key, makes the presentation refused |
| `SdJwtPresentations.PresentedClaims` | crates/ewqwe-digital-credential/src/sd_jwt_verification.rs:112-195 | the claims are those the disclosures open to, the last of a name deciding, and the issuer's clear claims but for twelve names that describe the token |
| `Dcql.CheckReferences` | crates/ewqwe-openid4vp/src/types.rs:438-470 | all references are declared, or the one reported is referenced and undeclared |
| `Dcql.CheckClaims` | crates/ewqwe-openid4vp/src/types.rs:406-450 | the claim loops decide the declarative claim rules; a reported violation is a real one of its kind |
| `Dcql.CheckCredential` | crates/ewqwe-openid4vp/src/types.rs:388-450 | the rules of one credential query |
| `Dcql.IsValid` | crates/ewqwe-openid4vp/src/types.rs:360-475 | Ok exactly when the declarative rules hold; an error names a violation that is really there |
| `Dcql.WhichCredentialMayBeAdded` | crates/ewqwe-openid4vp/src/types.rs:360-400 | to a valid query a bare credential may be added exactly with a new, non-empty id of the permitted characters; empty authorities and claim sets without claims are refused, as is a query without credentials |
| `Dcql.WhichClaimMayBeAdded` | crates/ewqwe-openid4vp/src/types.rs:406-437 | a claim may be added without an id, or with a new well-formed one |
| `Dcql.WhichClaimSetsMayBeAdded` | crates/ewqwe-openid4vp/src/types.rs:438-450 | claim sets may be added exactly when every claim has an id and the sets name no others |
| `Dcql.WhichClaimsBelong` | crates/ewqwe-openid4vp/src/types.rs:388-450 | claims belong to a valid query exactly when they are valid with their claim sets |
| `Dcql.WhichSetsMayBeRequired` | crates/ewqwe-openid4vp/src/types.rs:452-475 | credential sets may be required exactly when there is one and all options name declared credentials |
| `Dcql.IsValidDcqlQuery` | typescript/ewqwe-digital-identity/src/dcql.ts:436-537 | the TypeScript loops, with their own Sets and boolean returns, accept exactly when the rules hold with the ASCII identifier class |
| `Dcql.ClaimBlockIsValid` | typescript/ewqwe-digital-identity/src/dcql.ts:478-515 | its claim block decides the claim rules |
| `Dcql.OptionsAreDeclared` | typescript/ewqwe-digital-identity/src/dcql.ts:518-534 | its three nested reference loops accept exactly when every referenced credential is declared |
| `Dcql.IdsAgree` | typescript/ewqwe-digital-identity/src/dcql.ts:440-440 | the regular expression accepts an id exactly when the Unicode test does and the id is ASCII |
| `Dcql.ValidatorsAgreeOnAscii` | typescript/ewqwe-digital-identity/src/dcql.ts:436-537 | the TypeScript validator accepts exactly the queries the Rust one accepts whose ids are ASCII |
| `ConcatKdf.ConcatKdfSha256` | crates/ewqwe-openid4vp/src/crypto.rs:702-750 | the hasher updates compute the leading bytes of one round |
| `ConcatKdf.OneRoundIsEnough` | crates/ewqwe-openid4vp/src/crypto.rs:702-750 | for byte-aligned keys up to 256 bits one round is the whole multi-round construction |
| `ConcatKdf.AppendixC` | crates/ewqwe-openid4vp/src/crypto.rs:702-750 | the hashed bytes of the example in Appendix C of RFC 7518: counter, secret, algorithm, apu, apv, key length, each field after its length |
| `ConcatKdf.InputDeterminesFields` | crates/ewqwe-openid4vp/src/crypto.rs:702-750 | the hashed bytes determine secret, algorithm, party fields and key length, an absent party field counting as empty |
| `PemChain.TrimRemovesSpace` | crates/ewqwe-openid4vp/src/crypto.rs:86-107 | trimming removes all whitespace at both ends and nothing else |
| `PemChain.ParsePemCertChain` | crates/ewqwe-openid4vp/src/crypto.rs:86-107 | the scanning loop computes the fold of its line step |
| `PemChain.ParseUndoesPrint` | crates/ewqwe-openid4vp/src/crypto.rs:86-107 | for any lines: the scanner returns the bodies in order if and only if no END marker occurs outside the blocks |
| `PemChain.LinesUndoPrint` | crates/ewqwe-openid4vp/src/crypto.rs:86-107 | splitting into lines undoes joining with either line ending |
| `PemChain.LinesUndoPrintUnended` | crates/ewqwe-openid4vp/src/crypto.rs:86-107 | also when the last line has no line ending |
| `PemChain.ParseUndoesPrintedText` | crates/ewqwe-openid4vp/src/crypto.rs:86-107 | parsing a printed text, with any bodies, wrapping, whitespace, line endings and text between blocks, and the last line ended or not, returns the bodies in order if and only if no END marker occurs outside the blocks |
| `PemChain.CertificateText` | crates/ewqwe-openid4vp/src/crypto.rs:86-107 | one certificate between the marker lines as RFC 7468 spells them is found |
| `PemChain.WholeMarkers` | crates/ewqwe-openid4vp/src/crypto.rs:86-107 | a line is a marker exactly when, trimmed, it begins with the whole marker text |
| `DerSpki.ReadTlvBounds` | typescript/ewqwe-digital-identity/src/attestation.ts:222-236 | the length loop with 32-bit shifts computes the stated bounds |
| `DerSpki.BoundsInvertDerLength` | typescript/ewqwe-digital-identity/src/attestation.ts:222-236 | it inverts the DER length encoding if and only if the body is below 2^31 bytes |
| `DerSpki.FindEnclosingSequence` | typescript/ewqwe-digital-identity/src/attestation.ts:201-216 | the nearest SEQUENCE at or before the content whose extent covers it |
| `DerSpki.EnclosingOfBody` | typescript/ewqwe-digital-identity/src/attestation.ts:201-216 | from the algorithm identifier's body, whose length may take one to three octets, the scan stops at the structure's header, or early inside a misleading length |
| `DerSpki.CutIsWhole` | typescript/ewqwe-digital-identity/src/attestation.ts:167-198 | what is cut out where the scan stops is the whole structure exactly when the length is not misleading |
| `DerSpki.ExtractSpki` | typescript/ewqwe-digital-identity/src/attestation.ts:167-198 | the OID search loop with its labelled continue |
| `DerSpki.ExtractsSpkiExactly` | typescript/ewqwe-digital-identity/src/attestation.ts:167-236 | when the EC OID first occurs inside a SubjectPublicKeyInfo below 64 KiB, with any parameters, exactly that structure is returned if and only if its length is not misleading for that identifier length and the OID does not end the input; below 256 bytes no length is misleading |
| `DerSpki.EcOidIsIdEcPublicKey` | typescript/ewqwe-digital-identity/src/attestation.ts:160-180 | the bytes searched for are 1.2.840.10045.2.1 |

## Left out

- MdocRoundTrip.IssuedIsAcceptedExactly: takes base64, the CBOR read-back of the structures involved, COSE header parsing and the ideal signatures as hypotheses; `MdocConcrete.IssuedIsAcceptedConcretely` discharges the CBOR part for the concrete codec.
- MdocConcrete.IssuedIsAcceptedConcretely: no text, byte string, encoded claim or number of claims above 2^28; the format itself allows 2^64.
- MdocReplay.AcceptedForOneSessionOnly: assumes of this document's device signature that it is not good for two different payloads, and of the two handovers that they do not collide.
- MdocSoundness.AcceptedPresentationsAgree: assumes that no re-encoded item of one presentation collides with one of the other under the object's hash.
- CborCodec.DecodeEncode: floats, indefinite lengths, bignum tags and the library's nesting limit are outside the concrete codec; the mDoc theorems take the CBOR library as a parameter and do not depend on it.
- VpTokens.VerifiedMeansAdmitted: for runs whose write-backs never bring back a removed row; `VpTokens.UncheckedVerifiedIffAtRisk` and `VpTokens.SafeVerifiedMeansAdmitted` decide all runs from the present state. The lookup and the verdict of a verification are one step, and a poll reads the clock once.
- VpTokens.AcceptsIffAdmitted: which entry of a token with several credentials is verified depends on hash map order and is a parameter, as is reading plain JSON tokens; claims of other entries are not modelled.
- TransactionRuns.RestoredRowUnchecked: a deletion stands for the endpoint that consumes a transaction (`verify_endpoint.rs` 303-311) and may come at any time; in the repository it follows an accepted verification of that endpoint, which the model does not record as an acceptance. `ExpiredRowUnchecked` needs no deletion. A new transaction may have any client, nonce and response URI.
- VpTokens.ReturnedClaimsAreBacked: nothing stands behind the claims of plain JSON, and disclosures are not tied to the issuer's signature (see `SdJwt.DecodePresentation`).
- SdJwtPresentations.PresentedIsAcceptedExactly: for presentations whose disclosures contain no dot, as base64url text does not, and whose Key Binding JWT starts "eyJ" with two dots; what else may stand between the separators is covered by the theorems of `SdJwt`.
- MdocClaims.ToJsonDenotes: floats go through the JSON library, a parameter; text and bytes may denote the same JSON string.
- SdJwt.DecodePresentation: disclosures are not matched against `_sd` digests, because the code does not do it; JWT internals (headers, algorithms, expiry leeway) are parameters.
- JournalStore.SqliteJournalStore.AppendEntry: storage failures other than a refused unique key are not modelled; the transaction around check and writes makes it one step.
- JournalAppend.AppendVerification: the other appenders are given as lists of entries per attempt; `JournalRuns` has them as callers of the same kind.
- TransactionStore.OpenId4VpService.GetTransactionStatus: a row that vanishes between the expiry check and the read cannot occur in the sequential method; `TransactionRuns` lets rows vanish between any two steps.
- TransactionStore.OpenId4VpService.constructor: the service runs over the in-memory store; the SQLite store appears as two-step updates in `TransactionRuns`.
- TransactionStore.OpenId4VpService.InitTransaction: ids, states and nonces are arguments; profiles, keys, the request URI and the QR image are not modelled.
- QrOwners.QrStatus: sequential; the interleaved poll is in `TransactionRuns`. Credential-type permissions and rendering of claims are not modelled.
- DerSpki.ReadTlvBounds: called within the array, as both callers do; JavaScript's undefined first length octet is not modelled.
- Dcql.IsValid: paths, values, formats and metadata of claims play no part in the structural rules and are dropped.
- MdocVerification.VerifyPresentation: the straight-line part of the check is a function on values; only its loops are methods. Error texts are abbreviated throughout.
- X.509 chain building, elliptic curves, RSA, JWT libraries, AES-GCM and JWE: foreign code, parameters here. A detached signature that carries a payload aborts in the COSE library and is modelled as a refusal.
- Journal fields outside the hash, listing queries and attestation tokens: carried along, no chain property depends on them.
- The Postgres stores: the same contract as the SQLite ones, with other SQL.
- HTTP handlers, TLS, clients, user interface, configuration, user administration, image conversion, HPKE.
- The query builders, profile tables and legacy path conversion: only easy members.
