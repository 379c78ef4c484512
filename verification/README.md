# Sealed continuation envelopes: a Dafny model

This project models the Sealed Continuation Envelope library and states and proves what binds its bytes to the
environment they were sealed in.

* **Envelope** (`Envelope.dfy`, `Commitment.dfy`): key derivation, associated data, print and parse, `seal_state`
  and `unseal_state`.
* **Manifest** (`Utf8.dfy`, `Manifests.dfy`, `Canonical.dfy`, `ModelManifests.dfy`, `Environments.dfy`): the
  canonical encoding, its decoder, the frozen manifest object with its cached fingerprint, and key commitment carried
  through to manifests.
* **Stream** (`StreamFormat.dfy`, `Framing.dfy`, `Stream.dfy`, `StreamTheorems.dfy`): the chunked container, its
  sealing and opening loops, and the grammar they meet.
* **Runs** (`Runs.dfy`): any interleaving of seals, chunked seals, and presented bytes.
* **Clients** (`Serving.dfy`, `VerifyVectors.dfy`): the serving adapter as a refinement of a stateful server, and the
  JavaScript implementation against the Python one.

## How the foreign code enters

SHA3-256 (section 6.1 of FIPS 202), HKDF (sections 2.2 and 2.3 of RFC 5869), AES-256-GCM-SIV (sections 4 and 5 of
RFC 8452) and NFC (section 3.11 of the Unicode Standard) are function values in `Primitives.Library`. `Lawful` asks of
them only that a ciphertext is 16 bytes longer than its plaintext, that decryption yields a plaintext exactly when
encrypting it again gives the same ciphertext, and that NFC is idempotent; the type `Lib` has a witness, so the laws
are satisfiable. No hash is assumed injective. Where a proof needs a hash not to collide, the theorem hands back an
explicit collision (`FindCollision`, `FindEnvironmentCollision`) or has "no two derivations made in this run collide"
as a hypothesis. Ciphertext integrity is a hypothesis about the decryptions one run makes (`Unforged`). UTF-8 (section 3
of RFC 3629) is a real function, proved injective.

Salt, nonce and stream id are parameters of the calls that draw them. A call that raises returns `Err`; `NativeError`
stands for a Python exception outside the library's own hierarchy.

## Where the code and its documentation differ

* `CHANGELOG.md:112-119` says that a stream context of 2^32 bytes or more raises `SCEError`. The prefix in
  `sce/stream.py:82-85` has no guard, so `OverflowError` escapes. `SealStateChunked`, `OpenEscapesIff` and
  `LongContextEscapes` give the exact condition and a concrete input. A context within 74 bytes of the limit is refused
  properly, by the segment context's own length check.
* The same entry (`CHANGELOG.md:112-119`) says so of every length-prefixed path. The count of a manifest's extra entries
  has four bytes and no guard (`sce/core.py:322`), so a mapping of 2^32 entries makes `OverflowError` escape:
  `ConstructionEscapesIff` and `ManyExtrasEscape` give the exact condition and an input.
* `sce/stream.py:197-200` describes what is opened as a container produced by `seal_state_chunked`. Accepted does not
  imply produced: `OnlyTheSumIsChecked` and `UnevenContainerOpens` show that a holder of the secret can have a container
  accepted that no call prints, and `ProducedIffPlanned` says exactly which accepted containers are printed by one: those
  whose frame lengths follow the plan for their header.
* `seal_state` does not reserve the stream domain. A direct seal under a segment's binding can stand for that segment,
  in a container of its own (`DirectSealCanNameASegment`) or spliced into any place of a genuine one
  (`DirectSealCanBeSpliced`). `FrameOrigin` says that this is the only other way for a frame to open, `ReturnedIffSegments`
  exactly when a framed container was returned by a call, and `NamesNoSegment` is the guard under which all of them were;
  contexts outside the domain meet it (`OutsideDomainNamesNoSegment`), and so does the bare domain.
* In `examples/serving_adapter.py:119-134` the user's line is recorded before the call that may raise, and a state over
  the limit of one envelope makes it raise. `AnsweredIffStatesFit` and `PairedIffStatesFit` say exactly when no turn
  fails and the transcript alternates: when each state the engine is about to return fits. For the adapter's own engine
  and one model, that is when the final history fits (`AdapterAnswersIff`, from `AnsweredIffHistoryFits`).
* `examples/serving_adapter.py:124-130` rebuilds a refused conversation from the transcript, but forgets the continuation
  before the call that may raise. If that restart fails, the next `say` sends its bare message with no continuation, and
  the conversation is dropped although the transcript still holds it (`FailedRestartForgets`). `TurnAsks` says what every
  turn asks, and `ForgottenIff` exactly when a conversation is dropped.

## Model

| member | source | states |
|---|---|---|
| Runs.ContainersAreNotMalleable | sce/stream.py:189-261 | over every run with distinct stream ids, no direct seal under the binding of a presented container's segment, no decrypted forgery and no collision among its derivations, each container that opens is byte for byte one an earlier chunked seal returned for the same secret, fingerprint, epoch and context, and opens to that call's state |
| Runs.TamperedNeverOpens | sce/stream.py:121-125 | in such a run the only string carrying a call's stream id that opens, under any binding, is the container that call returned: reorder, drop with header fix-up, duplicate, splice, truncate and extend all fail closed |
| Runs.TotalAlwaysMatches | sce/stream.py:257-260 | in such a run the final length comparison never fails once all segments opened and the offset stands at the end |
| Runs.FramedWasReturned | sce/stream.py:235-256 | the same from the framing alone, without using the length check: all frames come from one call and their total is the header's |
| Runs.ReturnedIffSegments | sce/stream.py:163-170 | with no hypothesis but distinct stream ids, a framed container was returned by an earlier call for its binding if and only if each of its frames was sealed in its place by some chunked call |
| Runs.FrameWasSealed | sce/stream.py:247-251 | each frame that opens is the segment that some earlier call sealed at that index, count, total, size and stream, whatever becomes of the rest of the container |
| Runs.FrameOrigin | sce/stream.py:247-251 | with no condition on direct seals: each frame that opens was printed by an earlier seal of its part under its segment's binding, a chunked call's segment or a direct seal |
| Runs.OpenedPrefixWasReturned | sce/stream.py:235-253 | the frames that open, however many, are the first envelopes of one earlier call for the same binding and header, and their parts the first slices of its state |
| Runs.RejectedContainersBeginGenuine | sce/stream.py:229-261 | the same for every presentation and outcome: a container rejected at segment i has as its first i frames the first i envelopes of one call |
| Runs.OpenedIsLogged | sce/core.py:585-613 | a decryption that succeeds traces to one seal with the same state, salt and nonce, and the same binding or an explicit collision |
| Runs.EnvelopesAreNotMalleable | sce/core.py:560-613 | a single envelope that opens in such a run was printed by an earlier seal of that state under that binding; outside the stream domain that seal was direct |
| Runs.HonestRunMeetsHypotheses | sce/stream.py:157-168 | sealing with distinct salts and presenting the container meets all hypotheses, for every library |
| Runs.DirectSealCanNameASegment | sce/stream.py:88-106 | the guard on direct seals cannot be dropped: a direct seal can name a segment's place and its framed envelope opens with no chunked call at all |
| Runs.DirectSealCanBeSpliced | sce/stream.py:88-106 | into any place of any call's container a direct seal under that segment's binding, of a state of the segment's length, can be spliced: every other hypothesis holds and the state opens with that segment exchanged |
| Runs.SplicedNotReturned | sce/stream.py:88-106 | no event of that run returned the spliced container, unless the segment was exchanged for itself |
| Runs.OutsideDomainNamesNoSegment | sce/stream.py:98-106 | direct seals whose contexts do not begin with the stream domain, or are shorter than any segment's, meet the guard |
| StreamTheorems.OpensIffFramed | sce/stream.py:211-261 | opening returns m if and only if the bytes are a header and exactly n frames, n at least 1, one when L is 0, each opening under its own segment context, with m their concatenation of length L |
| StreamTheorems.FramingUnique | sce/stream.py:235-256 | a container has one decomposition, whatever it is opened under |
| StreamTheorems.ContainerRoundTrip | sce/stream.py:109-261 | opening undoes sealing for every state, legal size, binding, stream id and draws |
| StreamTheorems.ContainerFramed | sce/stream.py:163-170 | a sealed container is framed, its envelopes opening to the slices of its plan |
| StreamTheorems.ContainerLength | sce/stream.py:149-170 | length is 45 + 93 * max(1, ceil(L / C)) + L |
| StreamTheorems.SealedHeaderLayout | sce/stream.py:157-162 | a sealed container begins with the literal magic and version, the stream id, the segment count, the segment size and the total length |
| StreamTheorems.SealedFrameLayout | sce/stream.py:163-170 | segment i's envelope, 85 bytes longer than its part, stands behind its eight-byte length at 45 + i * (93 + C) |
| StreamTheorems.SegmentSlice | sce/stream.py:149-155 | segment i is the state from i * C to min((i + 1) * C, L) |
| StreamTheorems.SegmentSealedUnder | sce/stream.py:98-106 | that part is sealed with its own draw under the caller's secret, fingerprint and epoch and a context whose bytes are the documented domain, user context, stream id, i, count, L and C |
| StreamTheorems.SegmentOpenedUnder | sce/stream.py:247-251 | segment i is opened under those and any context with those bytes for the header's fields |
| StreamTheorems.SealClasses | sce/stream.py:136-167 | in literal numbers: exactly which chunked seals succeed, which raise a foreign exception, and that all others raise the library's own error |
| StreamTheorems.LengthTellsLength | sce/stream.py:149-170 | for one segment size, longer containers are exactly those of longer states |
| StreamTheorems.FramedLength | sce/stream.py:229-233 | everything framed satisfies the segment-count guard, so the guard refuses nothing honest |
| StreamTheorems.WorkIsBounded | sce/stream.py:229-253 | on any bytes with an admitted header, whether all segments open or one fails: the slices opened before the end are consecutive frames right behind the header, 93 bytes and its plaintext each, all inside the part read, and the segments number at most one for every nine bytes |
| StreamTheorems.OnlyTheSumIsChecked | sce/stream.py:252-260 | segments of any lengths sealed under correct contexts open if their total is the header's, else end in the mismatch |
| StreamTheorems.UnevenContainerOpens | sce/stream.py:252-261 | a container that opens although no call of the sealing function prints it |
| StreamTheorems.ProducedIffPlanned | sce/stream.py:149-170 | an accepted container is printed by some sealing call if and only if the lengths of its frames follow the plan for its header, which needs nothing opened |
| StreamTheorems.PlannedIsProduced | sce/stream.py:149-170 | that call: the opened state, the header's size and id, and the draws the envelopes record |
| StreamTheorems.PositionsHashApart | sce/core.py:390-404 | the strings hashed for two segments are equal only for equal user context, stream, index, count, total, size, epoch and fingerprint |
| StreamTheorems.FirstFailureDecides | sce/stream.py:229-261 | two containers of one length that agree up to where the first failed fail with the same error |
| StreamTheorems.UnsealErrors | sce/core.py:570-574 | opening an envelope under a usable binding fails as malformed exactly when the bytes do not parse, else with the uniform mismatch, and never with a foreign exception |
| StreamTheorems.OpenErrors | sce/stream.py:199-203 | opening a container under a binding its segments can use raises only the two documented classes |
| StreamTheorems.HeaderAdmittedIff | sce/stream.py:211-233 | a header is admitted exactly when its bytes are there, n is at least 1, 1 when L is 0, and at most a ninth of the bytes behind it; otherwise malformed |
| StreamTheorems.OpenFailsIff | sce/stream.py:235-260 | for any bytes, binding and error, exactly when opening raises it: by the frames that open and what stands where they end |
| StreamTheorems.MismatchIff | sce/stream.py:247-260 | under a binding segments can use, the uniform mismatch is raised exactly when a whole frame holding an envelope is refused, or all frames open, end on the last byte and do not add up to L; every other refusal is malformed |
| StreamTheorems.TrailingBytesAreMalformed | sce/stream.py:255-256 | a framed container with anything appended is malformed |
| StreamTheorems.TruncatedIsMalformed | sce/stream.py:239-246 | so is every proper prefix of one |
| StreamTheorems.OpenEscapesIff | sce/stream.py:82-85 | a foreign exception escapes opening if and only if the context is 2^32 bytes or longer, the header is admitted and the first frame is complete |
| StreamTheorems.LongContextEscapes | sce/stream.py:82-85 | a context of 2^32 zero bytes makes it escape both functions |
| Stream.SealStateChunked | sce/stream.py:109-170 | the loop returns the header followed by one frame for each planned slice sealed under its segment context, or the first error in the code's order |
| Stream.SealSegmentOutcome | sce/stream.py:164-167 | all segments of a call share one fate, and none is refused for its size |
| Stream.UnsealStateChunked | sce/stream.py:189-261 | the loop with its offset, parts and running length computes the outcome that the theorems above are about |
| Framing.FramesOpen | sce/stream.py:238-253 | frames that open are read back in order, and the offset lands on their end |
| Framing.OpenedFrames | sce/stream.py:238-253 | whatever the loop opens was framed: the slices it took, printed back, are the bytes it passed |
| Framing.FailureIsLocal | sce/stream.py:239-251 | a failure depends on no byte behind the point it was met at |
| Framing.FailureHasCause | sce/stream.py:239-251 | a failure is malformed framing when no whole frame stands at the offset where the opened frames end, else the error of opening exactly the string framed there as the segment reported |
| Framing.FramesAdvance | sce/stream.py:235-246 | on any bytes each frame that opens advances at least its eight-byte length and the shortest envelope that opens, and stays inside the container |
| Framing.FailedFrames | sce/stream.py:239-251 | when a run fails, the frames before the failure were framed consecutively and opened in order, and the read at the offset they end on is the one that failed |
| Framing.FramesInjective | sce/stream.py:168-169 | equally many frames with equal bytes are the same frames |
| StreamFormat.SegContextInjective | sce/stream.py:88-106 | the segment context is injective in user context, stream id, index, count, total and size |
| StreamFormat.PlaceHasOneName | sce/stream.py:98-106 | only one byte string holds the documented fields of a place |
| StreamFormat.SegContextLayout | sce/stream.py:19-23 | its fields in the documented order and widths |
| StreamFormat.StreamHeaderLayout | sce/stream.py:72-74 | the header's fields at the documented offsets |
| StreamFormat.ParseHeaderIffPrinted | sce/stream.py:173-186 | the header parses to h exactly when the first 45 bytes are h printed; any other outcome is malformed |
| StreamFormat.PlanPartitions | sce/stream.py:149-155 | the plan has max(1, ceil(L / C)) slices, the k-th from kC to min(kC + C, L), which join up to the state |
| StreamFormat.SegmentsFull | sce/stream.py:149-155 | slices are consecutive, every one but the last full, none empty unless the state is |
| StreamFormat.StreamConstantsAreNormative | sce/stream.py:67-70 | the container's constants are the specification's bytes |
| Envelope.UnsealIffSealed | sce/core.py:560-613 | an envelope opens to m if and only if sealing m with the salt and nonce it records prints it byte for byte |
| Envelope.SealRoundTrip | sce/core.py:479-613 | unsealing undoes sealing under the same binding |
| Envelope.SealSucceedsIff | sce/core.py:501-532 | which calls seal succeed, also in literal numbers, that refusals are of the library's own kind, and the 85-byte overhead |
| Envelope.UnsealClasses | sce/core.py:576-613 | in literal numbers, the exact condition of each error an envelope's opening raises |
| Envelope.KeyMaterialIs | sce/core.py:390-460 | the info string, the key and the commitment, from the literal labels and lengths |
| Envelope.SealedLayout | sce/core.py:153-168 | the fields at the documented offsets, and that the header bytes printed are the ones authenticated with fingerprint and epoch |
| Envelope.ParseIffPrint | sce/core.py:535-557 | parse and print are mutual inverses |
| Envelope.ParseIffFramed | sce/core.py:535-557 | which byte strings parse; every other one is malformed |
| Envelope.ParsePrefixFree | sce/core.py:549-552 | no accepted string is a proper prefix of another |
| Envelope.ConstantsAreNormative | sce/core.py:134-173 | the envelope's constants and limits are the specification's, in literal bytes and numbers |
| Commitment.KdfCanonicalInjective | sce/core.py:390-404 | the string hashed into the info is injective in context, epoch and fingerprint |
| Commitment.AadInjective | sce/core.py:463-473 | the associated data is injective in header, fingerprint and epoch by its fixed widths |
| Commitment.FindCollision | sce/core.py:450-460 | two different bindings with one commitment yield a real collision of SHA3-256 or of HKDF's committed half |
| Commitment.EnvelopeCommits | sce/core.py:585-613 | an envelope that opens under two bindings opens under equal ones or exposes a collision |
| Environments.FindEnvironmentCollision | sce/core.py:420-431 | the same for manifests up to NFC, with a collision of the manifest hash as one more case |
| Environments.EnvelopeBindsEnvironment | sce/core.py:585-613 | an envelope that opens in two environments opens in one environment up to NFC, or exposes a collision |
| Environments.SameEnvironmentOpensAlike | sce/core.py:308-326 | environments equal up to NFC and order of extras open the same envelopes to the same states |
| Canonical.CanonicalIffNfcEqual | sce/core.py:308-326 | for accepted manifests canonical bytes are equal if and only if the five NFC fields and the NFC extra mappings are |
| Canonical.CanonicalDecodes | sce/core.py:308-326 | a decoder recovers the normal form from canonical bytes, whatever follows them |
| Canonical.CanonicalPrefixFree | sce/core.py:308-326 | no canonical string is a proper prefix of another |
| Canonical.OrderIndependent | sce/core.py:318-325 | any two enumerations of an accepted mapping encode alike |
| Canonical.CollidingKeysDependOnOrder | sce/core.py:255-267 | in any mapping otherwise accepted, exchanging two entries whose keys normalise alike and whose values do not changes the bytes, so the collision check is what makes the encoding canonical |
| Canonical.SortIsStable | sce/core.py:318-321 | sorting puts keys in byte order and keeps the order of the values of keys that normalise alike |
| Canonical.NormalisingFirst | sce/core.py:215-226 | for every manifest, accepted or not, composing its strings beforehand changes neither which error construction raises nor one canonical byte; this is where NFC's idempotence enters |
| Canonical.CanonicalBytes | sce/core.py:308-326 | the two loops compute the canonical form, or the first error in the code's order |
| Canonical.CanonicalLayout | sce/core.py:308-326 | the bytes field by field: the literal tag, weights hash, quantization, kernel build id, tensor parallel, numerics mode, the number of extras, and each key with its value in any enumeration sorted by normalised key |
| Manifests.SortAscends | sce/core.py:318-321 | sorting puts distinct normalised keys in strictly ascending byte order |
| Manifests.AscendingUnique | sce/core.py:318-321 | a set of pairs has one ascending enumeration |
| Manifests.LessIff | sce/core.py:318-321 | the order of the sort: a proper prefix comes first, else the smaller byte where the strings first differ |
| Manifests.ManifestTagIsNormative | sce/core.py:145 | the manifest tag is the specification's bytes |
| Utf8.EncodeInjective | sce/core.py:223 | UTF-8 is injective |
| Utf8.ScalarLayout | sce/core.py:223 | each scalar's bytes: as many as its range asks for, lead and continuation bytes in their ranges, six bits each, high bits first |
| ModelManifests.ModelManifest.KeysCollide | sce/core.py:255-267 | the pass with a set of seen keys finds a collision exactly when two keys normalise alike |
| ModelManifests.ModelManifest.PostInit | sce/core.py:245-283 | construction fails exactly when the checks say so, else leaves a private copy of the mapping and the right fingerprint |
| ModelManifests.ConstructionEscapesIff | sce/core.py:318-322 | a foreign exception escapes construction if and only if the mapping has 2^32 or more entries, its keys stay distinct after NFC and the core fields fit |
| ModelManifests.ConstructionClasses | sce/core.py:245-283 | the exact condition of each outcome of construction, in literal numbers |
| ModelManifests.ManyExtrasEscape | sce/core.py:322 | a mapping of 2^32 entries that makes it escape, under every normalisation that leaves its ASCII keys as they are |
| ModelManifests.ModelManifest.Construct | sce/core.py:229-283 | the resulting object shares nothing with the caller's mapping |
| ModelManifests.ModelManifest.Memh | sce/core.py:328-335 | the cached fingerprint is the hash of freshly computed canonical bytes |
| ModelManifests.ModelManifest.Rebuild | sce/core.py:293-306 | rebuilding from the reduced form never fails and keeps fields and fingerprint |
| ModelManifests.RunProgram | sce/core.py:269-306 | over every sequence of mapping updates, constructions with any core fields, queries to any of the manifests built so far and rebuilds of any of them, each answer is the one recomputation from the fields at construction gives, and every manifest keeps its fields and fingerprint |
| ModelManifests.ActionRecorded | sce/core.py:269-335 | what each action of such a program adds: an answer is the hash of the asked manifest's canonical bytes, a build takes the mapping's items as they are then, a rebuild the fields of the manifest rebuilt |
| ModelManifests.BuiltWhen | sce/core.py:269-306 | every manifest of a program has the core fields of some build and the mapping's items at that moment, through all later changes and rebuilds |
| ModelManifests.EqualFieldsEqualFingerprint | sce/core.py:285-291 | manifests with equal fields have equal fingerprints, hence equal hashes |
| Serving.Converse | examples/serving_adapter.py:41-134 | over every interleaving of turns and updates the stateless server with its client has the outcomes and transcript of a server that keeps the state, under key binding |
| Serving.Client.Say | examples/serving_adapter.py:119-134 | one turn is one turn of the stateful reference, and the new blob stands for its session |
| Serving.TurnRecorded | examples/serving_adapter.py:119-134 | what each operation adds in every run: a turn that fits its line, the engine's reply to what it was asked and that reply as outcome, one that does not its line and the error, an update its model |
| Serving.BlobOpens | examples/serving_adapter.py:71-82 | a blob opens to its state under the model that sealed it and is refused uniformly under another |
| Serving.ServerBindingIs | examples/serving_adapter.py:71-86 | the adapter opens and seals under its secret, the model's fingerprint, epoch zero and no context |
| Serving.ChatOpens | examples/serving_adapter.py:71-88 | a continuation that is no envelope escapes as malformed, one that is refused gives the mismatch response, and one that opens is gone on from |
| Serving.ChatStarts | examples/serving_adapter.py:71-88 | an absent and an empty continuation both start from nothing |
| Serving.NextTurnAsks | examples/serving_adapter.py:119-134 | the turn right after an answered one, with any model updates between, resumes from exactly that turn's state if the model is that turn's again, else restarts with the whole transcript |
| Serving.TurnAsks | examples/serving_adapter.py:119-134 | what every turn asks, counted from the last answered turn: that turn's state if the model is the same, a restart with the whole transcript if not, and the bare message from nothing if a restart failed in between |
| Serving.FirstTurnsAsk | examples/serving_adapter.py:119-134 | before the first answered turn each turn asks its bare message from nothing, whatever failed turns the transcript holds |
| Serving.ForgottenIff | examples/serving_adapter.py:124-128 | the next turn drops a conversation whose transcript is not empty if and only if some turn failed that met no session or was a restart, and no turn was answered since |
| Serving.FailedRestartForgets | examples/serving_adapter.py:124-130 | a run of two turns around a model update after which the third message is asked bare, with three lines of transcript |
| Serving.ReplayCarries | examples/serving_adapter.py:129 | the replay message contains every transcript line in full |
| Serving.ReplaySnoc | examples/serving_adapter.py:129 | the replay is the lines in order with a bar between them |
| Serving.LineTextIs | examples/serving_adapter.py:129 | a line is its literal role, a colon and its text |
| Serving.PairedIffAllAnswered | examples/serving_adapter.py:120-133 | the transcript alternates with two lines a turn if and only if no turn raised |
| Serving.AnsweredIffStatesFit | examples/serving_adapter.py:84-88 | no turn of a run fails if and only if in every turn the state the engine is about to return fits one envelope |
| Serving.PairedIffStatesFit | examples/serving_adapter.py:119-134 | the transcript alternates, two lines a turn, if and only if in every turn that state fits |
| Serving.AnsweredIffHistoryFits | examples/serving_adapter.py:91-98 | for an engine whose state never shrinks, under one model, no turn fails if and only if the engine's own history of the messages fits at the end |
| Serving.RunsModel | examples/serving_adapter.py:91-98 | on the encoding of a history the adapter's engine returns the encoding of that history with the turn and the reply appended |
| Serving.RunModelIs | examples/serving_adapter.py:91-98 | that text, in the adapter's literal words |
| Serving.AdapterStatesDecode | examples/serving_adapter.py:93 | in every run each state the adapter's engine is handed is the encoding of a text, so decoding it never raises |
| Serving.AdapterAnswersIff | examples/serving_adapter.py:91-98 | under one model the adapter's turns are all answered if and only if its engine's history of the messages fits one envelope, whatever the replies |
| Serving.TurnsNeverFail | examples/serving_adapter.py:119-134 | no turn fails and the transcript pairs up as long as each returned state fits, and so under an engine whose states always do |
| Serving.LongStateFails | examples/serving_adapter.py:84-88 | an engine state over the limit makes the turn raise and leaves the user's line alone |
| Serving.SeparatesOrCollides | examples/serving_adapter.py:71-82 | where the key-binding hypothesis fails there is an explicit collision |
| VerifyVectors.CanonicalManifest | tools/verify_vectors.js:36-46 | the loops of the second implementation print its tag, its five core fields in its fixed order, the number of keys and each key with its value, given any order its sort may return |
| VerifyVectors.CanonicalsAgree | tools/verify_vectors.js:36-46 | for every accepted manifest both implementations print the same canonical bytes, from any key permutation and any correct sort |
| VerifyVectors.KdfInfoAgrees | tools/verify_vectors.js:57-65 | equal info strings for epochs below 2^53 |
| VerifyVectors.KeyMaterialAgrees | tools/verify_vectors.js:70-79 | equal key and commitment |
| VerifyVectors.AadAgrees | tools/verify_vectors.js:108-115 | equal associated data |

## Left out

- The insides of AES-GCM-SIV, HKDF, SHA3 and the Unicode tables, and the size limits the cryptography package itself sets.
- Confidentiality, unlinkability and timing: they are not functional properties.
- Type checks of Python arguments, `bytearray` and `memoryview` inputs, error texts and strings with lone surrogates: the model is typed.
- `seal_count`, `describe_envelope`, `describe_stream` and `explain_mismatch`: each is one branch.
- Base64, logging, printing and the reply text of the mock engine: the engine is any function from a message and a state to a reply and a state, and the adapter's own one has any rule for its replies.
- Epochs of 2^53 and above in the second implementation, which reads them from JSON as doubles.
- The second implementation's lack of a check for keys that collide after NFC: it is compared on accepted manifests only.
- The bytes of a manifest after a failed construction: the object is discarded by the exception.
- Framing of a single read (`ReadFrame`) and the header checks (`AdmitHeader`) are functions that the opening loop calls; in the source they are inline.
