# Keylime verifier: a Dafny model of its attestation core

The Keylime verifier polls remote machines. Each agent answers with a TPM quote and the next part of its IMA log; the
verifier replays that part, looks for the quoted PCR, validates every line, and remembers where it got to. The model
covers that resumable protocol over whole runs, the polling machine around it, and the binary formats under it. The
sources compute step by step, so they are modelled by classes and loops; each method is proved equal to a function of
the old state, and the theorems are lemmas about those functions.

| modules | what they model |
|---|---|
| `Bytes`, `OrderedDict`, `Crypto` | Python's bytes, text, dictionaries; hash functions and keys, uninterpreted |
| `Failures` | verdicts and severities |
| `ImaAst`, `LineParts`, `TemplateReader` | log lines and their bytes, the grammar of a line, a reader of template data |
| `Keyrings`, `DeviceMapper` | learned keys, device-mapper events |
| `AgentStates`, `Ima`, `Replay` | attestation state, the replay loop, its closed form |
| `PolicyMeaning`, `Exceptions` | which lines a policy allows, and which raise, said without the validators |
| `Persistence`, `HashChain` | database row, the PCR as a hash chain |
| `Incremental`, `Agreement` | one round against full replay: what it leaves, and when it is accepted |
| `TpmMain`, `CloudVerifierCommon` | PCR and clock verdict, one response |
| `VerifierRuns`, `IncrementalRuns` | runs of responses and restarts; the same runs against the agent's log |
| `Witnesses` | one environment and the inputs in it at which the code falls short |
| `Polling`, `PollingRuns`, `PollingTable` | the polling machine, its runs, the table of replies and the retry count |
| `Initrd`, `TpmObjects`, `TpmPublic`, `PcrBlob`, `Der`, `Dsse` | cpio scan, TPM structures, PCR blob, DER, signed envelopes |

## Main results

- **Incremental equals full.** After any run of quotes that lag behind the log or are refused, failing lists, reboots,
  wrong entries and restarts, a list that shows the log is accepted exactly when one full replay of what was shown is,
  against the same quote, and the quote stands, from the cut on, behind every line shown before
  (`IncrementalRuns.IncrementalEqualsFull`, `IncrementalRuns.NextQuoteExactly`). What it then leaves has the full
  replay's PCR, and its count and devices, or the log itself shows two inputs of the hash that clash or lead back to its
  start (`IncrementalRuns.IncrementalRefinesFull`).
- **Hash chain.** In every reachable state the stored PCR is the fold over exactly the counted lines. They are lines of
  the run's own lists, in order, each allowed by the policy with the keys and devices its round had there, with the PCR
  the lines before it had led to; and so is what a restart would load (`VerifierRuns.HashChainInvariant`). The PCR pins
  what those lines say, or two inputs that clash can be named (`HashChain.SameCutSameLog`).
- **Lines.** A line adds no failure exactly when it is allowed: an entry of PCR 10 that is a tolerated violation, or whose
  template hash fits and whose file, signature, key, buffer or device event the policy lists or excuses
  (`PolicyMeaning.LineAllowedExactly`, `DeviceMapper.EntryAllowedExactly`). What parses as an entry is said by a grammar
  (`LineParts.EntryExactly`), and an independent reader of the kernel's layout finds in the hashed bytes the entry's
  fields and nothing else (`TemplateReader.TemplateReads`).
- **Keys and clock.** Cached key, cached payload message and recorded clock stay coherent over every run
  (`VerifierRuns.KeyCacheCoherent`, `VerifierRuns.ClockMonotone`).
- **Polling.** The final raise of the polling function is reached exactly by agents that failed recoverably below the
  top severity; when the tenant's stop is honoured is decided exactly (`PollingRuns`). What each reply does is given as a
  table; the retry counter is the number of retries in a row, and an agent is given up exactly at one too many
  (`PollingTable.RetriesAreCounted`, `PollingTable.GivenUpExactly`).
- **Formats.** Decoders and encoders are proved inverse, most of them in both directions, and the conditions under
  which the code is not an inverse are proved to be exact.

## What is false of the code

For each item the condition under which the code falls short is proved to be exact; `Witnesses` has the inputs of the
first items, worked out.

- Blank lines before the match are counted, so the verifier asks for the wrong entry: `HashChain.BlankLinesExactly`; an
  input: `Witnesses.BlankLine`.
- An exception that is not the parser's own skips the reset, so a cut with a failed entry can stay. Which lines raise:
  `ImaAst.ParserRaisesExactly`, `Exceptions.ParsedLineRaisesExactly`, `Exceptions.RoundRaisesExactly`; what stays:
  `Exceptions.RaisedRoundCut`, `Exceptions.RaisedCutIsFailed`; an input: `Witnesses.FailedEntryStays`.
- The check of a signature raises when its key is known but gives no verdict, so that learning a key can turn an accepted
  line into an exception: `Replay.StepMonotone`; an input: `Witnesses.LearnedKeyRaises`.
- A restart loses the devices of the lines it skips: `Incremental.ReloadedDevices`; a second table load then passes that
  the full replay refuses: `Incremental.RestartHidesSecondLoad`; an input: `Witnesses.SecondLoadPasses`.
- A key taught into a ring that is named like the tenant's is lost when that ring is renewed: `Keyrings.RenewedKeys`,
  `Agreement.RenewedCovers`; an input: `Witnesses.TenantLessonIsLost`.
- A list from a wrong entry fails, but its boot time is noted first, so a cut of an earlier boot can go on under a new
  boot time: `IncrementalRuns.OtherBootAdoptedExactly`; a run: `Witnesses.CutOutlivesBoot`.
- A key that cannot be serialized shifts the ids of the keys after it: `Keyrings.UnserializableShiftsIds`; a ring survives
  otherwise, and only then: `Keyrings.RingRoundTrip`.
- Matching devices by uuid, a rename files the device under its new name: `DeviceMapper.RenamedIsFound`; an input:
  `Witnesses.RenameLosesDevice`.
- An algorithm name beyond ASCII shares its packed bytes with another: `ImaAst.AsciiIsUnambiguous`.
- After a mild failure a flawless quote fails the agent: `PollingRuns.FlawlessQuoteFails`; when polling goes on:
  `PollingRuns.MildFailureDooms`.
- The default `Failure` argument of the polling function is one object for all agents and calls, so the event noted for
  an unreachable agent can be another agent's: `PollingRuns.ConnectionErrorStep`.
- An API version update overwrites the tenant's stop in the database: `PollingRuns.TenantStops`.
- A trailer that is the first record of an archive is not recognised: `Initrd.LoneTrailerExactly`.
- RSA keys whose bit length is no multiple of 8 do not reparse: `TpmPublic.PublicRoundTrip`. The public-area reader
  takes the key size of the symmetric algorithm for the signing scheme: `TpmPublic.SkipIsRight`.
- ECDSA signatures are malformed or refused outside 16 to 127 octets: `Der.EcdsaDerExactly`.
- Base64 text that is all hexadecimal digits is decoded as hexadecimal: `Dsse.DecUndoesEnc`.

Where code and comments disagree the code is followed: the comment on skipped parameters
(`keylime/tpm/tpm2_objects.py:290-297`) speaks of mode and key size, the code looks at the first two fields; the comment
and the condition of the switch for time-of-measure violations (`keylime/ima/ast.py:386-392`) contradict each other and
the switch is a parameter here; the length of a payload type is counted in characters (`keylime/dsse/dsse.py:68-69`),
where the DSSE protocol counts bytes (`Dsse.PAEMeetsProtocol`).

## Hypotheses

- Hash functions, signatures, encryption, certificate parsing and the measured-boot engine are functions the theorems
  quantify over. No theorem takes a hash to be free of collisions: where it matters the colliding inputs are named by
  their place in the log, and all that is asked of the hash is the length of its values (`HashHasSize`). `DerLaw` (a
  serialized key is read back) and distinct key ids are required only by the lemmas that name them.
- A PCR value is always given to the replay, and one hash is accepted per agent.
- `VerifierRuns.HashChainInvariant` leaves out runs in which an exception left a replay after a match behind a failed
  line (`NoFailureKept`): the condition is on the lines.
- `IncrementalRuns` takes the log as append-only within a boot, with blank lines at the end of a list only, boot times as
  nonzero and distinct from those on record, learned keys as serializable, signatures as having a verdict with the key
  their id stands for (`Quiet`), and the policy as fixed. A response shows the agent's own boot time, and a list that does
  not fail is the log from the verifier's cut (`Honest`). Not followed are lists with a line that raises, restarts that
  lose devices (`RowFits`), and cuts that outlive their boot (`AdoptsOtherBoot`), each by its exact condition. That
  acceptance is exact asks besides that what was taught into the tenant's ring is known otherwise
  (`KnowsTenantLessons`).
- `DeviceMapper.DeviceTrace` and `DevicesInUse` match devices by name and rename them to names not in use.
- `LineParts.EntryExactly` takes hexadecimal text as what `FromHex` reads; `Bytes.HexExactly` says what that is for text
  without white space.

## Model

| member | source | states |
|---|---|---|
| Failures.Failure.Add | keylime/failure.py:113-128 | adding an event changes events, recoverability and the highest severity as the value function says, raising irrecoverable events to the top |
| Failures.Failure.Merge | keylime/failure.py:157-167 | merging keeps the first event of the highest severity and joins the lists |
| Failures.FailureMeansEvents | keylime/failure.py:113-176 | a verdict is a failure iff some check, however deeply merged, added an event |
| Failures.OnlyFlatEventsCount | keylime/failure.py:113-167 | any tree of additions and merges gives the verdict of the flat list of its events |
| Failures.FromEventsMeaning | keylime/failure.py:113-128 | the highest severity is the maximum and its event the first attaining it; recoverable iff every event is; a failure iff there is an event |
| Failures.IrrecoverableIsTop | keylime/failure.py:113-128 | an irrecoverable verdict carries the top label, however it was assembled |
| Failures.SeverityBounded | keylime/failure.py:179-224 | no severity policy gives an event more than the top label |
| Failures.LabelLevelExactly | keylime/failure.py:198-202 | a label's level is the last position of its name |
| Failures.SeverityExactly | keylime/failure.py:204-256 | the first rule that matches decides, by its label; without one, or where the label is unknown, the event gets the top one |
| Failures.DefaultSeverityIsTop | keylime/failure.py:192-196 | the default policy gives every event the top label |
| ImaAst.BytesDetermineFields | keylime/ima/ast.py:122-187 | template bytes of ima-ng, ima-sig and ima-buf are equal iff algorithm, digest, path and signature or buffer are |
| ImaAst.TemplateNameIsNotBound | keylime/ima/ast.py:277-320 | a signature and a buffer of the same content have the same template bytes: the template's name is not bound |
| ImaAst.AsciiIsUnambiguous | keylime/ima/ast.py:171-187 | a colon-free algorithm name can be told from its packed bytes iff it is ASCII: the width is counted in characters |
| ImaAst.ParsedModeIsColonFree | keylime/ima/ast.py:146-169 | what the parser delivers meets the hypotheses of unique decoding |
| ImaAst.ParsedIsHashed | keylime/ima/ast.py:344-374 | a parsed entry of a self-delimiting template that is no violation carries the hash of its own template bytes, which `TemplateReads` reads |
| TemplateReader.TemplateReads | keylime/ima/ast.py:79-80 | a reader of the layout (little-endian lengths, name, colon, NUL, hash; path and NUL; third field) finds in the template bytes of ima-ng, ima-sig and ima-buf exactly the fields, and nothing is left over |
| TemplateReader.ParsedTemplateReads | keylime/ima/ast.py:344-374 | what a parsed entry that is no violation extends the PCR with is the hash of bytes from which that reader reads its fields |
| TemplateReader.LegacyLayout | keylime/ima/ast.py:120-132 | the legacy template is the hash followed by the path filled up with NUL to 256 bytes |
| TemplateReader.Utf8Reads | keylime/ima/ast.py:117 | a reader that goes by the first byte of each character reads every encoded text back |
| ImaAst.FoldInjective | keylime/tpm/tpm_main.py:532-536 | equally long folds that meet started from the same value and folded the same templates, or show at one position two different inputs with one hash |
| ImaAst.FoldNeverRepeats | keylime/ima/ima.py:318-323 | a PCR value comes back `d` templates later only if two different inputs `d` templates apart have one hash, or the first `d` templates lead back to the start value |
| ImaAst.LogBinding | keylime/ima/ima.py:318 | equally long logs that fold to the same PCR agree on the fields of every entry, or show at one entry two different PCR inputs or template bytes with one hash |
| ImaAst.LineRoundTrip | keylime/ima/ast.py:344-374 | parsing a written line recovers PCR, mode and template hash, and sets both hashes of a violation to all ones |
| ImaAst.ModeRoundTrip | keylime/ima/ast.py:206-316 | parsing a written mode of each of the four templates gives it back |
| LineParts.SplitExactly | keylime/ima/ast.py:357 | splitting gives the one way to cut at the first separators |
| LineParts.DigestExactly | keylime/ima/ast.py:146-169 | a digest parses iff it is a bare hash of 20 or 16 bytes, or a name, one colon and a hash |
| LineParts.SignatureExactly | keylime/ima/ast.py:88-98 | a signature parses iff it is at least nine bytes of which bytes 7 and 8 are the length of the rest, big-endian |
| LineParts.ModeExactly | keylime/ima/ast.py:206-316 | the data of each template parse as a mode iff they are its fields, separated by spaces |
| LineParts.EntryExactly | keylime/ima/ast.py:344-374 | a line parses as an entry iff it is PCR, hexadecimal hash, template name and data of a mode that can be packed; a hash of all zeros is shown and extended as all ones |
| Bytes.HexExactly | keylime/ima/ast.py:359 | text without white space is read as bytes iff it shows each byte by two digits of either case, the higher half first |
| Keyrings.SaveRing | keylime/ima/file_signatures.py:165-180 | the loop writes the serializable keys and all ids |
| Keyrings.LoadRing | keylime/ima/file_signatures.py:199-232 | the loop files each key that loads under the id at its position |
| Keyrings.RingRoundTrip | keylime/ima/file_signatures.py:165-232 | a keyring survives being stored iff every key could be serialized |
| Keyrings.UnserializableShiftsIds | keylime/ima/file_signatures.py:165-232 | a key that cannot be serialized gives its id to the key behind it |
| Keyrings.RingsRoundTrip | keylime/ima/file_signatures.py:278-315 | all keyrings but the tenant's survive being stored, in order |
| Keyrings.AddKeepsValidRings | keylime/ima/file_signatures.py:252-261 | learning a key keeps the rings storable and their ids distinct |
| Keyrings.TenantKeepsValidRings | keylime/ima/file_signatures.py:263-268 | so does renewing the tenant's keyring |
| Keyrings.ImaKeyrings.AddPubkeyToKeyring | keylime/ima/file_signatures.py:252-261 | the key is added to the named ring, which is made when it is new |
| Keyrings.ImaKeyrings.SetTenantKeyring | keylime/ima/file_signatures.py:263-268 | the tenant's ring is replaced, or removed |
| Keyrings.ImaKeyrings.ToJson | keylime/ima/file_signatures.py:278-287 | every ring but the tenant's is written |
| Keyrings.ImaKeyrings.FromJson | keylime/ima/file_signatures.py:306-315 | every written ring is loaded under its name |
| Keyrings.VerifyMonotone | keylime/ima/file_signatures.py:325-373 | with more keys and no colliding ids no signature is lost, and a check that raised still raises |
| Keyrings.RenewedKeys | keylime/ima/file_signatures.py:263-268 | a renewal keeps the ids of the learned rings, and of the tenant's ring only the tenant's own |
| Keyrings.FindAfterAdd | keylime/ima/file_signatures.py:150-163 | after learning a key exactly its id is known besides those known before |
| Keyrings.AddKeyExactly | keylime/ima/file_signatures.py:150-261 | a new key is found in its ring under its certificate's id, or under its own where that is missing or 0, and nothing else changes |
| Keyrings.FindKeyIsFirst | keylime/ima/file_signatures.py:375-394 | a key is found by its id in the first ring that has it |
| DeviceMapper.DmIMAValidator.ValidateTableLoad | keylime/ima/ima_dm.py:266-327 | a load makes a fresh inactive device, valid iff no resume is required, after checking its targets |
| DeviceMapper.DmIMAValidator.ValidateDeviceResume | keylime/ima/ima_dm.py:184-219 | a resume activates and validates the device whose table hash it carries |
| DeviceMapper.DmIMAValidator.ValidateDeviceRemove | keylime/ima/ima_dm.py:164-182 | a remove deletes the device it names, or marks it invalid and fails where the rule forbids it |
| DeviceMapper.DmIMAValidator.ValidateTableClear | keylime/ima/ima_dm.py:128-145 | a clear changes nothing where the rule allows it, and marks the device invalid and fails otherwise |
| DeviceMapper.DmIMAValidator.ValidateTargetUpdate | keylime/ima/ima_dm.py:147-162 | an update changes no device and fails unless the rule allows it |
| DeviceMapper.DmIMAValidator.ValidateDeviceRename | keylime/ima/ima_dm.py:221-264 | a rename moves the device under its new name |
| DeviceMapper.DmIMAValidator.Validate | keylime/ima/ima_dm.py:91-126 | an entry steps the devices by its event, and fails besides where its digest is not the hash of its text; text that is no event leaves them alone |
| DeviceMapper.DmIMAValidator.Invalid | keylime/ima/ima_dm.py:358-376 | no failure iff every device is valid and every required rule is used by a valid device |
| DeviceMapper.StepAllowedExactly | keylime/ima/ima_dm.py:128-356 | an event fails iff it is not allowed: a load needs a first matching rule with fitting attributes and targets and no earlier load that forbids it; a resume an inactive device with its table hash; the others a device in use and the leave of its rule |
| DeviceMapper.EntryAllowedExactly | keylime/ima/ima_dm.py:91-126 | an entry is clean iff its text is an event, its digest is the hash of that text, and the event is allowed |
| DeviceMapper.RefusalMarks | keylime/ima/ima_dm.py:128-219 | a refused resume, removal or clearing marks its device invalid and touches nothing else |
| DeviceMapper.DeviceTrace | keylime/ima/ima_dm.py:91-326 | after entries without failure each has the hash of its own text as digest, and a device, followed through its renames, is active iff a resume with the hash of its latest load followed that load, and valid iff active or resume is not required |
| DeviceMapper.DevicesInUse | keylime/ima/ima_dm.py:164-326 | after entries without failure each has the hash of its own text as digest, and a name is in use iff they load it and nothing ends that |
| DeviceMapper.RenamedIsFound | keylime/ima/ima_dm.py:221-264 | after a clean rename a device is found under its new key iff names match devices, or the uuid stays, is the new name, or is taken |
| DeviceMapper.ValidateRaisesExactly | keylime/ima/ima_dm.py:91-264 | an entry makes the validator raise iff its text does, its digest's algorithm is unknown, metadata is missing, the device's rule is gone, the target has no check, or a mismatched digest is no text |
| AgentStates.TPMState.InitPcr | keylime/agentstates.py:52-61 | a PCR starts at the hash's start value and the first hash pins it |
| AgentStates.TPMState.ResetPcr | keylime/agentstates.py:63-65 | a reset forgets the value and keeps the pinned hash |
| AgentStates.FirstUse | keylime/agentstates.py:52-61 | a PCR keeps its first hash, and starts at all zeros, or at all ones where it is one of a dynamic launch |
| AgentStates.AgentAttestState.ResetImaAttestation | keylime/agentstates.py:121-129 | count, IMA PCRs, boot time, learned keys and progress are forgotten; devices and pinned hashes are not |
| AgentStates.AgentAttestState.UpdateImaAttestation | keylime/agentstates.py:131-136 | PCR and count are recorded together |
| AgentStates.AgentAttestState.GetPcrState | keylime/agentstates.py:161-165 | a PCR is set up at its first use and then read |
| AgentStates.AgentAttestState.CheckQuoteProgress | keylime/agentstates.py:202-231 | records the new position and tells whether the lag was caught up |
| Ima.ValidateImaBuf | keylime/ima/ima.py:180-216 | a buffer entry teaches its key, drives the device mapper, or is compared with the policy; events and new state are those of the value function that `LineAllowedExactly` is about |
| Ima.ValidateData | keylime/ima/ima.py:262-266 | each mode is validated by its own function; events and new state are those of the value function that `LineAllowedExactly` is about |
| Ima.ValidateEntry | keylime/ima/ast.py:376-400 | an invalid template hash or a violation hides the data from validation |
| Ima.ReplayEntry | keylime/ima/ima.py:313-336 | one entry: extend, validate, and cut PCR, count and devices where the quote matches first |
| Ima.ReplayLine | keylime/ima/ima.py:300-336 | blank lines are skipped but still numbered; a line that does not parse is a failure |
| Ima.ReplayList | keylime/ima/ima.py:219-356 | the loop ends in the verdict on the replay of the whole list |
| Ima.ConcludeReplay | keylime/ima/ima.py:338-356 | no match is a failure, and so is a quote that did not catch up |
| Ima.ProcessMeasurementList | keylime/ima/ima.py:359-387 | a failed list resets the state; an exception that is not the parser's own does not |
| PolicyMeaning.LineAllowedExactly | keylime/ima/ima.py:113-216 | a line is clean iff it is blank, or an entry of PCR 10 that is a violation let through, or whose template hash fits and whose data are allowed: listed with that digest, excluded, signed by a known key, an ignored ring, an allowed device event, or no policy |
| PolicyMeaning.ListAllowedExactly | keylime/ima/ima.py:300-336 | a list is clean iff each of its lines is allowed with the keys and devices that the lines before it left |
| PolicyMeaning.SignatureExactly | keylime/ima/file_signatures.py:325-373 | a check gives a verdict iff the signature has kind 3 or 5, version 2, the hash of the digest, big-endian key id and length, and the id of a known key, with which it does |
| PolicyMeaning.LessonExactly | keylime/ima/ima.py:189-206 | a line teaches a key iff its data count, are a key for a ring that is not ignored, and are listed, excluded or under no policy |
| PolicyMeaning.AllowedLineEffect | keylime/ima/ima.py:148-336 | an allowed line extends the PCR, teaches its key, steps the devices by its event, and does nothing else |
| Replay.LoopIsScan | keylime/ima/ima.py:286-348 | what the loop validates is the replay, whatever the quote |
| Replay.LoopClosedForm | keylime/ima/ima.py:286-348 | a clean replay leaves the state cut at the first match with every key of the list learned and the non-blank lines counted |
| Replay.MatchIsFirst | keylime/ima/ima.py:291-336 | the match is the first line after which the running hash is the quoted value |
| Replay.ScanPcr | keylime/ima/ima.py:318 | the running hash is the fold over the template hashes of the lines |
| Replay.StepMonotone | keylime/ima/ima.py:148-216 | a line that is clean where fewer keys are known does the same to the devices and is clean where more are, unless the check of its signature now raises |
| Replay.StepDevices | keylime/ima/ima_dm.py:91-126 | what a line does to the devices depends on the devices alone; on the keys depends only whether it raises |
| Replay.TemplatesPrefix | keylime/ima/ima.py:313-318 | a clean replay extends once per line |
| ImaAst.ParserRaisesExactly | keylime/ima/ast.py:112-374 | a line raises in the parser, beyond the parser's own error, iff it has a mode that parses and a field of it is too long to be packed |
| ImaAst.LongPathRaises | keylime/ima/ast.py:120-132 | every line of the legacy template with a path of more than 255 characters raises |
| Exceptions.ParsedLineRaisesExactly | keylime/ima/ima.py:314-340 | with the parser a line raises where it stands iff its mode is too long to be packed, its signature gives no verdict with the key found, or it is a device event the validator raises on |
| Exceptions.RoundRaisesExactly | keylime/ima/ima.py:304-340 | a round raises iff one of its lines does, or the matched entry's PCR field is no integer |
| Exceptions.RaisedRoundCut | keylime/ima/ima.py:326-336 | a round that raises at line `k` keeps a new cut iff the quote was met at or before `k`, behind a line; the cut is at the match |
| Exceptions.RaisedCutPlace | keylime/ima/ima.py:326-336 | that cut is filed under the PCR its entry names, with the quoted value and the devices of the replay there |
| Exceptions.RaisedCutIsFailed | keylime/ima/ima.py:379-384 | the cut a raised round keeps holds a failed entry iff a line up to the match failed |
| Exceptions.NothingFoundExactly | keylime/ima/ima.py:300-348 | a round finds nothing and raises nothing iff the list replays cleanly, meets the quote, and the quote catches up with the previous round |
| Exceptions.NoFailureExactly | keylime/ima/ima.py:300-387 | a round does not fail iff a line of it raises or it succeeds in that sense |
| Persistence.AgentRow.StoreAttestationState | keylime/cloud_verifier_tornado.py:181-202 | PCRs, count, boot time and keys are written together, and only when an IMA PCR is in use |
| Persistence.AgentRow.Activate | keylime/cloud_verifier_tornado.py:1952-1976 | a restart loads the row, unless its boot time is 0 |
| Persistence.StoreReload | keylime/cloud_verifier_tornado.py:181-202 | storing and reloading keeps the cut and every learned key and loses the tenant's keyring, devices and progress |
| Persistence.ResetNeverStored | keylime/cloud_verifier_tornado.py:181-202 | a reset never reaches the row |
| HashChain.RoundChained | keylime/ima/ima.py:300-387 | a round on any list extends the chain by its lines up to the match, each allowed by the policy where its round stood, or empties it when it failed; raised rounds included, unless a failed line stands before their match |
| HashChain.ChainGrows | keylime/ima/ima.py:318-336 | a list whose first `m` lines replay cleanly extends the chain by exactly those lines, in order, each at its cursor of that replay |
| HashChain.ChainCount | keylime/ima/ima.py:309-334 | as many templates are folded as lines are counted iff no counted line is blank |
| HashChain.ChainedZero | keylime/agentstates.py:121-136 | with a count of 0 the PCR is unset or at its start value |
| HashChain.StoreChained | keylime/cloud_verifier_tornado.py:181-202 | what a restart loads has the chain of the state it was written from |
| HashChain.ParsedLineIsPlain | keylime/ima/ast.py:344-374 | the lines the results on equal PCRs speak of are those the parser accepts as such entries |
| HashChain.SamePcrSameFields | keylime/ima/ima.py:318 | equally long lists of plain entries that fold to the same PCR show the same fields, or at one line two inputs that clash |
| HashChain.SameCutSameLog | keylime/ima/ima.py:326-336 | two states with the same count and PCR, of any two runs, were fed the same fields line by line, or the logs show two inputs that clash |
| HashChain.BlankLinesExactly | keylime/ima/ima.py:309-334 | an accepted round counts its lines up to the match, and they are as many as the entries among them iff none is blank |
| HashChain.BlankLineIsCounted | keylime/ima/ima.py:309-334 | one blank line before a clean, matched entry: the round is accepted and counts two |
| HashChain.FailedThenRaising | keylime/ima/ima.py:379-384 | for any failing matched entry and any raising line behind it the failed entry stays counted |
| Incremental.RoundInv | keylime/ima/ima.py:219-387 | an accepted round from a cut of the full replay ends at a cut of the full replay with the quoted PCR |
| Incremental.FullReplayAccepts | keylime/ima/ima.py:219-387 | a full replay accepts what replays cleanly and meets the quote, and is cut at a line not later with that PCR |
| Incremental.CutAgainstFull | keylime/ima/ima.py:291-336 | against a full replay a cut has the same PCR, is never earlier, and is at the same line with the same devices unless the log shows a clash between the two lines or a way back to the start value |
| Agreement.FullKnowsExactly | keylime/ima/file_signatures.py:252-268 | the full replay knows the ids of the tenant's keys and those the lines taught, and no others |
| Agreement.RenewedCovers | keylime/cloud_verifier_common.py:172-184 | a renewed state knows what the full replay knows at its cut iff it knows what was taught into the tenant's ring |
| Agreement.RoundExactly | keylime/ima/ima.py:219-348 | a round over the log is accepted iff the full replay of what was shown is clean and the first line from the cut on with the quoted PCR is there and, after progress, no earlier than the last line shown before |
| Agreement.FullReplayExactly | keylime/ima/ima.py:219-348 | one full replay is accepted iff it is clean and the quote stands at one of its lines |
| Incremental.ReloadedDevices | keylime/cloud_verifier_tornado.py:1952-1976 | after storing and reloading the devices are those of the full replay iff there were none |
| Incremental.RestartHidesSecondLoad | keylime/ima/ima_dm.py:266-284 | reloaded in front of a table load, the verifier accepts the line; the full replay accepts it iff it is no second load |
| IncrementalRuns.RunInv | keylime/cloud_verifier_common.py:143-184 | every step of agent and verifier keeps state and row cuts of the full replay of the agent's log, or of another boot |
| IncrementalRuns.RunIsVerifierRun | keylime/cloud_verifier_common.py:34-221 | the verifier of these runs is that of `VerifierRuns`, given the same acts |
| IncrementalRuns.IncrementalEqualsFull | keylime/ima/ima.py:268-348 | after any run a list that shows the log is accepted iff one full replay is and the quote covers what it must |
| IncrementalRuns.IncrementalRefinesFull | keylime/ima/ima.py:268-348 | after any run an accepted list, or a response checked in full that quotes PCR 10, leaves the full replay's PCR, and its count and devices unless the log shows a clash or a way back to the start value |
| IncrementalRuns.NextQuoteExactly | keylime/agentstates.py:202-231 | behind an accepted list the next one is accepted iff the full replay is and its quote, from the cut on, stands behind every line the first list showed |
| IncrementalRuns.NextQuoteCoversShownLines | keylime/agentstates.py:202-231 | whatever was taught into the tenant's ring, the next accepted quote covers every line an accepted list showed |
| IncrementalRuns.OtherBootAdoptedExactly | keylime/cloud_verifier_common.py:143-170 | a response of another boot, not from entry 0, leaves the old cut under the new boot time iff its list is from a wrong entry and is not replayed, has a line that raises, or replays cleanly and meets a quote that catches up |
| Witnesses.BlankLine | keylime/ima/ima.py:309-334 | a new agent shows a blank line and one entry: accepted, and entry 2 is asked for |
| Witnesses.FailedEntryStays | keylime/ima/ima.py:379-384 | a new agent shows an entry with a wrong template hash, matched, and one whose path is too long: the first stays counted |
| Witnesses.LearnedKeyRaises | keylime/ima/file_signatures.py:354-373 | a line that is clean without the key of its signature raises once the key is learned |
| Witnesses.SecondLoadPasses | keylime/ima/ima_dm.py:266-284 | one table loaded twice with a restart in between: the verifier accepts what the full replay refuses |
| Witnesses.CutOutlivesBoot | keylime/cloud_verifier_common.py:143-170 | two responses to a new agent, and an entry validated in boot 5 counts in boot 8 |
| Witnesses.RenameLosesDevice | keylime/ima/ima_dm.py:257-262 | matching by uuid, a device with a new uuid is found under neither |
| Witnesses.TenantLessonIsLost | keylime/ima/file_signatures.py:263-268 | a key taught into the tenant's ring is gone after a renewal |
| TpmMain.StrippedHexDecides | keylime/tpm/tpm_main.py:314-318 | comparing hex strings without leading zeros decides whether the quoted PCR and the logged number are equal |
| TpmMain.CheckPcrs | keylime/tpm/tpm_main.py:207-418 | no failure iff data, IMA, boot and remaining PCRs are all as the policies ask, and the state is that of the replay |
| TpmMain.CheckDataPcr | keylime/tpm/tpm_main.py:246-273 | no failure iff PCR 16 is quoted and is the simulated extend of the data |
| TpmMain.CheckImaPcr | keylime/tpm/tpm_main.py:274-294 | a quoted PCR 10 needs a list, and the list must replay |
| TpmMain.CheckBootPcrs | keylime/tpm/tpm_main.py:295-355 | no failure iff every quoted boot PCR is the number the log leads to, and allowed |
| TpmMain.CheckRemainingPcrs | keylime/tpm/tpm_main.py:357-384 | no failure iff every other quoted PCR of the policy has an allowed value |
| TpmMain.CheckPolicyPcrs | keylime/tpm/tpm_main.py:295-418 | no failure iff boot, remaining and missing PCRs and the boot policy are in order |
| TpmMain.EvaluateBootPolicy | keylime/tpm/tpm_main.py:391-418 | the boot policy is evaluated always, or on the first attestation only |
| TpmMain.CheckQuote | keylime/tpm/tpm_main.py:421-492 | the quote is checked in order: signature, timing, PCRs; the clock is recorded only when it moved |
| TpmMain.TimingExactly | keylime/tpm/tpm_main.py:495-529 | a quote is refused unless it has a clock, `safe` is 1, neither counter fell, and both counters or the clock rose; it is recorded exactly when not both counters rose |
| TpmMain.SimExtendIsFold | keylime/tpm/tpm_main.py:532-536 | the simulated extend is the fold of one template, the hash of the data, from the all-zero start |
| CloudVerifierCommon.AgentRecord.CheckHeader | keylime/cloud_verifier_common.py:56-141 | algorithms are noted one by one, up to the first that is not accepted |
| CloudVerifierCommon.AgentRecord.PrepareState | keylime/cloud_verifier_common.py:143-184 | a list from entry 0 or of another boot resets; a list from a wrong entry fails and is checked all the same |
| CloudVerifierCommon.AgentRecord.Credit | keylime/cloud_verifier_common.py:205-219 | success counts, moves the clock, and a new key discards the cached message |
| CloudVerifierCommon.AgentRecord.ProcessQuoteResponse | keylime/cloud_verifier_common.py:34-221 | record and state after a response, and no failure iff it was checked in full or came from another boot |
| CloudVerifierCommon.HeaderExactly | keylime/cloud_verifier_common.py:56-141 | a header is passed iff there is a quote, a key of its own or a cached one that may be used, and configured algorithms, which are in the record then |
| CloudVerifierCommon.AcceptedResponse | keylime/cloud_verifier_common.py:56-219 | a response checked in full had an allowed header and a list from the start or from the requested entry of the same boot; the count grows with exactly those |
| CloudVerifierCommon.WithoutQuoteCheck | keylime/cloud_verifier_common.py:56-170 | a header that is not allowed leaves the state; a list of another boot, from where the old one stood, forgets count, PCRs, keys and progress |
| CloudVerifierCommon.AgentRecord.PrepareV | keylime/cloud_verifier_common.py:224-241 | the payload key is encrypted once and then reused |
| VerifierRuns.HashChainInvariant | keylime/cloud_verifier_common.py:143-170 | over every run the stored PCR, in memory and in the row, is the fold over exactly the counted lines, which are lines of the run's own lists, in order, each allowed by the policy where its round stood |
| VerifierRuns.KeyCacheCoherent | keylime/cloud_verifier_common.py:209-241 | over every run the cached message encrypts `v` to the current key, and every key arrived with a response that was checked in full |
| VerifierRuns.NewKeyIsBrought | keylime/cloud_verifier_common.py:84-97 | a key that is new to the record was in the response itself |
| VerifierRuns.ClockStep | keylime/cloud_verifier_common.py:186-212 | a response that is not accepted leaves the recorded clock; an accepted one showed an allowed clock (`safe` is 1), which is recorded unless both counters rose |
| VerifierRuns.ClockMonotone | keylime/tpm/tpm_main.py:495-529 | over every run the clock in the database never goes back, the one in memory is never behind any the database has held, nor goes back while the record is not reloaded |
| Polling.Poller.ProcessAgent | keylime/cloud_verifier_tornado.py:1742-1949 | one call stops, reports, requests, retries or gives up; memory, database column, pending request and shared failure are those of the machine that `PollingTable` is about |
| Polling.Poller.OnReply | keylime/cloud_verifier_tornado.py:1487-1656 | what each reply to a quote or key request makes the continuation ask for |
| Polling.Poller.Collect | keylime/failure.py:130-155 | the verdict on a quote is built event by event |
| PollingRuns.ReachableInv | keylime/cloud_verifier_tornado.py:1742-1976 | in every reachable state retries are within the limit, and a polled agent is untroubled or failed mildly, which its database column shows |
| PollingRuns.RaisesExactly | keylime/cloud_verifier_tornado.py:1846-1942 | the final raise is reached iff an agent that failed mildly gives a reply that is no failure |
| PollingRuns.NoRunRaises | keylime/failure.py:192-196 | under the default severity policy no run reaches the final raise |
| PollingRuns.MildFailureDooms | keylime/cloud_verifier_tornado.py:1791-1842 | after a mild failure polling goes on iff the next reply is again a mild failure; every other reply ends it |
| PollingRuns.FlawlessQuoteFails | keylime/cloud_verifier_tornado.py:1791-1942 | a run in which a mild failure and then a flawless quote leave the agent FAILED |
| PollingRuns.ConnectionErrorStep | keylime/cloud_verifier_tornado.py:1886-1942 | a connection error repeats the request while retries are left; then the agent fails, and the event noted is the first one ever added to the shared default failure |
| PollingRuns.UnreachableStreak | keylime/cloud_verifier_tornado.py:1886-1942 | a streak of connection errors repeats the same request, counts each, and fails the agent at the first one too many |
| PollingRuns.NewAgentUnreachable | keylime/cloud_verifier_tornado.py:1886-1915 | a new agent that never answers is asked exactly `max_retries` + 1 times |
| PollingRuns.TenantStops | keylime/cloud_verifier_tornado.py:1764-1784 | after the tenant stopped the agent a reply continues polling iff it updates the API version while a retry is left |
| PollingRuns.RestartResumes | keylime/cloud_verifier_tornado.py:2008-2013 | a restart resumes exactly the agents that were polled, not stopped, and had not failed mildly |
| PollingTable.GoodReply | keylime/cloud_verifier_tornado.py:1852-1884 | after a delivered key or a quote without findings the retry counter is 0, and the key is delivered or the next quote asked for |
| PollingTable.RetryReply | keylime/cloud_verifier_tornado.py:1886-1942 | after a retry reply the same request is repeated and counted while retries are left; then the agent fails |
| PollingTable.BadReply | keylime/cloud_verifier_tornado.py:1520-1656 | any other reply without findings fails the agent at once, with the event of its kind |
| PollingTable.FlawedReply | keylime/cloud_verifier_tornado.py:1791-1842 | after a quote with findings the record has the first of the gravest events if it is graver than any before; polling ends iff its severity is the top one or it is irrecoverable |
| PollingTable.PollingBegins | keylime/cloud_verifier_tornado.py:1846-1850 | a new, a reactivated and a restarted agent begin with no retries, no severity and a request for a quote with key |
| PollingTable.Deleted | keylime/cloud_verifier_tornado.py:476-497 | deleting a polled agent ends polling at the next reply, which deletes its row |
| PollingTable.RetriesAreCounted | keylime/cloud_verifier_tornado.py:1846-1930 | over every run the counter of an agent in good standing is the number of retry replies since the last reply that was none |
| PollingTable.GivenUpExactly | keylime/cloud_verifier_tornado.py:1886-1942 | over every run an agent in good standing is given up as unreachable exactly at the `max_retries` + 1st retry in a row |
| Initrd.AlignUpIsLeast | keylime/policy/initrd.py:64-66 | for powers of two the bit trick gives the least multiple that is not below the position |
| Initrd.OpenFile.IsEof | keylime/policy/initrd.py:200-206 | tells the end of the file and leaves the offset |
| Initrd.ScanRecords | keylime/policy/initrd.py:231-270 | the first loop ends on every input, and its result is the one of the recursive reading that the archive theorems are about |
| Initrd.SkipZeros | keylime/policy/initrd.py:276-296 | the chunked loop ends on every input, at the first byte that is not zero, or back at the start |
| Initrd.SkipCpio | keylime/policy/initrd.py:209-296 | the scan of any file ends, with the offset or the exception the archive theorems speak of |
| Initrd.NoArchive | keylime/policy/initrd.py:209-229 | a file that does not begin with `070701` or `070702` has nothing to skip |
| Initrd.PayloadFound | keylime/policy/initrd.py:209-296 | for an archive of at least one record and a trailer, any zeros and any payload, the result is the payload's offset |
| Initrd.LoneTrailerExactly | keylime/policy/initrd.py:231-270 | behind a trailer that stands first the payload's offset is found iff no zeros are between and the payload, if it begins like a record, is no longer than one read, or else its first bytes decode |
| TpmObjects.UnmarshalTpmlPcrSelection | keylime/tpm/tpm2_objects.py:551-561 | the loop over offsets reads the selections that `SelectionsDecode` proves were written, or fails |
| TpmObjects.UnmarshalTpmsAttest | keylime/tpm/tpm2_objects.py:511-537 | the parser by offsets is the reader that `AttestDecodes` and `AttestWasWritten` prove inverse to writing, errors included |
| TpmObjects.AttestDecodes | keylime/tpm/tpm2_objects.py:494-561 | nonce, clock and PCR digest of a written attestation are recovered, whatever follows it |
| TpmObjects.AttestWasWritten | keylime/tpm/tpm2_objects.py:494-561 | whatever parses is a written attestation with something behind it |
| TpmObjects.SelectionsDecode | keylime/tpm/tpm2_objects.py:545-561 | written selections are read back with the offset behind them |
| TpmObjects.LastOfEachMeaning | keylime/tpm/tpm2_objects.py:555-559 | the dictionary keeps the last selection of every hash |
| TpmPublic.PublicRoundTrip | keylime/tpm/tpm2_objects.py:267-388 | for all parameters a written RSA key is read back iff they name a symmetric algorithm and a key size other than 16 and its bit length is a multiple of 8, or they name neither and modulus and exponent spell out their own bytes |
| TpmPublic.EkPublicRoundTrip | keylime/tpm/tpm2_objects.py:484-491 | under the endorsement key's template a written RSA key is read back if its bit length is a multiple of 8, and refused otherwise |
| TpmPublic.SkipIsRight | keylime/tpm/tpm2_objects.py:285-298 | on the parameters of the standard the key is found iff there is no symmetric algorithm, or no scheme and a key size other than 16 |
| PcrBlob.GetPcrsFromBlob | keylime/tpm/tpm_util.py:122-172 | the parser by offsets is the reader that `BlobReadBack` and `BlobWasWritten` characterise |
| PcrBlob.BlobReadBack | keylime/tpm/tpm_util.py:122-172 | a blob in the tools' layout gives its selections and its nonempty digests in order |
| PcrBlob.BlobWasWritten | keylime/tpm/tpm_util.py:122-172 | whatever parses has 136 + 532n bytes and is such a blob |
| PcrBlob.HashPcrBanks | keylime/tpm/tpm_util.py:175-204 | the nested loops hash all values in order and file those of the last round by rank, or fail |
| PcrBlob.BankMeaning | keylime/tpm/tpm_util.py:175-204 | a bank is hashed iff there are as many values as rounds times selected PCRs |
| PcrBlob.LastRoundRanks | keylime/tpm/tpm_util.py:189-199 | a selected PCR has, of the last round's values, the one of its rank among the selected |
| PcrBlob.LastRoundKeys | keylime/tpm/tpm_util.py:189-199 | the dictionary is about exactly the selected PCRs |
| Der.DerIntDecodes | keylime/tpm/tpm_util.py:87-96 | a strict decoder reads a minimal nonnegative INTEGER of the same value, for every byte string |
| Der.DerLenDecodes | keylime/tpm/tpm_util.py:99-106 | a strict decoder reads the length back, up to the 126 octets of the long form |
| Der.EcdsaDerExactly | keylime/tpm/tpm_util.py:109-119 | a TPM signature becomes a well-formed Ecdsa-Sig-Value of the same numbers iff its integers take 16 to 127 octets |
| Dsse.PAEExactly | keylime/dsse/dsse.py:68-69 | what is signed is the version, length of the type, type, length of the payload and payload, separated by spaces, the lengths in decimal without leading zeros |
| Dsse.PAEMeetsProtocol | keylime/dsse/dsse.py:68-69 | it is the protocol's encoding, which counts the type in bytes, iff the type is ASCII |
| Dsse.PAEInjective | keylime/dsse/dsse.py:68-69 | what is signed determines type and payload, for all types |
| Dsse.B64EncText | keylime/dsse/dsse.py:48-49 | each character of the encoding shows its six bits in the alphabet of RFC 4648, or is padding |
| Dsse.DecUndoesEnc | keylime/dsse/dsse.py:48-65 | decoding undoes encoding iff the text is empty or has a character that is no hexadecimal digit |
| Dsse.JsonIsRecoverable | keylime/dsse/dsse.py:48-65 | payloads that begin like a JSON object with a member meet that condition |
| Dsse.Verify | keylime/dsse/dsse.py:88-111 | the nested loops, exceptions included, give the verdict that `VerifySound` and `VerifyOfSign` are about |
| Dsse.VerifySound | keylime/dsse/dsse.py:88-111 | a payload is returned only if a listed verifier accepts the encoding of exactly that type and payload, and the names are those of the accepting verifiers |
| Dsse.VerifyOfSign | keylime/dsse/dsse.py:72-111 | verifying what was signed returns type and payload iff a listed verifier that is asked accepts |

## Left out

- HTTP, TLS, database sessions, threads and notifications: replies are arbitrary values, the database is a row updated per step.
- Interleavings across awaits, several pollers for one agent, and an exception raised after a continuation was scheduled
  (in storing the attestation state, or in preparing the payload key of a retry): one continuation per agent, atomic steps.
- Polling.Poller.ProcessAgent: does not model the length of a wait or its back-off; a timer and the request behind it are one pending request.
- PollingRuns.ReachableInv: is about one agent; other agents only add events to the shared default failure.
- Severity patterns, exclude lists, JSON schemas, the log and event grammars and pickling: predicates, parsed values and exact copies.
- RSA, ECDSA, AES, HMAC, key derivation, certificates, nonces and the verification of a quote's signature: uninterpreted, or taken as done.
- Failures.Failure.Add: does not model an event's context, its component path or logging.
- Ima.ReplayList: takes lines without their newline; keyrings and devices are values inside their objects, so sharing among them
  is not captured; contexts of events and counts per mode are not modelled.
- Ima.ProcessMeasurementList: fixes the policy, so that boot aggregates do not extend it, and takes the switch for
  time-of-measure violations as a parameter.
- DeviceMapper.DmIMAValidator.ValidateTableLoad: compares target attributes by a predicate of the rule.
- Keyrings.VerifyMonotone: says nothing about which signatures a key verifies, or on which it raises.
- IncrementalRuns.IncrementalRefinesFull: is about lists that are the agent's log, or fail; that a quote which matches comes
  from that agent's TPM is taken as done.
- VerifierRuns.ClockMonotone: the clock in memory does go back when the record is reloaded, to the one in the database.
- PcrBlob.HashPcrBanks: gives the hashed input and not the digest.
- TpmPublic.PublicRoundTrip: covers RSA; coordinates of elliptic-curve keys with a leading zero byte and P-521 do not
  reparse. The range checks of the key library are not modelled.
- Dsse.Verify: starts from the parsed envelope, takes the verifiers as a list, and leaves malformed Base64 to a parameter.
- Initrd.SkipCpio: takes the conversion of a header field and the decoding of a corrupt magic as parameters; extraction is
  not modelled.
- Registry of attestation states, status and error messages, identity verification, revocation, registrar, tenant, agent,
  configuration, migrations, measured-boot log parsing, durable attestation: would only add easy members or plumbing.
