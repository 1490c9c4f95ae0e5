/** Validation of IMA log entries and the incremental replay of a measurement list against a quoted PCR. */
module Ima {
  import opened Bytes
  import opened Crypto
  import opened ImaAst
  import opened Keyrings
  import opened AgentStates
  import DM = DeviceMapper

  /**
   * `parse` reads a line, given the hash of the log and of the PCR; `parseInt` is Python's `int(str)`;
   * `tomtouFails` is the configuration switch for violations.
   */
  datatype Env = Env(
    crypto: Crypto,
    parse: (string, HashAlg, HashAlg) -> Parsed,
    dm: DM.DmEnv,
    parseInt: string -> Option<int>,
    tomtouFails: bool)

  /** The environment that reads lines with the parser of `ImaAst`. */
  function EnvWith(c: Crypto, dm: DM.DmEnv, parseInt: string -> Option<int>, tomtouFails: bool): Env {
    Env(c, (line: string, imaAlg: HashAlg, pcrAlg: HashAlg) => ParseEntry(c, line, imaAlg, pcrAlg), dm, parseInt, tomtouFails)
  }

  datatype RuntimePolicy = RuntimePolicy(
    digests: map<string, set<string>>,
    keyrings: map<string, set<string>>,
    imaBuf: map<string, set<string>>,
    excluded: string -> bool,
    ignoredKeyrings: set<string>,
    logHashAlg: HashAlg,
    dm: Option<DM.Policies>)

  datatype AcceptLists = Digests | KeyringLists | Buffers

  function Accepted(policy: RuntimePolicy, lists: AcceptLists): map<string, set<string>> {
    match lists
    case Digests => policy.digests
    case KeyringLists => policy.keyrings
    case Buffers => policy.imaBuf
  }

  // Entry validators: the ids of the failures they add

  function ValidateNg(policy: Option<RuntimePolicy>, digest: Digest, path: Name, lists: AcceptLists): seq<string> {
    if policy.None? || policy.value.excluded(path.name) then []
    else
      var accepted := Accepted(policy.value, lists);
      if path.name !in accepted then ["not_in_allowlist"]
      else if ToHex(digest.hash) !in accepted[path.name] then ["runtime_policy_hash"]
      else []
  }

  /** How the signature of an entry checks; that of an excluded path is not looked at. */
  function CheckSig(c: Crypto, policy: Option<RuntimePolicy>, rings: Option<Rings>,
                    digest: Digest, path: Name, signature: Option<Bytes>): SigCheck {
    if rings.None? || signature.None? then Forged
    else if policy.Some? && policy.value.excluded(path.name) then Genuine
    else DigsigVerify(c, rings.value, signature.value, digest.hash, digest.algorithm)
  }

  /** None: the check of the signature raises. */
  function ValidateSig(c: Crypto, policy: Option<RuntimePolicy>, rings: Option<Rings>,
                       digest: Digest, path: Name, signature: Option<Bytes>): Option<seq<string>> {
    match CheckSig(c, policy, rings, digest, path, signature)
    case CheckRaises => None
    case Genuine => Some([])
    case Forged =>
      Some(if policy.Some? then ValidateNg(policy, digest, path, Digests)
           else if rings.None? then []
           else ["invalid_signature"])
  }

  const DM_NAMES: set<string> := {"dm_table_load", "dm_device_resume", "dm_device_remove", "dm_table_clear",
                                  "dm_device_rename", "dm_target_update"}

  predicate Ignored(policy: Option<RuntimePolicy>, name: string) {
    policy.Some? && ("*" in policy.value.ignoredKeyrings || name in policy.value.ignoredKeyrings)
  }

  /** What a buffer entry does: learn a key, drive the device mapper, be looked up, or fail. */
  datatype BufferEffect =
    | Learn(key: PubKey, keyid: Option<nat>)
    | DeviceEvent
    | NoEffect(events: seq<string>)

  function EffectOf(c: Crypto, policy: Option<RuntimePolicy>, mapped: bool, digest: Digest, path: Name, data: Bytes): BufferEffect {
    match c.keyFromData(data)
    case UnsupportedKey => NoEffect(["invalid_key"])
    case Key(key, keyid) =>
      if Ignored(policy, path.name) then NoEffect([])
      else
        var events := ValidateNg(policy, digest, path, KeyringLists);
        if events == [] then Learn(key, keyid) else NoEffect(events)
    case NotAKey =>
      if mapped && path.name in DM_NAMES then DeviceEvent
      else NoEffect(ValidateNg(policy, digest, path, Buffers))
  }

  // Replay without regard to the quote

  /** Where a replay stands: the extended PCR, the learned keys, the devices and the failures so far. */
  datatype Cursor = Cursor(pcr: Bytes, rings: Rings, dm: Option<DM.Devices>, events: seq<string>) | Escaped

  function LogHashAlg(policy: Option<RuntimePolicy>): HashAlg {
    if policy.Some? then policy.value.logHashAlg else Sha1
  }

  function DmPolicies(policy: Option<RuntimePolicy>): Option<DM.Policies> {
    if policy.Some? then policy.value.dm else None
  }

  function ValidateBuf(env: Env, policy: Option<RuntimePolicy>, cur: Cursor, digest: Digest, path: Name, data: Bytes): Cursor
    requires cur.Cursor? && (cur.dm.Some? <==> DmPolicies(policy).Some?)
  {
    match EffectOf(env.crypto, policy, cur.dm.Some?, digest, path, data)
    case Learn(key, keyid) => cur.(rings := AddKey(env.crypto, cur.rings, path.name, key, keyid))
    case NoEffect(events) => cur.(events := cur.events + events)
    case DeviceEvent =>
      match DM.ValidateEntry(env.crypto, env.dm, DmPolicies(policy).value, cur.dm.value, digest, path.name, data)
      case Raises => Escaped
      case Outcome(devices, events) => cur.(dm := Some(devices), events := cur.events + events)
  }

  function ValidateMode(env: Env, policy: Option<RuntimePolicy>, cur: Cursor, mode: Mode): Cursor
    requires cur.Cursor? && (cur.dm.Some? <==> DmPolicies(policy).Some?)
  {
    match mode
    case Ima(digest, path) => cur.(events := cur.events + ValidateNg(policy, digest, path, Digests))
    case ImaNg(digest, path) => cur.(events := cur.events + ValidateNg(policy, digest, path, Digests))
    case ImaSig(digest, path, signature) =>
      var events := ValidateSig(env.crypto, policy, Some(cur.rings), digest, path, signature);
      if events.None? then Escaped else cur.(events := cur.events + events.value)
    case ImaBuf(digest, path, data) => ValidateBuf(env, policy, cur, digest, path, data)
  }

  /** Failures an entry has before its data is looked at; the data is not looked at after a violation or a bad hash. */
  function HeadEvents(env: Env, imaAlg: HashAlg, e: Entry): (r: (seq<string>, bool)) {
    var wrongPcr := if e.pcr != "10" then ["ima_pcr"] else [];
    if e.imaTemplateHash == FfHash(imaAlg) then (wrongPcr + (if env.tomtouFails then ["tomtou"] else []), false)
    else if e.imaTemplateHash != env.crypto.hash(imaAlg, e.bytes) then (wrongPcr + ["ima_hash"], false)
    else (wrongPcr, true)
  }

  function StepEntry(env: Env, policy: Option<RuntimePolicy>, alg: HashAlg, cur: Cursor, e: Entry): Cursor
    requires cur.Cursor? && (cur.dm.Some? <==> DmPolicies(policy).Some?)
  {
    var (events, looksAtData) := HeadEvents(env, LogHashAlg(policy), e);
    var extended := cur.(pcr := env.crypto.hash(alg, cur.pcr + e.pcrTemplateHash), events := cur.events + events);
    if looksAtData then ValidateMode(env, policy, extended, e.mode) else extended
  }

  function StepLine(env: Env, policy: Option<RuntimePolicy>, alg: HashAlg, cur: Cursor, line: string): (r: Cursor)
    requires cur.Cursor? ==> (cur.dm.Some? <==> DmPolicies(policy).Some?)
    ensures r.Cursor? ==> (r.dm.Some? <==> DmPolicies(policy).Some?)
  {
    if cur.Escaped? || line == "" then cur
    else
      match env.parse(line, LogHashAlg(policy), alg)
      case EntryRaises => Escaped
      case ParserError => cur.(events := cur.events + ["entry"])
      case Parsed(e) => StepEntry(env, policy, alg, cur, e)
  }

  function Scan(env: Env, policy: Option<RuntimePolicy>, alg: HashAlg, cur: Cursor, lines: seq<string>): (r: Cursor)
    requires cur.Cursor? ==> (cur.dm.Some? <==> DmPolicies(policy).Some?)
    ensures r.Cursor? ==> (r.dm.Some? <==> DmPolicies(policy).Some?)
  {
    if lines == [] then cur
    else StepLine(env, policy, alg, Scan(env, policy, alg, cur, lines[..|lines| - 1]), lines[|lines| - 1])
  }

  // Replay of one round

  /** The loop of a round: where the replay stands, the state it changes, the match position and the lines counted. */
  datatype Loop = Loop(cur: Cursor, state: State, matched: Option<nat>, length: nat)

  /** Result of a round; with `raised` an exception other than the parser's own left the loop. */
  datatype Round = Round(state: State, events: seq<string>, raised: bool)

  function StartCursor(policy: Option<RuntimePolicy>, s: State): (r: Cursor)
    requires IMA_PCR in s.pcrs
    ensures r.Cursor? && (r.dm.Some? <==> DmPolicies(policy).Some?)
  {
    var devices: DM.Devices := if s.next != 0 && s.dm.Some? then s.dm.value else map[];
    Cursor(s.pcrs[IMA_PCR], s.rings, if DmPolicies(policy).Some? then Some(devices) else None, [])
  }

  function StartLoop(policy: Option<RuntimePolicy>, alg: HashAlg, s: State, q: Bytes): Loop {
    var s' := WithPcr(s, IMA_PCR, alg);
    Loop(StartCursor(policy, s'), s', if s'.pcrs[IMA_PCR] == q then Some(0) else None, 0)
  }


  /** The cut: the PCR named by the entry, the count and the devices are saved at the line the quote matches. */
  function Cut(env: Env, e: Entry, s: State, cur: Cursor, linenum: nat): Option<State>
    requires cur.Cursor?
  {
    var pcr := env.parseInt(e.pcr);
    if pcr.None? then None
    else
      var s' := UpdateIma(s, pcr.value, cur.pcr, linenum + 1);
      Some(if cur.dm.Some? then s'.(dm := cur.dm) else s')
  }

  function LoopLine(env: Env, policy: Option<RuntimePolicy>, alg: HashAlg, l: Loop, line: string, linenum: nat, q: Bytes): (r: Loop)
    requires l.cur.Cursor? ==> (l.cur.dm.Some? <==> DmPolicies(policy).Some?)
    ensures r.cur.Cursor? ==> (r.cur.dm.Some? <==> DmPolicies(policy).Some?)
  {
    if l.cur.Escaped? || line == "" then l
    else
      var cur := StepLine(env, policy, alg, l.cur, line);
      var state := if cur.Cursor? then l.state.(rings := cur.rings) else l.state;
      var parsed := env.parse(line, LogHashAlg(policy), alg);
      if cur.Cursor? && parsed.Parsed? && l.matched.None? && cur.pcr == q then
        match Cut(env, parsed.entry, state, cur, linenum)
        case None => Loop(Escaped, state, Some(linenum + 1), l.length + 1)
        case Some(cut) => Loop(cur, cut, Some(linenum + 1), l.length + 1)
      else Loop(cur, state, l.matched, l.length + 1)
  }

  function LoopTo(env: Env, policy: Option<RuntimePolicy>, alg: HashAlg, s: State, lines: seq<string>, q: Bytes, n: nat): (r: Loop)
    requires n <= |lines|
    ensures r.cur.Cursor? ==> (r.cur.dm.Some? <==> DmPolicies(policy).Some?)
  {
    if n == 0 then StartLoop(policy, alg, s, q)
    else LoopLine(env, policy, alg, LoopTo(env, policy, alg, s, lines, q, n - 1), lines[n - 1], n - 1, q)
  }

  function Judge(l: Loop): Round {
    if l.cur.Escaped? then Round(l.state, [], true)
    else if l.matched.None? then Round(l.state, l.cur.events + ["pcr_mismatch"], false)
    else
      var progresses := QuoteProgresses(l.state.progress, l.matched.value, l.length);
      Round(l.state.(progress := Some((l.matched.value, l.length))),
            l.cur.events + (if progresses then [] else ["quote_progress"]), false)
  }

  /** One round: replay, verdict, and a reset of the state on any failure. */
  function ProcessList(env: Env, policy: Option<RuntimePolicy>, alg: HashAlg, s: State, lines: seq<string>, q: Bytes): Round {
    var r := Judge(LoopTo(env, policy, alg, s, lines, q, |lines|));
    if r.events != [] then r.(state := ResetIma(r.state)) else r
  }

  // The loop over the mutable state

  /** Whether the cursor is what the validator objects hold. */
  ghost predicate Holds(cur: Cursor, pcr: Bytes, rings: Rings, dm: DM.DmIMAValidator?, events: seq<string>, raised: bool)
    reads dm
  {
    if raised then cur == Escaped
    else cur == Cursor(pcr, rings, if dm == null then None else Some(dm.devices), events)
  }

  /** Validates one buffer entry, learning its key or driving the device mapper. */
  method ValidateImaBuf(env: Env, policy: Option<RuntimePolicy>, imaKeyrings: ImaKeyrings, dmValidator: DM.DmIMAValidator?,
                        digest: Digest, path: Name, data: Bytes, ghost cur: Cursor)
    returns (events: seq<string>, raised: bool)
    requires dmValidator != null <==> DmPolicies(policy).Some?
    requires dmValidator != null ==> dmValidator.policies == DmPolicies(policy).value && dmValidator.env == env.dm
    requires cur.Cursor? && Holds(cur, cur.pcr, imaKeyrings.keyrings, dmValidator, cur.events, false)
    modifies imaKeyrings, dmValidator
    ensures Holds(ValidateBuf(env, policy, cur, digest, path, data), cur.pcr, imaKeyrings.keyrings, dmValidator,
                  cur.events + events, raised)
    ensures raised ==> imaKeyrings.keyrings == old(imaKeyrings.keyrings)
  {
    events, raised := [], false;
    assert cur.events + [] == cur.events;
    match env.crypto.keyFromData(data) {
      case UnsupportedKey => return ["invalid_key"], false;
      case Key(pubkey, keyid) =>
        if !Ignored(policy, path.name) {
          events := ValidateNg(policy, digest, path, KeyringLists);
          if events == [] {
            imaKeyrings.AddPubkeyToKeyring(env.crypto, pubkey, path.name, keyid);
          }
        }
      case NotAKey =>
        if dmValidator != null && path.name in DM_NAMES {
          events, raised := dmValidator.Validate(env.crypto, digest, path.name, data);
        } else {
          events := ValidateNg(policy, digest, path, Buffers);
        }
    }
  }

  /** Validates the data of one entry. */
  method ValidateData(env: Env, policy: Option<RuntimePolicy>, imaKeyrings: ImaKeyrings, dmValidator: DM.DmIMAValidator?,
                      mode: Mode, ghost cur: Cursor)
    returns (events: seq<string>, raised: bool)
    requires dmValidator != null <==> DmPolicies(policy).Some?
    requires dmValidator != null ==> dmValidator.policies == DmPolicies(policy).value && dmValidator.env == env.dm
    requires cur.Cursor? && Holds(cur, cur.pcr, imaKeyrings.keyrings, dmValidator, cur.events, false)
    modifies imaKeyrings, dmValidator
    ensures Holds(ValidateMode(env, policy, cur, mode), cur.pcr, imaKeyrings.keyrings, dmValidator, cur.events + events, raised)
    ensures raised ==> imaKeyrings.keyrings == old(imaKeyrings.keyrings)
  {
    raised := false;
    match mode {
      case Ima(digest, path) => events := ValidateNg(policy, digest, path, Digests);
      case ImaNg(digest, path) => events := ValidateNg(policy, digest, path, Digests);
      case ImaSig(digest, path, signature) =>
        var found := ValidateSig(env.crypto, policy, Some(imaKeyrings.keyrings), digest, path, signature);
        if found.None? {
          return [], true;
        }
        events := found.value;
      case ImaBuf(digest, path, data) =>
        events, raised := ValidateImaBuf(env, policy, imaKeyrings, dmValidator, digest, path, data, cur);
    }
  }

  /** Validates one entry after the PCR was extended with it. */
  method ValidateEntry(env: Env, policy: Option<RuntimePolicy>, imaKeyrings: ImaKeyrings, dmValidator: DM.DmIMAValidator?,
                       entry: Entry, alg: HashAlg, ghost cur: Cursor)
    returns (events: seq<string>, raised: bool)
    requires dmValidator != null <==> DmPolicies(policy).Some?
    requires dmValidator != null ==> dmValidator.policies == DmPolicies(policy).value && dmValidator.env == env.dm
    requires cur.Cursor? && Holds(cur, cur.pcr, imaKeyrings.keyrings, dmValidator, cur.events, false)
    modifies imaKeyrings, dmValidator
    ensures Holds(StepEntry(env, policy, alg, cur, entry), env.crypto.hash(alg, cur.pcr + entry.pcrTemplateHash),
                  imaKeyrings.keyrings, dmValidator, cur.events + events, raised)
    ensures raised ==> imaKeyrings.keyrings == old(imaKeyrings.keyrings)
  {
    var (head, looksAtData) := HeadEvents(env, LogHashAlg(policy), entry);
    ghost var extended := cur.(pcr := env.crypto.hash(alg, cur.pcr + entry.pcrTemplateHash), events := cur.events + head);
    assert StepEntry(env, policy, alg, cur, entry) == if looksAtData then ValidateMode(env, policy, extended, entry.mode) else extended;
    events, raised := head, false;
    if looksAtData {
      var more;
      more, raised := ValidateData(env, policy, imaKeyrings, dmValidator, entry.mode, extended);
      events := head + more;
      Reassociate(cur.events, head, more);
    }
  }

  /** Whether the loop's variables are what `l` says; after an exception only the state matters. */
  ghost predicate At(l: Loop, state: AgentAttestState, pcr: Bytes, dm: DM.DmIMAValidator?, events: seq<string>,
                     matched: Option<nat>, length: nat, raised: bool)
    reads state, state.tpmState, state.imaKeyrings, dm
  {
    && l.state == state.Model()
    && Holds(l.cur, pcr, state.imaKeyrings.keyrings, dm, events, raised)
    && (raised || (l.matched == matched && l.length == length))
  }

  /** One line that parsed: extend, validate, and cut where the quote matches. */
  method ReplayEntry(env: Env, policy: Option<RuntimePolicy>, alg: HashAlg, state: AgentAttestState, dmValidator: DM.DmIMAValidator?,
                     line: string, entry: Entry, linenum: nat, pcrval: Bytes, runningHash: Bytes, matched: Option<nat>,
                     ghost l: Loop, ghost failure: seq<string>)
    returns (newHash: Bytes, newMatched: Option<nat>, events: seq<string>, raised: bool)
    requires dmValidator != null <==> DmPolicies(policy).Some?
    requires dmValidator != null ==> dmValidator.policies == DmPolicies(policy).value && dmValidator.env == env.dm
    requires line != "" && env.parse(line, LogHashAlg(policy), alg) == Parsed(entry)
    requires At(l, state, runningHash, dmValidator, failure, matched, l.length, false)
    modifies state, state.tpmState, state.imaKeyrings, dmValidator
    ensures state.imaKeyrings == old(state.imaKeyrings)
    ensures At(LoopLine(env, policy, alg, l, line, linenum, pcrval), state, newHash, dmValidator, failure + events, newMatched,
               l.length + 1, raised)
  {
    newHash, newMatched := runningHash, matched;
    events, raised := ValidateEntry(env, policy, state.imaKeyrings, dmValidator, entry, alg, l.cur);
    if raised {
      return;
    }
    newHash := env.crypto.hash(alg, runningHash + entry.pcrTemplateHash);
    if matched == None && newHash == pcrval {
      newMatched := Some(linenum + 1);
      var pcr := env.parseInt(entry.pcr);
      if pcr == None {
        return newHash, newMatched, events, true;
      }
      state.UpdateImaAttestation(pcr.value, newHash, linenum + 1);
      if dmValidator != null {
        state.imaDmState := Some(dmValidator.devices);
      }
    }
  }

  /** One line of the list; blank lines are skipped. */
  method ReplayLine(env: Env, policy: Option<RuntimePolicy>, alg: HashAlg, state: AgentAttestState, dmValidator: DM.DmIMAValidator?,
                    line: string, linenum: nat, pcrval: Bytes, runningHash: Bytes, matched: Option<nat>, logLength: nat,
                    ghost l: Loop, ghost failure: seq<string>)
    returns (newHash: Bytes, newMatched: Option<nat>, newLength: nat, events: seq<string>, raised: bool)
    requires dmValidator != null <==> DmPolicies(policy).Some?
    requires dmValidator != null ==> dmValidator.policies == DmPolicies(policy).value && dmValidator.env == env.dm
    requires At(l, state, runningHash, dmValidator, failure, matched, logLength, false)
    modifies state, state.tpmState, state.imaKeyrings, dmValidator
    ensures state.imaKeyrings == old(state.imaKeyrings)
    ensures At(LoopLine(env, policy, alg, l, line, linenum, pcrval), state, newHash, dmValidator, failure + events, newMatched,
               newLength, raised)
  {
    newHash, newMatched, newLength, events, raised := runningHash, matched, logLength, [], false;
    assert failure + [] == failure;
    if line == "" {
      return;
    }
    newLength := logLength + 1;
    match env.parse(line, LogHashAlg(policy), alg) {
      case EntryRaises => raised := true;
      case ParserError => events := ["entry"];
      case Parsed(entry) =>
        newHash, newMatched, events, raised :=
          ReplayEntry(env, policy, alg, state, dmValidator, line, entry, linenum, pcrval, runningHash, matched, l, failure);
    }
  }

  /** Fetches the PCR to extend and, where the policy has device-mapper rules, restores their validator. */
  method StartReplay(env: Env, policy: Option<RuntimePolicy>, alg: HashAlg, state: AgentAttestState, pcrval: Bytes)
    returns (runningHash: Bytes, dmValidator: DM.DmIMAValidator?, matched: Option<nat>)
    modifies state.tpmState
    ensures dmValidator != null ==> fresh(dmValidator)
    ensures dmValidator != null <==> DmPolicies(policy).Some?
    ensures dmValidator != null ==> dmValidator.policies == DmPolicies(policy).value && dmValidator.env == env.dm
    ensures At(StartLoop(policy, alg, old(state.Model()), pcrval), state, runningHash, dmValidator, [], matched, 0, false)
  {
    runningHash := state.GetPcrState(IMA_PCR, alg);
    dmValidator := null;
    if policy.Some? && policy.value.dm.Some? {
      dmValidator := new DM.DmIMAValidator(env.dm, policy.value.dm.value);
      // only load the state when attestation is incremental
      if state.nextImaMlEntry != 0 && state.imaDmState.Some? {
        dmValidator.devices := state.imaDmState.value;
      }
    }
    matched := if runningHash == pcrval then Some(0) else None;
  }

  method ReplayList(env: Env, policy: Option<RuntimePolicy>, alg: HashAlg, state: AgentAttestState, lines: seq<string>, pcrval: Bytes)
    returns (failure: seq<string>, raised: bool)
    modifies state, state.tpmState, state.imaKeyrings
    ensures Round(state.Model(), failure, raised) == Judge(LoopTo(env, policy, alg, old(state.Model()), lines, pcrval, |lines|))
    ensures state.imaKeyrings == old(state.imaKeyrings)
  {
    ghost var s := state.Model();
    failure, raised := [], false;
    var runningHash, dmValidator, matched := StartReplay(env, policy, alg, state, pcrval);
    var logLength := 0;
    for linenum := 0 to |lines|
      invariant dmValidator != null ==> fresh(dmValidator)
      invariant dmValidator != null <==> DmPolicies(policy).Some?
      invariant dmValidator != null ==> dmValidator.policies == DmPolicies(policy).value && dmValidator.env == env.dm
      invariant state.imaKeyrings == old(state.imaKeyrings)
      invariant At(LoopTo(env, policy, alg, s, lines, pcrval, linenum), state, runningHash, dmValidator, failure, matched, logLength, false)
    {
      ghost var l := LoopTo(env, policy, alg, s, lines, pcrval, linenum);
      var events;
      runningHash, matched, logLength, events, raised :=
        ReplayLine(env, policy, alg, state, dmValidator, lines[linenum], linenum, pcrval, runningHash, matched, logLength, l, failure);
      if raised {
        EscapedStays(env, policy, alg, s, lines, pcrval, linenum + 1);
        return [], true;
      }
      failure := failure + events;
    }
    failure := ConcludeReplay(state, failure, matched, logLength, LoopTo(env, policy, alg, s, lines, pcrval, |lines|));
  }

  /** The verdict once every line was replayed. */
  method ConcludeReplay(state: AgentAttestState, events: seq<string>, matched: Option<nat>, logLength: nat, ghost l: Loop)
    returns (failure: seq<string>)
    requires l.state == state.Model() && l.cur.Cursor? && l.cur.events == events && l.matched == matched && l.length == logLength
    modifies state
    ensures Round(state.Model(), failure, false) == Judge(l)
    ensures state.imaKeyrings == old(state.imaKeyrings)
  {
    if matched == None {
      return events + ["pcr_mismatch"];
    }
    var ok := state.CheckQuoteProgress(matched.value, logLength);
    failure := events + if ok then [] else ["quote_progress"];
  }

  /** Once an exception has left the loop nothing more happens. */
  lemma {:induction false} EscapedStays(env: Env, policy: Option<RuntimePolicy>, alg: HashAlg, s: State, lines: seq<string>, q: Bytes, n: nat)
    requires n <= |lines| && LoopTo(env, policy, alg, s, lines, q, n).cur.Escaped?
    ensures LoopTo(env, policy, alg, s, lines, q, |lines|) == LoopTo(env, policy, alg, s, lines, q, n)
    decreases |lines| - n
  {
    if n < |lines| {
      EscapedStays(env, policy, alg, s, lines, q, n + 1);
    }
  }

  /** The state is reset on any failure, but not when an exception escapes. */
  method ProcessMeasurementList(env: Env, policy: Option<RuntimePolicy>, alg: HashAlg, state: AgentAttestState,
                                lines: seq<string>, pcrval: Bytes)
    returns (failure: seq<string>, raised: bool)
    modifies state, state.tpmState, state.imaKeyrings
    ensures Round(state.Model(), failure, raised) == ProcessList(env, policy, alg, old(state.Model()), lines, pcrval)
    ensures state.imaKeyrings == old(state.imaKeyrings) || fresh(state.imaKeyrings)
  {
    failure, raised := ReplayList(env, policy, alg, state, lines, pcrval);
    if failure != [] {
      state.ResetImaAttestation();
    }
  }
}
