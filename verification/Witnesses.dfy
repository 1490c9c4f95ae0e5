/** Inputs at which the code falls short, worked out in full: one environment, a few lines, and what becomes of them. */
module Witnesses {
  import opened Bytes
  import opened Crypto
  import opened ImaAst
  import opened Keyrings
  import opened OrderedDict
  import opened AgentStates
  import opened Ima
  import opened Replay
  import opened HashChain
  import opened Persistence
  import opened TpmMain
  import opened CloudVerifierCommon
  import opened Incremental
  import DM = DeviceMapper
  import V = VerifierRuns

  // The environment

  /** Every input has the same hash: all ones, which no PCR starts from. */
  function Ones(alg: HashAlg): Bytes {
    seq(Size(alg), _ => 1)
  }

  const SIGNER := RsaKey(3, 3)

  /** One key is known to the library, and checking a signature with it raises. */
  const CRYPTO := Crypto(
    (alg: HashAlg, b: Bytes) => Ones(alg), (k: PubKey) => 1, (k: PubKey) => None, (b: Bytes) => None,
    (b: Bytes) => NotAKey, (k: PubKey, s: Bytes, h: Bytes, a: string) => CheckRaises)

  const META := DM.Meta(DM.Device("disk", "uuid"), 1, 1, 1, 0)

  /** Every device-mapper entry loads the table of the same device. */
  const DM_ENV := DM.DmEnv((name: string, data: Bytes) => DM.EventOf(DM.Load(META, [])), (b: Bytes) => true)

  const ENV := EnvWith(CRYPTO, DM_ENV, (s: string) => if s == "10" then Some(IMA_PCR) else None, false)

  const RULE := DM.Rule(
    "rule", (s: string) => true, (s: string) => true, (s: string) => true, (i: int) => true, (i: int) => true,
    (i: int) => true, (i: int) => true, Some(0), [], false, false, false, false, (s: string) => true, (s: string) => true, false)

  const RULES := DM.Policies(DM.ByName, [RULE])

  /** Every path is excluded from validation. */
  function PolicyWith(dm: Option<DM.Policies>): RuntimePolicy {
    RuntimePolicy(map[], map[], map[], (s: string) => true, {}, Sha1, dm)
  }

  const POLICY := Some(PolicyWith(None))

  // The lines

  const FILE := Digest(Ones(Sha1), "sha1", false)
  const GOOD := ImaNg(FILE, Name("a", false))
  const LOAD := ImaBuf(FILE, Name("dm_table_load", false), [])

  /** The line parses as an entry for PCR 10 of this mode and template hash. */
  ghost predicate Shows(line: string, templateHash: Bytes, m: Mode, alg: HashAlg) {
    && line != "" && ModeBytes(m).Some?
    && ENV.parse(line, Sha1, alg) == Parsed(Entry("10", templateHash, Ones(alg), m, ModeBytes(m).value))
  }

  /** The kernel's line for an entry. */
  lemma WrittenLine(templateHash: Bytes, m: Mode, alg: HashAlg) returns (line: string)
    requires Writable(m) && ModeBytes(m).Some? && templateHash != StartHash(Sha1)
    ensures Shows(line, templateHash, m, alg)
  {
    line := FormatLine("10", templateHash, m);
    LineRoundTrip(CRYPTO, "10", templateHash, m, Sha1, alg);
    assert |line| > 0;
  }

  lemma ShortNames()
    ensures |Utf8("a")| == 1 && |Utf8("dm_table_load")| == 13
  {
    Utf8OfAscii("a");
    Utf8OfAscii("dm_table_load");
    assert Ascii("a") && Ascii("dm_table_load");
  }

  lemma SmallIsPacked(m: Mode)
    requires !m.digest.legacy && !m.path.legacy && |m.digest.algorithm| == 4 && |m.digest.hash| == 20
    requires |Utf8(m.path.name)| <= 13 && (Extra(m).Some? ==> |Extra(m).value| <= 9)
    ensures ModeBytes(m).Some?
  {
    PackedExactly(m);
  }

  lemma FileIsWritable(d: Digest)
    requires d == FILE
    ensures |d.algorithm| == 4 && |d.hash| == 20 && ':' !in d.algorithm && ' ' !in d.algorithm && !d.legacy
  {
  }

  lemma GoodLine(templateHash: Bytes, alg: HashAlg) returns (line: string)
    requires templateHash != StartHash(Sha1)
    ensures Shows(line, templateHash, GOOD, alg)
  {
    ShortNames();
    FileIsWritable(FILE);
    SmallIsPacked(GOOD);
    line := WrittenLine(templateHash, GOOD, alg);
  }

  lemma LoadName(name: string)
    requires name == "dm_table_load"
    ensures ' ' !in name && name in DM_NAMES
  {
  }

  lemma LoadIsWritable(m: Mode)
    requires m == LOAD
    ensures Writable(m)
  {
    FileIsWritable(m.digest);
    LoadName(m.path.name);
  }

  lemma WrittenLoad(alg: HashAlg) returns (line: string)
    ensures Shows(line, Ones(Sha1), LOAD, alg)
  {
    ShortNames();
    FileIsWritable(FILE);
    HashesDiffer();
    LoadIsWritable(LOAD);
    SmallIsPacked(LOAD);
    line := WrittenLine(Ones(Sha1), LOAD, alg);
  }

  const BAD_HASH := FfHash(Sha1)[..19] + [0]

  lemma HashesDiffer()
    ensures Ones(Sha1) != StartHash(Sha1) && Ones(Sha1) != FfHash(Sha1)
    ensures BAD_HASH != StartHash(Sha1) && BAD_HASH != FfHash(Sha1) && BAD_HASH != Ones(Sha1)
  {
    assert Ones(Sha1)[0] == 1 && StartHash(Sha1)[0] == 0 && FfHash(Sha1)[0] == 0xFF;
    assert BAD_HASH[0] == 0xFF && BAD_HASH[19] == 0 && FfHash(Sha1)[19] == 0xFF;
  }

  lemma StartIsNotOnes(alg: HashAlg)
    ensures StartHash(alg) != Ones(alg)
  {
    assert StartHash(alg)[0] == 0 && Ones(alg)[0] == 1;
  }

  /** An entry whose template hash fits is looked at; what its data do is what the line does. */
  lemma DataStep(env: Env, policy: Option<RuntimePolicy>, alg: HashAlg, cur: Cursor, line: string, e: Entry)
    requires cur.Cursor? && (cur.dm.Some? <==> DmPolicies(policy).Some?) && line != ""
    requires env.parse(line, LogHashAlg(policy), alg) == Parsed(e) && HeadEvents(env, LogHashAlg(policy), e) == ([], true)
    ensures StepLine(env, policy, alg, cur, line) ==
            ValidateMode(env, policy, cur.(pcr := env.crypto.hash(alg, cur.pcr + e.pcrTemplateHash)), e.mode)
  {
    assert cur.events + [] == cur.events;
  }

  lemma HeadFits(e: Entry, alg: HashAlg)
    requires e.pcr == "10" && e.imaTemplateHash == Ones(Sha1)
    ensures HeadEvents(ENV, Sha1, e) == ([], true)
  {
    HashesDiffer();
  }

  /** An entry of a path that is excluded: only its template hash is looked at. */
  lemma FileStep(templateHash: Bytes, alg: HashAlg, cur: Cursor, line: string)
    requires cur.Cursor? && cur.dm.None? && Shows(line, templateHash, GOOD, alg) && templateHash != FfHash(Sha1)
    ensures StepLine(ENV, POLICY, alg, cur, line) ==
            cur.(pcr := Ones(alg), events := cur.events + if templateHash == Ones(Sha1) then [] else ["ima_hash"])
  {
    assert [] + ["ima_hash"] == ["ima_hash"];
    assert forall es: seq<string> :: es + [] == es;
  }

  // Blank lines

  /** A new agent whose list is a blank line and an entry: the entry is accepted and the verifier asks for entry 2. */
  lemma BlankLine(alg: HashAlg) returns (l: Listing)
    ensures l.s == INITIAL && |l.lines| == 2 && l.lines[0] == ""
    ensures var r := RoundOf(ENV, POLICY, alg, l); r.events == [] && !r.raised && r.state.next == 2 && CountLines(l.lines) == 1
  {
    HashesDiffer();
    StartIsNotOnes(alg);
    var line := GoodLine(Ones(Sha1), alg);
    l := Listing(INITIAL, ["", line], Ones(alg));
    var c := StartOf(POLICY, alg, l);
    FileStep(Ones(Sha1), alg, c, line);
    assert c.events + [] == [];
    BlankLineIsCounted(ENV, POLICY, alg, l, line);
  }

  // A line that raises

  /** The legacy template with a path that is longer than its field. */
  lemma RaisingLine(alg: HashAlg) returns (line: string)
    ensures ENV.parse(line, Sha1, alg).EntryRaises? && line != ""
  {
    var d, path := FILE.(legacy := true), Name(seq(256, _ => 'a'), true);
    FileIsWritable(FILE);
    LongPathRaises(CRYPTO, "10", Ones(Sha1), d, path, Sha1, alg);
    line := FormatLine("10", Ones(Sha1), Ima(d, path));
    assert |line| > 0;
  }

  /** A new agent whose list is an entry with a wrong template hash and a line that raises: the entry stays counted. */
  lemma FailedEntryStays(alg: HashAlg) returns (l: Listing)
    ensures l.s == INITIAL && FailureKept(ENV, POLICY, alg, l) && RoundOf(ENV, POLICY, alg, l).state.next == 1
  {
    HashesDiffer();
    StartIsNotOnes(alg);
    var bad := GoodLine(BAD_HASH, alg);
    var worse := RaisingLine(alg);
    l := Listing(INITIAL, [bad, worse], Ones(alg));
    FileStep(BAD_HASH, alg, StartOf(POLICY, alg, l), bad);
    KeptFailure(alg, l, bad, worse, StepLine(ENV, POLICY, alg, StartOf(POLICY, alg, l), bad));
  }

  lemma KeptFailure(alg: HashAlg, l: Listing, bad: string, worse: string, next: Cursor)
    requires l == Listing(INITIAL, [bad, worse], Ones(alg)) && next == StepLine(ENV, POLICY, alg, StartOf(POLICY, alg, l), bad)
    requires Shows(bad, BAD_HASH, GOOD, alg) && next.Cursor? && next.pcr == Ones(alg) && next.events != []
    requires ENV.parse(worse, Sha1, alg).EntryRaises? && worse != "" && StartHash(alg) != Ones(alg)
    ensures FailureKept(ENV, POLICY, alg, l) && RoundOf(ENV, POLICY, alg, l).state.next == 1
  {
    FailedThenRaising(ENV, POLICY, alg, l, bad, worse, next);
  }

  // A cut that outlives its boot

  const CFG := Config(
    ENV, PolicyWith(None), PcrPolicy(map[], false, ""), None, {"sha1"}, {"rsa"}, {"rsassa"}, "",
    (key: string, v: string, randomness: nat) => None)

  const NO_BOOT_LOG := BootLog(map[], [], (pcrs: set<int>) => [])

  /** A list from entry 0 in boot 5, with its quote, and then one from entry 7 in boot 8, whose quote is refused. */
  function FirstBoot(line: string): Response {
    Response(Some("key"), Some(Quote(Some(map[IMA_PCR := Ones(Sha1)]), Some(ClockInfo(1, 0, 0, 1)))), Some([line]), 0, 5,
             "sha1", "rsa", "rsassa", NO_BOOT_LOG, false)
  }

  const SECOND_BOOT := Response(Some("key"), Some(Quote(None, None)), None, 7, 8, "sha1", "rsa", "rsassa", NO_BOOT_LOG, false)

  lemma HeaderOk(a: Agent, r: Response)
    requires r.quote.Some? && r.pubkey.Some? && r.hashAlg == "sha1" && r.encAlg == "rsa" && r.signAlg == "rsassa"
    ensures NoteHeader(CFG, a, r).1
  {
  }

  /** One clean entry, matched: the round of the first boot. */
  lemma FirstRound(s: State, line: string, c: Cursor)
    requires Shows(line, Ones(Sha1), GOOD, Sha1) && c == StartCursor(POLICY, WithPcr(s, IMA_PCR, Sha1)) && c.pcr != Ones(Sha1)
    requires s.progress.None?
    ensures var r := ProcessList(ENV, POLICY, Sha1, s, [line], Ones(Sha1));
            r.events == [] && !r.raised && r.state.next == s.next + 1 && r.state.boottime == s.boottime
  {
    var lines := [line];
    assert lines[..0] == [] && lines[..1] == lines;
    HashesDiffer();
    FileStep(Ones(Sha1), Sha1, c, line);
    ScanNext(ENV, POLICY, Sha1, c, lines, 0);
    assert c.events + [] == [];
    assert MatchIn(ENV, POLICY, Sha1, c, lines, Ones(Sha1), 0).None?;
    assert MatchIn(ENV, POLICY, Sha1, c, lines, Ones(Sha1), 1) == Some(1);
    LoopClosedForm(ENV, POLICY, Sha1, s, lines, Ones(Sha1), 1);
  }

  lemma FirstPrepared(r: Response, line: string, timed: State)
    requires r == FirstBoot(line) && timed == INITIAL.(boottime := 5, clock := ClockInfo(1, 0, 0, 1))
    ensures AfterTiming(Prepared(CFG, V.NEW_AGENT.agent, INITIAL, r), r.quote.value) == timed
  {
    assert ResetIma(INITIAL) == INITIAL;
  }

  /** The state after the first boot: cut behind one entry. */
  lemma AfterFirst(line: string, s: State)
    requires Shows(line, Ones(Sha1), GOOD, Sha1)
    requires s == StateAfterResponse(CFG, V.NEW_AGENT.agent, INITIAL, FirstBoot(line))
    ensures s.next == 1 && s.boottime == 5
  {
    var a, r := V.NEW_AGENT.agent, FirstBoot(line);
    var timed := INITIAL.(boottime := 5, clock := ClockInfo(1, 0, 0, 1));
    HeaderOk(a, r);
    FirstPrepared(r, line, timed);
    StartIsNotOnes(Sha1);
    FirstRound(timed, line, StartCursor(POLICY, WithPcr(timed, IMA_PCR, Sha1)));
    assert s == ProcessList(ENV, POLICY, Sha1, timed, [line], Ones(Sha1)).state;
  }

  /** A response of another boot from a wrong entry, with a refused quote, leaves the cut under its own boot time. */
  lemma AfterSecond(a: Agent, s: State)
    requires s.next == 1 && s.boottime == 5
    ensures var t := StateAfterResponse(CFG, a, s, SECOND_BOOT); t.next == 1 && t.boottime == 8
  {
    HeaderOk(a, SECOND_BOOT);
  }

  /** Two responses to a new agent, and the entry that was validated in boot 5 counts in boot 8. */
  lemma CutOutlivesBoot() returns (acts: seq<V.Act>)
    ensures |acts| == 2 && acts[0].Respond? && acts[0].response.boottime == 5
    ensures acts[1].Respond? && acts[1].response.boottime == 8
    ensures V.Run(CFG, V.NEW_AGENT, acts[..1]).state.next == 1 && V.Run(CFG, V.NEW_AGENT, acts[..1]).state.boottime == 5
    ensures V.Run(CFG, V.NEW_AGENT, acts).state.next == 1 && V.Run(CFG, V.NEW_AGENT, acts).state.boottime == 8
  {
    HashesDiffer();
    var line := GoodLine(Ones(Sha1), Sha1);
    acts := [V.Respond(FirstBoot(line)), V.Respond(SECOND_BOOT)];
    TwoActs(acts[0], acts[1], acts);
    var w := V.Perform(CFG, V.NEW_AGENT, acts[0]);
    AfterFirst(line, w.state);
    AfterSecond(w.agent, w.state);
  }

  lemma TwoActs(first: V.Act, second: V.Act, acts: seq<V.Act>)
    requires acts == [first, second]
    ensures V.Run(CFG, V.NEW_AGENT, acts[..1]) == V.Perform(CFG, V.NEW_AGENT, first)
    ensures V.Run(CFG, V.NEW_AGENT, acts) == V.Perform(CFG, V.Perform(CFG, V.NEW_AGENT, first), second)
  {
    assert acts[..1] == [first] && [first][..0] == [];
    assert V.Run(CFG, V.NEW_AGENT, []) == V.NEW_AGENT;
    assert acts[..|acts| - 1] == [first];
  }

  // A restart under device rules

  const SETUP := Setup(ENV, Some(PolicyWith(Some(RULES))), Sha1, None, (id: nat) => SIGNER)

  const DISK := DM.DeviceState("rule", false, true, FILE, 0, false)

  /** Cut behind the load of one device's table, in boot 5. */
  const LOADED := INITIAL.(next := 1, boottime := 5, pcrs := map[IMA_PCR := Ones(Sha1)], algs := map[IMA_PCR := Sha1],
                           imaPcrs := {IMA_PCR}, dm := Some(map["disk" := DISK]))

  lemma LoadEntry(digest: Digest)
    requires digest == FILE
    ensures DM.LoadStep(RULES, map[], DM.Load(META, []), digest) == DM.Outcome(map["disk" := DISK], [])
    ensures DM.HashNamed(digest.algorithm) == Some(Sha1)
  {
    assert DM.FirstMatch(RULES.rules, "disk") == Some(RULE);
  }

  /** The load of a table, validated without devices. */
  lemma LoadValidated(digest: Digest, name: string, data: Bytes)
    requires digest == FILE
    ensures DM.ValidateEntry(CRYPTO, DM_ENV, RULES, map[], digest, name, data) == DM.Outcome(map["disk" := DISK], [])
  {
    LoadEntry(digest);
    var none: seq<string> := [];
    assert none + none == none;
  }

  lemma LoadsDisk(line: string)
    requires Shows(line, Ones(Sha1), LOAD, Sha1)
    ensures LoadsTable(SETUP, line, META, [])
  {
    LoadEntry(FILE);
    LoadName(LOAD.path.name);
    HeadFits(Entry("10", Ones(Sha1), Ones(Sha1), LOAD, ModeBytes(LOAD).value), Sha1);
  }

  /** What a load does to a cursor without devices. */
  lemma LoadMode(cur: Cursor, digest: Digest, path: Name, data: Bytes)
    requires cur.Cursor? && cur.dm == Some(map[]) && digest == FILE && path.name == "dm_table_load"
    ensures ValidateMode(ENV, SETUP.policy, cur, ImaBuf(digest, path, data)) == cur.(dm := Some(map["disk" := DISK]))
  {
    LoadName(path.name);
    LoadValidated(digest, path.name, data);
    assert cur.events + [] == cur.events;
  }

  /** The load, replayed by a new agent. */
  lemma LoadStepIs(line: string, cur: Cursor, e: Entry)
    requires Shows(line, Ones(Sha1), LOAD, Sha1) && cur == FullStart(SETUP)
    requires e == Entry("10", Ones(Sha1), Ones(Sha1), LOAD, ModeBytes(LOAD).value)
    ensures StepLine(ENV, SETUP.policy, Sha1, cur, line) == Cursor(Ones(Sha1), [], Some(map["disk" := DISK]), [])
  {
    HeadFits(e, Sha1);
    DataStep(ENV, SETUP.policy, Sha1, cur, line, e);
    LoadMode(cur.(pcr := Ones(Sha1)), e.mode.digest, e.mode.path, e.mode.data);
  }

  lemma LoadedReplay(line: string, init: seq<string>)
    requires Shows(line, Ones(Sha1), LOAD, Sha1) && init == [line]
    ensures Full(SETUP, init, 1) == Cursor(Ones(Sha1), [], Some(map["disk" := DISK]), [])
  {
    LoadStepIs(line, FullStart(SETUP), Entry("10", Ones(Sha1), Ones(Sha1), LOAD, ModeBytes(LOAD).value));
    assert Full(SETUP, init, 0) == FullStart(SETUP);
    assert Full(SETUP, init, 1) == StepLine(ENV, SETUP.policy, Sha1, Full(SETUP, init, 0), init[0]);
  }

  lemma LoadedFits(line: string, init: seq<string>, t: State, full: Cursor)
    requires init == [line] && t == LOADED && full == Full(SETUP, init, 1) && LessonId(SETUP, line).None?
    requires full == Cursor(Ones(Sha1), [], Some(map["disk" := DISK]), [])
    ensures Inv(SETUP, init, 1, t)
  {
    assert t.next == 1 && t.rings == [] && t.progress.None? && IMA_PCR in t.imaPcrs && t.pcrs[IMA_PCR] == Ones(Sha1);
    assert KeysOk(SETUP, t.rings) && Covers(full.rings, t.rings);
    assert KnowsLessons(SETUP, init, 1, t.rings);
    assert SameDevices(SETUP, init, t);
  }

  lemma NothingTaught(line: string)
    requires Shows(line, Ones(Sha1), LOAD, Sha1)
    ensures LessonId(SETUP, line).None?
  {
  }

  /** The same table loaded twice, with a restart in between: the verifier accepts what the full replay refuses. */
  lemma SecondLoadPasses() returns (line: string, s: State)
    ensures s == Reload(CRYPTO, Store(CRYPTO, EMPTY_ROW, LOADED)) && Inv(SETUP, [line], 1, LOADED)
    ensures NothingFound(ProcessList(ENV, SETUP.policy, Sha1, s, [line], Ones(Sha1)))
    ensures !NothingFound(FullReplay(SETUP, [line] + [line], 2, Ones(Sha1)))
  {
    line := WrittenLoad(Sha1);
    s := Reload(CRYPTO, Store(CRYPTO, EMPTY_ROW, LOADED));
    LoadsDisk(line);
    LoadedReplay(line, [line]);
    NothingTaught(line);
    LoadedFits(line, [line], LOADED, Full(SETUP, [line], 1));
    Restarted(line, [line], LOADED, s);
  }

  lemma Restarted(line: string, init: seq<string>, t: State, s: State)
    requires init == [line] && t == LOADED && s == Reload(CRYPTO, Store(CRYPTO, EMPTY_ROW, t))
    requires Inv(SETUP, init, 1, t) && LoadsTable(SETUP, line, META, [])
    ensures NothingFound(ProcessList(ENV, SETUP.policy, Sha1, s, [line], Ones(Sha1)))
    ensures !NothingFound(FullReplay(SETUP, init + [line], 2, Ones(Sha1)))
  {
    InUse();
    SetupIsSound();
    RestartHidesSecondLoad(SETUP, init + [line], init, line, EMPTY_ROW, t, s, Ones(Sha1), META, []);
  }

  lemma InUse()
    ensures ImaPcrValues(LOADED) != map[] && SecondLoad(SETUP, DevicesOf(LOADED), META)
  {
    assert IMA_PCR in ImaPcrValues(LOADED);
  }

  lemma SetupIsSound()
    ensures Sound(SETUP)
  {
  }

  // A device renamed by uuid

  /** Matching by uuid, a device gets a new uuid: it is filed under its name, and neither uuid finds it. */
  lemma RenameLosesDevice(ds: DM.Devices)
    requires ds == map["old" := DISK]
    ensures var o := DM.RenameStep(DM.Policies(DM.ByUuid, [RULE]), ds, DM.Rename(DM.Device("disk", "old"), "disk", "new"));
            o.Outcome? && o.events == [] && "new" !in o.devices && "old" !in o.devices && "disk" in o.devices
  {
    assert DM.RuleNamed([RULE], "rule") == Some(RULE);
  }

  // A key learned later

  /** A version 2 signature without contents, under hash SHA-1, by the key with id 1. */
  const SIGNATURE: Bytes := [3, 2, 2, 0, 0, 0, 1, 0, 0]

  const SIGNED := ImaSig(FILE, Name("a", false), Some(SIGNATURE))

  const LISTED := Some(PolicyWith(None).(digests := map["a" := {ToHex(Ones(Sha1))}], excluded := (s: string) => false))

  lemma SignatureNamesKey(b: Bytes)
    requires b == SIGNATURE
    ensures UsableSignature(b, "sha1") && SignerId(b, "sha1") == 1
  {
    var two, id := b[7..9], b[3..7];
    assert two[..1] == [0] && two[..1][..0] == [];
    assert FromBE(two[..1]) == 0 && FromBE(two) == FromBE(two[..1]) * 256 + 0;
    assert id[..1] == [0] && id[..2][..1] == id[..1] && id[..3][..2] == id[..2] && id[..1][..0] == [];
    assert FromBE(id[..1]) == 0 && FromBE(id[..2]) == 0 && FromBE(id[..3]) == 0;
    assert FromBE(id) == FromBE(id[..3]) * 256 + 1;
  }

  lemma ListedPath(digest: Digest, path: Name)
    requires digest == FILE && path.name == "a"
    ensures ValidateNg(LISTED, digest, path, Digests) == []
  {
  }

  lemma SignatureChecks(digest: Digest, path: Name, signature: Bytes)
    requires digest == FILE && path.name == "a" && signature == SIGNATURE
    ensures ValidateSig(CRYPTO, LISTED, Some([]), digest, path, Some(signature)) == Some([])
    ensures ValidateSig(CRYPTO, LISTED, Some([("ring", [(1, SIGNER)])]), digest, path, Some(signature)) == None
  {
    SignatureNamesKey(signature);
    ListedPath(digest, path);
    var rings: Rings := [("ring", [(1, SIGNER)])];
    assert FindKey(rings, 1) == Get(rings[0].1, 1) == Some(SIGNER);
  }

  lemma SignedIsWritable(m: Mode)
    requires m == SIGNED
    ensures Writable(m) && ModeBytes(m).Some?
  {
    ShortNames();
    FileIsWritable(m.digest);
    SignatureNamesKey(SIGNATURE);
    SmallIsPacked(m);
  }

  lemma SignedMode(cur: Cursor, m: Mode)
    requires cur.Cursor? && cur.dm.None? && m == SIGNED
    ensures cur.rings == [] ==> ValidateMode(ENV, LISTED, cur, m) == cur
    ensures cur.rings == [("ring", [(1, SIGNER)])] ==> ValidateMode(ENV, LISTED, cur, m).Escaped?
  {
    SignatureChecks(m.digest, m.path, m.signature.value);
    assert cur.events + [] == cur.events;
  }

  /** A signature that is not checked as long as its key is unknown, and raises once the key is learned. */
  lemma LearnedKeyRaises(alg: HashAlg, pcr: Bytes) returns (line: string)
    ensures Clean(StepLine(ENV, LISTED, alg, Cursor(pcr, [], None, []), line))
    ensures StepLine(ENV, LISTED, alg, Cursor(pcr, [("ring", [(1, SIGNER)])], None, []), line).Escaped?
  {
    HashesDiffer();
    SignedIsWritable(SIGNED);
    line := WrittenLine(Ones(Sha1), SIGNED, alg);
    var e := Entry("10", Ones(Sha1), Ones(alg), SIGNED, ModeBytes(SIGNED).value);
    SignedStep(line, alg, Cursor(pcr, [], None, []), e);
    SignedStep(line, alg, Cursor(pcr, [("ring", [(1, SIGNER)])], None, []), e);
  }

  lemma SignedStep(line: string, alg: HashAlg, cur: Cursor, e: Entry)
    requires cur.Cursor? && cur.dm.None? && Shows(line, Ones(Sha1), SIGNED, alg)
    requires e == Entry("10", Ones(Sha1), Ones(alg), SIGNED, ModeBytes(SIGNED).value)
    ensures cur.rings == [] ==> StepLine(ENV, LISTED, alg, cur, line) == cur.(pcr := Ones(alg))
    ensures cur.rings == [("ring", [(1, SIGNER)])] ==> StepLine(ENV, LISTED, alg, cur, line).Escaped?
  {
    HeadFits(e, alg);
    DataStep(ENV, LISTED, alg, cur, line, e);
    SignedMode(cur.(pcr := Ones(alg)), e.mode);
  }

  // A key taught into the tenant's ring

  /** A renewal without a tenant's ring: the key that a line taught into it is gone. */
  lemma TenantLessonIsLost(rings: Rings)
    requires rings == AddKey(CRYPTO, [], TENANT, SIGNER, Some(2))
    ensures FindKey(rings, 2) == Some(SIGNER) && FindKey(SetTenant(rings, None), 2) == None
  {
    var ring: Ring := [(2, SIGNER)];
    assert rings == [(TENANT, ring)] && rings[1..] == [];
  }
}
