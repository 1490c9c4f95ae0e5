/**
 * One round of incremental attestation against full replay: a round shows a suffix of the agent's log and its quote
 * lags behind it; from a state that fits the log, an accepted round means what one replay of the whole log against
 * the same quote means.
 */
module Incremental {
  import opened Bytes
  import opened Crypto
  import opened ImaAst
  import opened OrderedDict
  import opened Keyrings
  import opened AgentStates
  import opened Ima
  import opened Replay
  import opened Persistence
  import opened HashChain
  import DM = DeviceMapper

  /** What stays the same for an agent: policy, PCR hash, tenant keys, and the key each id stands for. */
  datatype Setup = Setup(env: Env, policy: Option<RuntimePolicy>, alg: HashAlg, tenant: Option<Ring>, keyOf: nat -> PubKey)

  // One replay of the whole log

  function FullStart(u: Setup): (r: Cursor)
    ensures r.Cursor? && (r.dm.Some? <==> DmPolicies(u.policy).Some?)
  {
    Cursor(StartHash(u.alg), SetTenant([], u.tenant), if DmPolicies(u.policy).Some? then Some(map[]) else None, [])
  }

  /** The replay from line `n` to line `k`, line by line. */
  function Between(u: Setup, log: seq<string>, n: nat, k: nat, start: Cursor): (r: Cursor)
    requires n <= k <= |log|
    requires start.Cursor? ==> (start.dm.Some? <==> DmPolicies(u.policy).Some?)
    ensures r.Cursor? ==> (r.dm.Some? <==> DmPolicies(u.policy).Some?)
    decreases k
  {
    if k == n then start else StepLine(u.env, u.policy, u.alg, Between(u, log, n, k - 1, start), log[k - 1])
  }

  /** The replay of the first `k` lines of the log. */
  function Full(u: Setup, log: seq<string>, k: nat): (r: Cursor)
    requires k <= |log|
    ensures r.Cursor? ==> (r.dm.Some? <==> DmPolicies(u.policy).Some?)
  {
    Between(u, log, 0, k, FullStart(u))
  }

  lemma {:induction false} BetweenIsScan(u: Setup, log: seq<string>, n: nat, k: nat, start: Cursor)
    requires n <= k <= |log| && Fits(u.policy, start)
    ensures Scan(u.env, u.policy, u.alg, start, log[n..k]) == Between(u, log, n, k, start)
    decreases k
  {
    if k > n {
      var j: nat := k - 1;
      BetweenIsScan(u, log, n, j, start);
      assert log[n..k] == log[n..j] + [log[j]];
      ScanSnoc(u.env, u.policy, u.alg, start, log[n..j], log[j]);
    }
  }

  // Hypotheses

  /** A key a line teaches has its id for itself and can be stored. */
  ghost predicate Teachable(u: Setup, line: string) {
    && DistinctKeyId(u.env, u.policy, u.alg, u.keyOf, line)
    && var lesson := LessonOf(u.env, u.policy, u.alg, line);
       lesson.Some? ==> u.env.crypto.toDer(lesson.value.1).Some?
  }

  ghost predicate Sound(u: Setup) {
    && u.env.parseInt("10") == Some(IMA_PCR)
    && DerLaw(u.env.crypto)
    && (u.tenant.Some? ==> ValidRing(u.env.crypto, u.tenant.value) && CoherentRing(u.tenant.value, u.keyOf))
  }

  /** The check of the line's signature does not raise with the key its id stands for. */
  ghost predicate Quiet(u: Setup, line: string) {
    match u.env.parse(line, LogHashAlg(u.policy), u.alg)
    case Parsed(e) =>
      e.mode.ImaSig? && e.mode.signature.Some? && UsableSignature(e.mode.signature.value, e.mode.digest.algorithm) ==>
        !u.env.crypto.sigVerify(u.keyOf(SignerId(e.mode.signature.value, e.mode.digest.algorithm)), e.mode.signature.value[9..],
                                e.mode.digest.hash, e.mode.digest.algorithm).CheckRaises?
    case _ => true
  }

  /** A log without blank lines whose keys do not collide and whose signatures can be checked. */
  ghost predicate ProperLog(u: Setup, log: seq<string>) {
    forall i | 0 <= i < |log| :: log[i] != "" && Teachable(u, log[i]) && Quiet(u, log[i])
  }

  lemma QuietNeverRaises(u: Setup, rings: Rings, line: string)
    requires Coherent(rings, u.keyOf) && Quiet(u, line)
    ensures !SignatureRaises(u.env, u.policy, u.alg, rings, line)
  {
    if SignatureRaises(u.env, u.policy, u.alg, rings, line) {
      var m := u.env.parse(line, LogHashAlg(u.policy), u.alg).entry.mode;
      CoherentFind(rings, u.keyOf, SignerId(m.signature.value, m.digest.algorithm));
    }
  }

  // What the lines teach

  function LessonId(u: Setup, line: string): Option<nat> {
    var lesson := LessonOf(u.env, u.policy, u.alg, line);
    if lesson.Some? then Some(KeyIdFor(u.env.crypto, lesson.value.1, lesson.value.2)) else None
  }

  predicate TeachesTenant(u: Setup, line: string) {
    var lesson := LessonOf(u.env, u.policy, u.alg, line);
    lesson.Some? && lesson.value.0 == TENANT
  }

  /** The learned rings hold every id the first `n` lines teach into them. */
  ghost predicate KnowsLessons(u: Setup, log: seq<string>, n: nat, rings: Rings)
    requires n <= |log|
  {
    forall i | 0 <= i < n && LessonId(u, log[i]).Some? && !TeachesTenant(u, log[i]) ::
      FindKey(Learned(rings), LessonId(u, log[i]).value).Some?
  }

  /** The ids the first `n` lines teach into the tenant's ring, where a renewal loses them, are known all the same. */
  ghost predicate KnowsTenantLessons(u: Setup, log: seq<string>, n: nat, rings: Rings)
    requires n <= |log|
  {
    forall i | 0 <= i < n && TeachesTenant(u, log[i]) :: FindKey(rings, LessonId(u, log[i]).value).Some?
  }

  // The invariant between rounds

  ghost predicate KeysOk(u: Setup, rings: Rings) {
    Coherent(rings, u.keyOf) && ValidRings(u.env.crypto, rings) && LearnedSerializable(u.env.crypto, rings)
  }

  /** The devices the next round starts from. */
  function DevicesOf(s: State): DM.Devices {
    if s.next != 0 && s.dm.Some? then s.dm.value else map[]
  }

  /**
   * The first `clean` lines of the log replay without failure; the state is cut at one of them, with the PCR of the
   * full replay there, no key the full replay of the clean part does not know, and the keys learned up to the cut.
   */
  ghost predicate InvCut(u: Setup, log: seq<string>, clean: nat, s: State) {
    && s.next <= clean <= |log| && Clean(Full(u, log, clean)) && Full(u, log, s.next).Cursor?
    && Registered(u.alg, s)
    && (s.next > 0 ==> IMA_PCR in s.pcrs)
    && (IMA_PCR in s.pcrs ==> s.pcrs[IMA_PCR] == Full(u, log, s.next).pcr)
    && KeysOk(u, s.rings) && Covers(Full(u, log, clean).rings, s.rings) && KnowsLessons(u, log, s.next, s.rings)
    && (s.progress.Some? ==> s.progress.value.0 <= s.progress.value.1 && s.progress.value.0 <= s.next
                             && s.next - s.progress.value.0 + s.progress.value.1 == clean)
  }

  /** The devices are those of the full replay at the cut. */
  ghost predicate SameDevices(u: Setup, log: seq<string>, s: State) {
    s.next <= |log| && Full(u, log, s.next).Cursor?
    && (DmPolicies(u.policy).Some? ==> Full(u, log, s.next).dm == Some(DevicesOf(s)))
  }

  ghost predicate Inv(u: Setup, log: seq<string>, clean: nat, s: State) {
    InvCut(u, log, clean, s) && SameDevices(u, log, s)
  }

  lemma EmptyLogInv(u: Setup, log: seq<string>, s: State)
    requires s.next == 0 && s.rings == [] && s.progress.None? && Registered(u.alg, s)
    requires IMA_PCR in s.pcrs ==> s.pcrs[IMA_PCR] == StartHash(u.alg)
    ensures Inv(u, log, 0, s)
  {
  }

  /** A reset fits any log. */
  lemma ResetInv(u: Setup, log: seq<string>, s: State)
    requires Registered(u.alg, s)
    ensures Inv(u, log, 0, ResetIma(s))
  {
    EmptyLogInv(u, log, ResetIma(s));
  }

  // Keys of the full replay

  lemma {:induction false} FullPrefixClean(u: Setup, log: seq<string>, k: nat, m: nat)
    requires k <= m <= |log| && Clean(Full(u, log, m))
    ensures Clean(Full(u, log, k))
    decreases m
  {
    if k < m {
      StepKeepsEvents(u.env, u.policy, u.alg, Full(u, log, m - 1), log[m - 1]);
      FullPrefixClean(u, log, k, m - 1);
    }
  }

  lemma {:induction false} FullCoherent(u: Setup, log: seq<string>, k: nat)
    requires Sound(u) && ProperLog(u, log) && k <= |log| && Clean(Full(u, log, k))
    ensures Coherent(Full(u, log, k).rings, u.keyOf)
  {
    if k == 0 {
      TenantCoherent([], u.tenant, u.keyOf);
    } else {
      FullPrefixClean(u, log, k - 1, k);
      FullCoherent(u, log, k - 1);
      StepLearns(u.env, u.policy, u.alg, Full(u, log, k - 1), log[k - 1]);
      LessonCoherent(u.env, u.policy, u.alg, u.keyOf, Full(u, log, k - 1).rings, log[k - 1]);
    }
  }

  /** What the full replay knows after `k` lines it still knows after `m`. */
  lemma {:induction false} FullGrows(u: Setup, log: seq<string>, k: nat, m: nat)
    requires k <= m <= |log| && Clean(Full(u, log, m))
    ensures Clean(Full(u, log, k)) && Covers(Full(u, log, m).rings, Full(u, log, k).rings)
    decreases m
  {
    FullPrefixClean(u, log, k, m);
    if k < m {
      FullPrefixClean(u, log, m - 1, m);
      FullGrows(u, log, k, m - 1);
      StepLearns(u.env, u.policy, u.alg, Full(u, log, m - 1), log[m - 1]);
      LessonGrows(u.env.crypto, Full(u, log, m - 1).rings, LessonOf(u.env, u.policy, u.alg, log[m - 1]));
    }
  }

  lemma FullKnowsTenant(u: Setup, log: seq<string>, m: nat, id: nat)
    requires m <= |log| && Clean(Full(u, log, m)) && u.tenant.Some? && Get(u.tenant.value, id).Some?
    ensures FindKey(Full(u, log, m).rings, id).Some?
  {
    FullGrows(u, log, 0, m);
    FindAfterPut([], TENANT, u.tenant.value, id);
  }

  lemma AddSerializable(c: Crypto, rings: Rings, name: string, key: PubKey, keyid: Option<nat>)
    requires ValidRings(c, rings) && LearnedSerializable(c, rings) && c.toDer(key).Some?
    ensures LearnedSerializable(c, AddKey(c, rings, name, key, keyid))
  {
    var ring := RingNamed(rings, name);
    GetSome(rings, name);
    if Get(rings, name).Some? {
      var i :| 0 <= i < |rings| && rings[i] == (name, ring);
      assert ValidRing(c, rings[i].1);
      assert name != TENANT ==> Serializable(c, rings[i].1);
    }
    var id := KeyIdFor(c, key, keyid);
    PutKeys(ring, id, key);
    var ring' := Put(ring, id, key);
    forall j | 0 <= j < |ring'| && name != TENANT
      ensures c.toDer(ring'[j].1).Some?
    {
      assert ring'[j] in ring';
    }
    PutKeys(rings, name, ring');
    var r := Put(rings, name, ring');
    forall j | 0 <= j < |r| && r[j].0 != TENANT
      ensures Serializable(c, r[j].1)
    {
      assert r[j] in r;
    }
  }

  lemma LessonKeysOk(u: Setup, rings: Rings, line: string)
    requires KeysOk(u, rings) && Teachable(u, line)
    ensures KeysOk(u, LearnLesson(u.env.crypto, rings, LessonOf(u.env, u.policy, u.alg, line)))
  {
    LessonCoherent(u.env, u.policy, u.alg, u.keyOf, rings, line);
    var lesson := LessonOf(u.env, u.policy, u.alg, line);
    if lesson.Some? {
      AddKeepsValidRings(u.env.crypto, rings, lesson.value.0, lesson.value.1, lesson.value.2);
      AddSerializable(u.env.crypto, rings, lesson.value.0, lesson.value.1, lesson.value.2);
    }
  }

  lemma TenantKeysOk(u: Setup, rings: Rings)
    requires Sound(u) && KeysOk(u, rings)
    ensures KeysOk(u, SetTenant(rings, u.tenant))
  {
    TenantCoherent(rings, u.tenant, u.keyOf);
    TenantKeepsValidRings(u.env.crypto, rings, u.tenant);
    if u.tenant.Some? {
      PutKeys(rings, TENANT, u.tenant.value);
      var r := Put(rings, TENANT, u.tenant.value);
      forall j | 0 <= j < |r| && r[j].0 != TENANT
        ensures Serializable(u.env.crypto, r[j].1)
      {
        assert r[j] in r;
      }
    } else {
      RemoveKeys(rings, TENANT);
      var r := Remove(rings, TENANT);
      forall j | 0 <= j < |r|
        ensures Serializable(u.env.crypto, r[j].1)
      {
        assert r[j] in rings;
        assert r[j].0 != TENANT;
      }
    }
  }

  // One round

  /** Before a round the tenant's keys are set anew, with the boot time and the clock to go by. */
  lemma RenewedInv(u: Setup, log: seq<string>, clean: nat, s: State, boottime: int, clock: ClockInfo)
    requires Sound(u) && Inv(u, log, clean, s)
    ensures Inv(u, log, clean, s.(boottime := boottime, rings := SetTenant(s.rings, u.tenant), clock := clock))
  {
    forall id: nat | u.tenant.Some? && Get(u.tenant.value, id).Some?
      ensures FindKey(Full(u, log, clean).rings, id).Some?
    {
      FullKnowsTenant(u, log, clean, id);
    }
    TenantCovers(Full(u, log, clean).rings, s.rings, u.tenant);
    TenantKeysOk(u, s.rings);
    RenewedKeys(s.rings, u.tenant, 0);
  }

  function Max(a: nat, b: nat): nat {
    if a > b then a else b
  }

  /** A cursor of the round at line `k` of the log, seen from the full replay. */
  ghost predicate Agrees(u: Setup, log: seq<string>, clean: nat, k: nat, cur: Cursor)
    requires k <= |log| && clean <= |log|
  {
    && Clean(cur) && Clean(Full(u, log, Max(k, clean))) && Clean(Full(u, log, k))
    && cur.pcr == Full(u, log, k).pcr && cur.dm == Full(u, log, k).dm
    && KeysOk(u, cur.rings) && Covers(Full(u, log, Max(k, clean)).rings, cur.rings)
  }

  /** Lines shown before: the full replay of the clean part already knows what they teach. */
  lemma ShownAgain(u: Setup, log: seq<string>, clean: nat, k: nat, cur: Cursor)
    requires Sound(u) && ProperLog(u, log) && k < clean <= |log|
    requires Agrees(u, log, clean, k, cur) && Fits(u.policy, cur)
    requires Clean(StepLine(u.env, u.policy, u.alg, cur, log[k]))
    ensures Agrees(u, log, clean, k + 1, StepLine(u.env, u.policy, u.alg, cur, log[k]))
  {
    var next, lesson := StepLine(u.env, u.policy, u.alg, cur, log[k]), LessonOf(u.env, u.policy, u.alg, log[k]);
    FullPrefixClean(u, log, k + 1, clean);
    StepDevices(u.env, u.policy, u.alg, cur, Full(u, log, k), log[k]);
    StepPcr(u.env, u.policy, u.alg, cur, log[k]);
    StepPcr(u.env, u.policy, u.alg, Full(u, log, k), log[k]);
    StepLearns(u.env, u.policy, u.alg, cur, log[k]);
    StepLearns(u.env, u.policy, u.alg, Full(u, log, k), log[k]);
    LessonKeysOk(u, cur.rings, log[k]);
    FullGrows(u, log, k + 1, clean);
    forall id: nat | FindKey(next.rings, id).Some?
      ensures FindKey(Full(u, log, clean).rings, id).Some?
    {
      if lesson.Some? {
        FindAfterAdd(u.env.crypto, cur.rings, lesson.value.0, lesson.value.1, lesson.value.2, id);
        FindAfterAdd(u.env.crypto, Full(u, log, k).rings, lesson.value.0, lesson.value.1, lesson.value.2, id);
      }
    }
  }

  /** Two replays take the same line, one knowing at least the keys of the other. */
  lemma StepsAgree(u: Setup, more: Cursor, less: Cursor, line: string)
    requires Clean(more) && Clean(less) && Fits(u.policy, more) && Fits(u.policy, less) && Teachable(u, line) && Quiet(u, line)
    requires more.pcr == less.pcr && more.dm == less.dm && Coherent(more.rings, u.keyOf)
    requires KeysOk(u, less.rings) && Covers(more.rings, less.rings)
    requires Clean(StepLine(u.env, u.policy, u.alg, less, line))
    ensures var more', less' := StepLine(u.env, u.policy, u.alg, more, line), StepLine(u.env, u.policy, u.alg, less, line);
            && Clean(more') && more'.pcr == less'.pcr && more'.dm == less'.dm
            && KeysOk(u, less'.rings) && Covers(more'.rings, less'.rings)
  {
    StepMonotone(u.env, u.policy, u.alg, u.keyOf, more, less, line);
    QuietNeverRaises(u, more.rings, line);
    StepPcr(u.env, u.policy, u.alg, less, line);
    StepPcr(u.env, u.policy, u.alg, more, line);
    StepLearns(u.env, u.policy, u.alg, less, line);
    StepLearns(u.env, u.policy, u.alg, more, line);
    LessonKeysOk(u, less.rings, line);
    LessonKeepsOrder(u.env.crypto, more.rings, less.rings, LessonOf(u.env, u.policy, u.alg, line));
  }

  /** Lines shown for the first time: the full replay knows at least as many keys, so it accepts them too. */
  lemma ShownFirst(u: Setup, log: seq<string>, clean: nat, k: nat, cur: Cursor)
    requires Sound(u) && ProperLog(u, log) && clean <= k < |log|
    requires Agrees(u, log, clean, k, cur) && Fits(u.policy, cur)
    requires Clean(StepLine(u.env, u.policy, u.alg, cur, log[k]))
    ensures Agrees(u, log, clean, k + 1, StepLine(u.env, u.policy, u.alg, cur, log[k]))
  {
    FullCoherent(u, log, k);
    StepsAgree(u, Full(u, log, k), cur, log[k]);
    assert Full(u, log, k + 1) == StepLine(u.env, u.policy, u.alg, Full(u, log, k), log[k]);
  }

  lemma AgreesNext(u: Setup, log: seq<string>, clean: nat, j: nat, k: nat, before: Cursor, after: Cursor)
    requires Sound(u) && ProperLog(u, log) && j + 1 == k <= |log| && clean <= |log|
    requires Agrees(u, log, clean, j, before) && Fits(u.policy, before)
    requires after == StepLine(u.env, u.policy, u.alg, before, log[j]) && Clean(after)
    ensures Agrees(u, log, clean, k, after)
  {
    if j < clean {
      ShownAgain(u, log, clean, j, before);
    } else {
      ShownFirst(u, log, clean, j, before);
    }
  }

  lemma BetweenNext(u: Setup, log: seq<string>, n: nat, j: nat, k: nat, start: Cursor)
    requires n <= j && j + 1 == k <= |log| && Fits(u.policy, start)
    ensures Between(u, log, n, k, start) == StepLine(u.env, u.policy, u.alg, Between(u, log, n, j, start), log[j])
    ensures Clean(Between(u, log, n, k, start)) ==> Clean(Between(u, log, n, j, start))
  {
    StepKeepsEvents(u.env, u.policy, u.alg, Between(u, log, n, j, start), log[j]);
  }

  /** Every cursor of a clean round agrees with the full replay. */
  lemma {:induction false} RoundAgrees(u: Setup, log: seq<string>, clean: nat, n: nat, k: nat, start: Cursor)
    requires Sound(u) && ProperLog(u, log) && n <= k <= |log| && n <= clean <= |log|
    requires Agrees(u, log, clean, n, start) && Fits(u.policy, start) && Clean(Between(u, log, n, k, start))
    ensures Agrees(u, log, clean, k, Between(u, log, n, k, start))
    decreases k
  {
    if k > n {
      var j: nat := k - 1;
      BetweenNext(u, log, n, j, k, start);
      RoundAgrees(u, log, clean, n, j, start);
      AgreesNext(u, log, clean, j, k, Between(u, log, n, j, start), Between(u, log, n, k, start));
    }
  }

  ghost predicate Blank(lines: seq<string>) {
    forall i | 0 <= i < |lines| :: lines[i] == ""
  }

  /** A round over the log from the state's cut up to line `shown`, with blank lines at the end. */
  function ShowRound(u: Setup, s: State, log: seq<string>, shown: nat, blanks: seq<string>, q: Bytes): Round
    requires s.next <= shown <= |log|
  {
    ProcessList(u.env, u.policy, u.alg, s, log[s.next..shown] + blanks, q)
  }

  predicate NothingFound(r: Round) {
    r.events == [] && !r.raised
  }

  lemma StartAgrees(u: Setup, log: seq<string>, clean: nat, s: State)
    requires Sound(u) && ProperLog(u, log) && Inv(u, log, clean, s)
    ensures Agrees(u, log, clean, s.next, StartCursor(u.policy, WithPcr(s, IMA_PCR, u.alg)))
  {
    FullPrefixClean(u, log, s.next, clean);
  }

  /** Blank lines at the end change nothing and are not counted. */
  lemma ShownThenBlank(u: Setup, c: Cursor, lines: seq<string>, blanks: seq<string>)
    requires Fits(u.policy, c) && Blank(blanks)
    ensures Scan(u.env, u.policy, u.alg, c, lines + blanks) == Scan(u.env, u.policy, u.alg, c, lines)
  {
    ScanSplit(u.env, u.policy, u.alg, c, lines, blanks);
    ScanBlanks(u.env, u.policy, u.alg, Scan(u.env, u.policy, u.alg, c, lines), blanks);
  }

  lemma ClosedRound(u: Setup, s: State, lines: seq<string>, q: Bytes)
    requires Sound(u) && Clean(Scan(u.env, u.policy, u.alg, StartCursor(u.policy, WithPcr(s, IMA_PCR, u.alg)), lines))
    ensures IsClosedForm(u.env, u.policy, u.alg, WithPcr(s, IMA_PCR, u.alg), lines, q, |lines|,
                         LoopTo(u.env, u.policy, u.alg, s, lines, q, |lines|))
  {
    assert lines[..|lines|] == lines;
    LoopClosedForm(u.env, u.policy, u.alg, s, lines, q, |lines|);
  }

  /** An accepted round replays without failure and finds the quote. */
  lemma AcceptedIsClean(u: Setup, s: State, lines: seq<string>, q: Bytes)
    requires Sound(u) && NothingFound(ProcessList(u.env, u.policy, u.alg, s, lines, q))
    ensures Clean(Scan(u.env, u.policy, u.alg, StartCursor(u.policy, WithPcr(s, IMA_PCR, u.alg)), lines))
    ensures var l := LoopTo(u.env, u.policy, u.alg, s, lines, q, |lines|);
            && l.matched.Some? && QuoteProgresses(l.state.progress, l.matched.value, l.length)
            && ProcessList(u.env, u.policy, u.alg, s, lines, q).state
               == l.state.(progress := Some((l.matched.value, l.length)))
  {
    assert lines[..|lines|] == lines;
    LoopIsScan(u.env, u.policy, u.alg, s, lines, q, |lines|);
  }

  /** In an accepted round over the log the quote is met within the log, at the cut the new state records. */
  lemma MatchWithinLog(u: Setup, c: Cursor, lines: seq<string>, blanks: seq<string>, q: Bytes)
    requires c.Cursor? && Fits(u.policy, c) && Blank(blanks) && Clean(Scan(u.env, u.policy, u.alg, c, lines + blanks))
    requires MatchIn(u.env, u.policy, u.alg, c, lines + blanks, q, |lines + blanks|).Some?
    ensures var m := MatchIn(u.env, u.policy, u.alg, c, lines + blanks, q, |lines + blanks|).value;
            m <= |lines| && (lines + blanks)[..m] == lines[..m]
            && Clean(Scan(u.env, u.policy, u.alg, c, lines[..m])) && Scan(u.env, u.policy, u.alg, c, lines[..m]).pcr == q
  {
    var all := lines + blanks;
    var m := MatchIn(u.env, u.policy, u.alg, c, all, q, |all|).value;
    assert all[..|all|] == all;
    MatchIsFirst(u.env, u.policy, u.alg, c, all, q, |all|, 0);
    CleanPrefix(u.env, u.policy, u.alg, c, all, m);
    if m > |lines| {
      assert all[..m] == lines + blanks[..m - |lines|] && all[..|lines|] == lines;
      ShownThenBlank(u, c, lines, blanks[..m - |lines|]);
      MatchIsFirst(u.env, u.policy, u.alg, c, all, q, |all|, |lines|);
    }
    assert all[..m] == lines[..m];
  }

  /** An accepted round over lines with blanks behind them: where it is cut, where it ends, what it leaves. */
  lemma RoundScan(u: Setup, s: State, lines: seq<string>, blanks: seq<string>, q: Bytes, c: Cursor, r: Round, shown: nat)
    returns (m: nat, atCut: Cursor, atEnd: Cursor)
    requires Sound(u) && (forall i | 0 <= i < |lines| :: lines[i] != "") && Blank(blanks)
    requires c == StartCursor(u.policy, WithPcr(s, IMA_PCR, u.alg))
    requires r == ProcessList(u.env, u.policy, u.alg, s, lines + blanks, q) && NothingFound(r) && shown == |lines|
    ensures m <= shown && Clean(atCut) && Clean(atEnd) && atCut.pcr == q
    ensures atCut == Scan(u.env, u.policy, u.alg, c, lines[..m]) && atEnd == Scan(u.env, u.policy, u.alg, c, lines)
    ensures QuoteProgresses(s.progress, m, shown)
    ensures r.state == StateAfter(u.policy, WithPcr(s, IMA_PCR, u.alg), atCut, atEnd, Some(m)).(progress := Some((m, shown)))
  {
    var all := lines + blanks;
    AcceptedIsClean(u, s, all, q);
    ClosedRound(u, s, all, q);
    MatchWithinLog(u, c, lines, blanks, q);
    ShownThenBlank(u, c, lines, blanks);
    CountNonBlank(lines, blanks);
    assert all[..|all|] == all;
    m := MatchIn(u.env, u.policy, u.alg, c, all, q, |all|).value;
    atCut, atEnd := Scan(u.env, u.policy, u.alg, c, lines[..m]), Scan(u.env, u.policy, u.alg, c, lines);
  }

  /** The state an accepted round over the log leaves, cut `m` lines further. */
  lemma RoundState(u: Setup, log: seq<string>, s: State, shown: nat, len: nat, lines: seq<string>, blanks: seq<string>,
                   q: Bytes,
                   start: Cursor, r: Round)
    returns (m: nat, cut: nat, atCut: Cursor, atEnd: Cursor)
    requires Sound(u) && ProperLog(u, log) && s.next + len == shown <= |log| && lines == log[s.next..shown] && Blank(blanks)
    requires start == StartCursor(u.policy, WithPcr(s, IMA_PCR, u.alg))
    requires r == ProcessList(u.env, u.policy, u.alg, s, lines + blanks, q) && NothingFound(r)
    ensures cut == s.next + m <= shown && Clean(atCut) && Clean(atEnd) && atCut.pcr == q
    ensures atCut == Between(u, log, s.next, cut, start) && atEnd == Between(u, log, s.next, shown, start)
    ensures QuoteProgresses(s.progress, m, len)
    ensures r.state == StateAfter(u.policy, WithPcr(s, IMA_PCR, u.alg), atCut, atEnd, Some(m)).(progress := Some((m, len)))
  {
    m, atCut, atEnd := RoundScan(u, s, lines, blanks, q, start, r, len);
    cut := s.next + m;
    ScanIsBetween(u, log, s.next, cut, shown, lines, start, atCut, atEnd);
  }

  lemma ScanIsBetween(u: Setup, log: seq<string>, n: nat, cut: nat, shown: nat, lines: seq<string>, start: Cursor,
                      atCut: Cursor, atEnd: Cursor)
    requires n <= cut <= shown <= |log| && lines == log[n..shown] && Fits(u.policy, start)
    requires atCut == Scan(u.env, u.policy, u.alg, start, lines[..cut - n]) && atEnd == Scan(u.env, u.policy, u.alg, start, lines)
    ensures atCut == Between(u, log, n, cut, start) && atEnd == Between(u, log, n, shown, start)
  {
    assert lines[..cut - n] == log[n..cut];
    BetweenIsScan(u, log, n, cut, start);
    BetweenIsScan(u, log, n, shown, start);
  }

  /** The full replay at the line of a clean cursor: same PCR, same devices. */
  ghost predicate SamePoint(u: Setup, log: seq<string>, k: nat, cur: Cursor)
    requires k <= |log|
  {
    Clean(cur) && Clean(Full(u, log, k)) && cur.pcr == Full(u, log, k).pcr && cur.dm == Full(u, log, k).dm
  }

  /** The keys at the end of an accepted round. */
  ghost predicate EndKeys(u: Setup, log: seq<string>, cut: nat, shown: nat, rings: Rings)
    requires cut <= |log| && shown <= |log| && Full(u, log, shown).Cursor?
  {
    KeysOk(u, rings) && Covers(Full(u, log, shown).rings, rings) && KnowsLessons(u, log, cut, rings)
  }

  /** Two states that differ in progress at most. */
  ghost predicate StatesAgree(s: State, t: State) {
    s == t.(progress := s.progress)
  }

  /** The devices at the new cut. */
  lemma CutDevices(u: Setup, log: seq<string>, s: State, m: nat, cut: nat, atCut: Cursor, atEnd: Cursor, s': State)
    requires Clean(atCut) && Clean(atEnd) && cut == s.next + m && cut <= |log|
    requires StatesAgree(s', StateAfter(u.policy, WithPcr(s, IMA_PCR, u.alg), atCut, atEnd, Some(m)))
    requires SameDevices(u, log, s) && SamePoint(u, log, cut, atCut)
    ensures SameDevices(u, log, s')
  {
  }

  lemma CutInv(u: Setup, log: seq<string>, clean: nat, s: State, shown: nat, len: nat, m: nat, cut: nat, atCut: Cursor,
               atEnd: Cursor, s': State)
    requires Clean(atCut) && Clean(atEnd) && cut == s.next + m <= shown == s.next + len
    requires s' == StateAfter(u.policy, WithPcr(s, IMA_PCR, u.alg), atCut, atEnd, Some(m)).(progress := Some((m, len)))
    requires Inv(u, log, clean, s) && clean <= shown <= |log|
    requires SamePoint(u, log, cut, atCut) && Clean(Full(u, log, shown))
    requires EndKeys(u, log, cut, shown, atEnd.rings)
    ensures Inv(u, log, shown, s')
  {
    CutDevices(u, log, s, m, cut, atCut, atEnd, s');
  }

  lemma OneLesson(u: Setup, log: seq<string>, j: nat, k: nat, before: Cursor, after: Cursor)
    requires j + 1 == k <= |log| && before.Cursor? && Fits(u.policy, before) && after.Cursor?
    requires after == StepLine(u.env, u.policy, u.alg, before, log[j]) && KnowsLessons(u, log, j, before.rings)
    ensures KnowsLessons(u, log, k, after.rings)
  {
    StepLearns(u.env, u.policy, u.alg, before, log[j]);
    var lesson := LessonOf(u.env, u.policy, u.alg, log[j]);
    forall i: nat | i < k && LessonId(u, log[i]).Some? && !TeachesTenant(u, log[i])
      ensures FindKey(Learned(after.rings), LessonId(u, log[i]).value).Some?
    {
      if lesson.Some? {
        var id := LessonId(u, log[i]).value;
        LearnedAfterAdd(u.env.crypto, before.rings, lesson.value.0, lesson.value.1, lesson.value.2);
        FindAfterAdd(u.env.crypto, Learned(before.rings), lesson.value.0, lesson.value.1, lesson.value.2, id);
      }
    }
  }

  /** The learned rings hold what the lines of a round teach. */
  lemma {:induction false} LessonsKnown(u: Setup, log: seq<string>, n: nat, k: nat, start: Cursor)
    requires n <= k <= |log| && Fits(u.policy, start) && Clean(Between(u, log, n, k, start)) && start.Cursor?
    requires KnowsLessons(u, log, n, start.rings)
    ensures KnowsLessons(u, log, k, Between(u, log, n, k, start).rings)
    decreases k
  {
    if k > n {
      var j: nat := k - 1;
      BetweenNext(u, log, n, j, k, start);
      LessonsKnown(u, log, n, j, start);
      OneLesson(u, log, j, k, Between(u, log, n, j, start), Between(u, log, n, k, start));
    }
  }

  lemma RoundPoints(u: Setup, log: seq<string>, clean: nat, n: nat, cut: nat, shown: nat, start: Cursor, atCut: Cursor,
                    atEnd: Cursor)
    requires Sound(u) && ProperLog(u, log) && n <= cut <= shown <= |log| && n <= clean <= shown
    requires Agrees(u, log, clean, n, start) && Fits(u.policy, start) && KnowsLessons(u, log, n, start.rings)
    requires Clean(atCut) && atCut == Between(u, log, n, cut, start)
    requires Clean(atEnd) && atEnd == Between(u, log, n, shown, start)
    ensures SamePoint(u, log, cut, atCut) && (cut == n ==> atCut.pcr == start.pcr)
    ensures Clean(Full(u, log, shown)) && EndKeys(u, log, cut, shown, atEnd.rings)
  {
    RoundAgrees(u, log, clean, n, cut, start);
    RoundAgrees(u, log, clean, n, shown, start);
    LessonsKnown(u, log, n, shown, start);
  }

  /** What an accepted round leaves: its progress, its quote, and how far it got. */
  ghost predicate RoundOutcome(u: Setup, clean: nat, s: State, shown: nat, q: Bytes, s': State) {
    && s.next <= s'.next <= shown && IMA_PCR in s'.pcrs && s'.pcrs[IMA_PCR] == q
    && s'.progress == Some((s'.next - s.next, shown - s.next))
    && s'.boottime == s.boottime
    && (s.progress.Some? ==> s'.next >= clean)
  }

  lemma CutOutcome(u: Setup, clean: nat, s: State, shown: nat, len: nat, m: nat, atCut: Cursor, atEnd: Cursor, s': State)
    requires s.next + m <= shown == s.next + len && clean <= shown && atCut.Cursor? && atEnd.Cursor?
    requires s' == StateAfter(u.policy, WithPcr(s, IMA_PCR, u.alg), atCut, atEnd, Some(m)).(progress := Some((m, len)))
    requires m == 0 ==> atCut.pcr == WithPcr(s, IMA_PCR, u.alg).pcrs[IMA_PCR]
    requires s.progress.Some? ==> s.progress.value.0 <= s.progress.value.1 && s.progress.value.0 <= s.next
                                  && s.next - s.progress.value.0 + s.progress.value.1 == clean
    requires QuoteProgresses(s.progress, m, len)
    ensures RoundOutcome(u, clean, s, shown, atCut.pcr, s')
  {
    if s.progress.Some? {
      ProgressMeansCaughtUp(s.progress.value, s.next, m, len);
    }
  }

  lemma PointsOfRound(u: Setup, log: seq<string>, clean: nat, s: State, shown: nat, cut: nat, start: Cursor,
                      atCut: Cursor, atEnd: Cursor)
    requires Sound(u) && ProperLog(u, log) && Inv(u, log, clean, s) && s.next <= cut <= shown <= |log| && clean <= shown
    requires start == StartCursor(u.policy, WithPcr(s, IMA_PCR, u.alg))
    requires Clean(atCut) && atCut == Between(u, log, s.next, cut, start)
    requires Clean(atEnd) && atEnd == Between(u, log, s.next, shown, start)
    ensures SamePoint(u, log, cut, atCut) && (cut == s.next ==> atCut.pcr == start.pcr)
    ensures Clean(Full(u, log, shown)) && EndKeys(u, log, cut, shown, atEnd.rings)
  {
    StartAgrees(u, log, clean, s);
    RoundPoints(u, log, clean, s.next, cut, shown, start, atCut, atEnd);
  }

  lemma CutFollows(u: Setup, log: seq<string>, clean: nat, s: State, shown: nat, len: nat, m: nat, cut: nat,
                   atCut: Cursor, atEnd: Cursor, s': State)
    requires Inv(u, log, clean, s) && clean <= shown <= |log| && cut == s.next + m <= shown == s.next + len
    requires SamePoint(u, log, cut, atCut) && Clean(atEnd) && Clean(Full(u, log, shown))
    requires EndKeys(u, log, cut, shown, atEnd.rings)
    requires m == 0 ==> atCut.pcr == WithPcr(s, IMA_PCR, u.alg).pcrs[IMA_PCR]
    requires QuoteProgresses(s.progress, m, len)
    requires s' == StateAfter(u.policy, WithPcr(s, IMA_PCR, u.alg), atCut, atEnd, Some(m)).(progress := Some((m, len)))
    ensures Inv(u, log, shown, s') && RoundOutcome(u, clean, s, shown, atCut.pcr, s')
  {
    CutOutcome(u, clean, s, shown, len, m, atCut, atEnd, s');
    CutInv(u, log, clean, s, shown, len, m, cut, atCut, atEnd, s');
  }

  lemma RoundFollows(u: Setup, log: seq<string>, clean: nat, s: State, shown: nat, len: nat, m: nat, cut: nat, start: Cursor,
                     atCut: Cursor, atEnd: Cursor, s': State)
    requires Sound(u) && ProperLog(u, log) && Inv(u, log, clean, s) && clean <= shown <= |log|
    requires cut == s.next + m <= shown == s.next + len
    requires start == StartCursor(u.policy, WithPcr(s, IMA_PCR, u.alg))
    requires Clean(atCut) && atCut == Between(u, log, s.next, cut, start)
    requires Clean(atEnd) && atEnd == Between(u, log, s.next, shown, start)
    requires QuoteProgresses(s.progress, m, len)
    requires s' == StateAfter(u.policy, WithPcr(s, IMA_PCR, u.alg), atCut, atEnd, Some(m)).(progress := Some((m, len)))
    ensures Inv(u, log, shown, s') && RoundOutcome(u, clean, s, shown, atCut.pcr, s')
  {
    PointsOfRound(u, log, clean, s, shown, cut, start, atCut, atEnd);
    CutFollows(u, log, clean, s, shown, len, m, cut, atCut, atEnd, s');
  }

  /** The new state is cut where the full replay of the log has the quoted PCR, and the invariant holds again. */
  lemma RoundInv(u: Setup, log: seq<string>, clean: nat, s: State, shown: nat, blanks: seq<string>,
                 q: Bytes) returns (s': State)
    requires Sound(u) && ProperLog(u, log) && Inv(u, log, clean, s) && clean <= shown <= |log| && Blank(blanks)
    requires NothingFound(ShowRound(u, s, log, shown, blanks, q))
    ensures s' == ShowRound(u, s, log, shown, blanks, q).state
    ensures Inv(u, log, shown, s') && RoundOutcome(u, clean, s, shown, q, s')
  {
    var start := StartCursor(u.policy, WithPcr(s, IMA_PCR, u.alg));
    var lines, r, len := log[s.next..shown], ShowRound(u, s, log, shown, blanks, q), shown - s.next;
    var m, cut, atCut, atEnd := RoundState(u, log, s, shown, len, lines, blanks, q, start, r);
    s' := r.state;
    RoundFollows(u, log, clean, s, shown, len, m, cut, start, atCut, atEnd, s');
  }

  // Full replay

  /** A state that has seen nothing, with the tenant's keys. */
  function FreshState(u: Setup): State {
    INITIAL.(rings := SetTenant([], u.tenant))
  }

  /** The full replay of the first `shown` lines, from a fresh state, against the quote. */
  function FullReplay(u: Setup, log: seq<string>, shown: nat, q: Bytes): Round
    requires shown <= |log|
  {
    ProcessList(u.env, u.policy, u.alg, FreshState(u), log[..shown], q)
  }

  lemma FullStartCursor(u: Setup)
    ensures StartCursor(u.policy, WithPcr(FreshState(u), IMA_PCR, u.alg)) == FullStart(u)
  {
  }

  lemma FullIsScan(u: Setup, log: seq<string>, shown: nat, k: nat)
    requires k <= shown <= |log|
    ensures Scan(u.env, u.policy, u.alg, FullStart(u), log[..shown][..k]) == Full(u, log, k)
  {
    assert log[..shown][..k] == log[0..k];
    BetweenIsScan(u, log, 0, k, FullStart(u));
  }

  /** The quote is met at the first line of the log that has its value. */
  lemma FullMatch(u: Setup, log: seq<string>, shown: nat, cut: nat, q: Bytes) returns (m: nat)
    requires cut <= shown <= |log| && Clean(Full(u, log, shown)) && Clean(Full(u, log, cut)) && Full(u, log, cut).pcr == q
    ensures m <= cut && MatchIn(u.env, u.policy, u.alg, FullStart(u), log[..shown], q, shown) == Some(m)
    ensures Clean(Full(u, log, m)) && Full(u, log, m).pcr == q
  {
    var lines := log[..shown];
    FullIsScan(u, log, shown, shown);
    FullIsScan(u, log, shown, cut);
    MatchIsFirst(u.env, u.policy, u.alg, FullStart(u), lines, q, shown, cut);
    m := MatchIn(u.env, u.policy, u.alg, FullStart(u), lines, q, shown).value;
    FullIsScan(u, log, shown, m);
    FullPrefixClean(u, log, m, shown);
  }

  /** What a round from the start leaves when it is accepted with a match at `m`. */
  lemma FullState(u: Setup, log: seq<string>, lines: seq<string>, shown: nat, q: Bytes, m: nat, r: Round)
    requires Sound(u) && m <= shown == |lines| <= |log| && lines == log[..shown] && r == FullReplay(u, log, shown, q)
    requires Clean(Full(u, log, shown)) && Clean(Full(u, log, m)) && Full(u, log, m).pcr == q
    requires MatchIn(u.env, u.policy, u.alg, FullStart(u), lines, q, shown) == Some(m)
    ensures NothingFound(r) && r.state.next == m && IMA_PCR in r.state.pcrs && r.state.pcrs[IMA_PCR] == q
    ensures SameDevices(u, log, r.state)
  {
    assert lines[..shown] == lines;
    FullStartCursor(u);
    FullIsScan(u, log, shown, shown);
    FullIsScan(u, log, shown, m);
    ClosedRound(u, FreshState(u), lines, q);
  }

  /** The full replay accepts what replays cleanly and meets the quote, and is cut at the first line that does. */
  lemma FullReplayAccepts(u: Setup, log: seq<string>, shown: nat, cut: nat, q: Bytes)
    requires Sound(u) && cut <= shown <= |log| && Clean(Full(u, log, shown))
    requires Full(u, log, cut).Cursor? && Full(u, log, cut).pcr == q
    ensures var r := FullReplay(u, log, shown, q);
            && NothingFound(r) && r.state.next <= cut && IMA_PCR in r.state.pcrs && r.state.pcrs[IMA_PCR] == q
            && Full(u, log, r.state.next).Cursor? && Full(u, log, r.state.next).pcr == q && SameDevices(u, log, r.state)
  {
    FullPrefixClean(u, log, cut, shown);
    var m := FullMatch(u, log, shown, cut, q);
    FullState(u, log, log[..shown], shown, q, m, FullReplay(u, log, shown, q));
  }

  // Where a PCR value comes back

  /** The replayed PCR is the fold over the templates of the lines before. */
  lemma FullPcr(u: Setup, log: seq<string>, shown: nat, k: nat, lines: seq<string>, ts: seq<Bytes>)
    requires ProperLog(u, log) && k <= shown <= |log| && Clean(Full(u, log, shown)) && lines == log[..shown]
    requires ts == Templates(u.env, u.policy, u.alg, lines)
    ensures |ts| == shown && Full(u, log, k).Cursor? && Full(u, log, k).pcr == PcrFold(u.env.crypto, u.alg, StartHash(u.alg), ts[..k])
  {
    assert lines[..shown] == lines;
    FullIsScan(u, log, shown, shown);
    FullIsScan(u, log, shown, k);
    FullPrefixClean(u, log, k, shown);
    TemplatesPrefix(u.env, u.policy, u.alg, FullStart(u), lines, k);
    ScanPcr(u.env, u.policy, u.alg, FullStart(u), lines[..k]);
  }

  /** Two places of the log with the same PCR show two inputs of the hash that clash, or a way back to its start. */
  lemma SamePcrRecurs(u: Setup, log: seq<string>, shown: nat, i: nat, j: nat, d: nat, ts: seq<Bytes>)
    requires HashHasSize(u.env.crypto, u.alg) && ProperLog(u, log) && i < j == i + d && j <= shown <= |log|
    requires Clean(Full(u, log, shown)) && Full(u, log, i).Cursor? && Full(u, log, j).Cursor?
    requires Full(u, log, i).pcr == Full(u, log, j).pcr && ts == Templates(u.env, u.policy, u.alg, log[..shown])
    ensures Recurs(u.env.crypto, u.alg, ts, i, d)
  {
    FullPcr(u, log, shown, i, log[..shown], ts);
    FullPcr(u, log, shown, j, log[..shown], ts);
    FoldNeverRepeats(u.env.crypto, u.alg, ts, i, j, d);
  }

  /** The log brings the hash down between its lines `i` and `j`, or leads back to the start value. */
  ghost predicate LogRecurs(u: Setup, lines: seq<string>, i: nat, j: nat)
    requires i <= j
  {
    Recurs(u.env.crypto, u.alg, Templates(u.env, u.policy, u.alg, lines), i, j - i)
  }

  lemma RecursBetween(u: Setup, log: seq<string>, shown: nat, i: nat, j: nat)
    requires HashHasSize(u.env.crypto, u.alg) && ProperLog(u, log) && i < j <= shown <= |log|
    requires Clean(Full(u, log, shown)) && Full(u, log, i).Cursor? && Full(u, log, j).Cursor?
    requires Full(u, log, i).pcr == Full(u, log, j).pcr
    ensures LogRecurs(u, log[..shown], i, j)
  {
    var d: nat := j - i;
    SamePcrRecurs(u, log, shown, i, j, d, Templates(u.env, u.policy, u.alg, log[..shown]));
  }

  /** A state cut at the quoted PCR of a clean log agrees with the state of the full replay. */
  ghost predicate AgreesWithFull(u: Setup, log: seq<string>, shown: nat, s: State, q: Bytes, full: Round)
    requires shown <= |log|
  {
    && NothingFound(full) && IMA_PCR in s.pcrs && IMA_PCR in full.state.pcrs && s.pcrs[IMA_PCR] == full.state.pcrs[IMA_PCR] == q
    && full.state.next <= s.next
    && (full.state.next < s.next ==> LogRecurs(u, log[..shown], full.state.next, s.next))
    && (full.state.next == s.next && DmPolicies(u.policy).Some? ==> DevicesOf(s) == DevicesOf(full.state))
  }

  /** The full replay is never cut later, and at the same line with the same devices unless the log shows a clash. */
  lemma CutAgainstFull(u: Setup, log: seq<string>, shown: nat, clean: nat, s: State, q: Bytes, full: Round)
    requires Sound(u) && HashHasSize(u.env.crypto, u.alg) && ProperLog(u, log) && Inv(u, log, clean, s)
    requires s.next <= shown <= |log| && Clean(Full(u, log, shown)) && IMA_PCR in s.pcrs && s.pcrs[IMA_PCR] == q
    requires full == FullReplay(u, log, shown, q)
    ensures AgreesWithFull(u, log, shown, s, q, full)
  {
    FullReplayAccepts(u, log, shown, s.next, q);
    if full.state.next < s.next {
      RecursBetween(u, log, shown, full.state.next, s.next);
    }
  }

  // The database row

  /** What is stored from a state restores to a state with the same cut; only the devices are gone. */
  lemma StoredInv(u: Setup, log: seq<string>, clean: nat, row: Stored, s: State)
    requires Sound(u) && InvCut(u, log, clean, s) && ImaPcrValues(s) != map[]
    ensures InvCut(u, log, clean, Restored(u.env.crypto, Store(u.env.crypto, row, s)))
  {
    RingsRoundTrip(u.env.crypto, s.rings);
    RemoveCoherent(s.rings, TENANT, u.keyOf);
    TenantKeepsValidRings(u.env.crypto, s.rings, None);
    RemoveKeys(s.rings, TENANT);
    var r := Remove(s.rings, TENANT);
    forall j | 0 <= j < |r| && r[j].0 != TENANT
      ensures Serializable(u.env.crypto, r[j].1)
    {
      assert r[j] in s.rings;
    }
    forall id: nat | FindKey(r, id).Some?
      ensures FindKey(Full(u, log, clean).rings, id).Some?
    {
      FindAfterRemove(s.rings, TENANT, id);
    }
    assert IMA_PCR in ImaPcrValues(s);
    RemoveTwice(s.rings, TENANT);
  }

  /** The cut that a reload finds. */
  lemma ReloadedCut(u: Setup, log: seq<string>, clean: nat, row: Stored, t: State, s: State)
    requires Sound(u) && InvCut(u, log, clean, t) && ImaPcrValues(t) != map[] && t.boottime != 0
    requires s == Reload(u.env.crypto, Store(u.env.crypto, row, t))
    ensures InvCut(u, log, clean, s) && s.next == t.next && s.dm.None? && s.progress.None?
    ensures IMA_PCR in t.pcrs && IMA_PCR in s.pcrs && s.pcrs[IMA_PCR] == t.pcrs[IMA_PCR]
  {
    StoredInv(u, log, clean, row, t);
    assert IMA_PCR in ImaPcrValues(t);
  }

  /** Storing and reloading a state keeps the devices of the full replay exactly when there are none. */
  lemma ReloadedDevices(u: Setup, log: seq<string>, clean: nat, row: Stored, s: State)
    requires Sound(u) && Inv(u, log, clean, s) && ImaPcrValues(s) != map[] && s.boottime != 0
    ensures var s' := Reload(u.env.crypto, Store(u.env.crypto, row, s));
            && InvCut(u, log, clean, s')
            && (Inv(u, log, clean, s') <==> DmPolicies(u.policy).None? || DevicesOf(s) == map[])
  {
    StoredInv(u, log, clean, row, s);
  }

  // What a restart hides

  /** A line that loads a device's table in good order, as far as can be told without knowing the devices. */
  ghost predicate LoadsTable(u: Setup, line: string, m: DM.Meta, targets: seq<DM.Target>) {
    && line != "" && DmPolicies(u.policy).Some?
    && var p := u.env.parse(line, LogHashAlg(u.policy), u.alg);
       && p.Parsed? && HeadEvents(u.env, LogHashAlg(u.policy), p.entry) == ([], true) && p.entry.mode.ImaBuf?
       && u.env.crypto.keyFromData(p.entry.mode.data).NotAKey? && p.entry.mode.path.name in DM_NAMES
       && u.env.dm.parse(p.entry.mode.path.name, p.entry.mode.data) == DM.EventOf(DM.Load(m, targets))
       && var digest := p.entry.mode.digest;
          && DM.HashNamed(digest.algorithm).Some?
          && digest.hash == u.env.crypto.hash(DM.HashNamed(digest.algorithm).value, p.entry.mode.data)
          && DM.LoadStep(DmPolicies(u.policy).value, map[], DM.Load(m, targets), digest).events == []
  }

  /** The PCR behind a line that is an entry. */
  function NextPcr(u: Setup, pcr: Bytes, line: string): Bytes
    requires u.env.parse(line, LogHashAlg(u.policy), u.alg).Parsed?
  {
    u.env.crypto.hash(u.alg, pcr + u.env.parse(line, LogHashAlg(u.policy), u.alg).entry.pcrTemplateHash)
  }

  /** The device is in use and its rule allows no second table. */
  predicate SecondLoad(u: Setup, ds: DM.Devices, m: DM.Meta)
    requires DmPolicies(u.policy).Some?
  {
    var key := DM.KeyOf(DmPolicies(u.policy).value.matchOn, m.device);
    key in ds && !ds[key].allowMultipleLoads
  }

  /** Such a line is refused exactly when the devices are known and it is a second load. */
  lemma LoadLine(u: Setup, cur: Cursor, line: string, m: DM.Meta, targets: seq<DM.Target>)
    requires LoadsTable(u, line, m, targets) && Clean(cur) && Fits(u.policy, cur)
    ensures var next := StepLine(u.env, u.policy, u.alg, cur, line);
            next.Cursor? && next.events == if SecondLoad(u, cur.dm.value, m) then ["multiple_table_loads"] else []
    ensures StepLine(u.env, u.policy, u.alg, cur, line).pcr == NextPcr(u, cur.pcr, line)
  {
  }

  /** A round of one clean line, matched, in a state without progress. */
  lemma OneLineRound(u: Setup, s: State, c: Cursor, line: string, q: Bytes)
    requires Sound(u) && s.progress.None? && line != "" && c == StartCursor(u.policy, WithPcr(s, IMA_PCR, u.alg))
    requires Clean(StepLine(u.env, u.policy, u.alg, c, line)) && StepLine(u.env, u.policy, u.alg, c, line).pcr == q
    ensures NothingFound(ProcessList(u.env, u.policy, u.alg, s, [line], q))
  {
    var lines := [line];
    assert lines[..0] == [] && lines[..1] == lines;
    ScanNext(u.env, u.policy, u.alg, c, lines, 0);
    ClosedRound(u, s, lines, q);
    MatchIsFirst(u.env, u.policy, u.alg, c, lines, q, 1, 1);
  }

  /** A log whose replay fails is not accepted. */
  lemma FailedReplay(u: Setup, log: seq<string>, lines: seq<string>, shown: nat, q: Bytes)
    requires shown == |log| && lines == log[..shown] && Full(u, log, shown).Cursor? && Full(u, log, shown).events != []
    ensures !NothingFound(FullReplay(u, log, shown, q))
  {
    var r := FullReplay(u, log, shown, q);
    assert lines[..shown] == lines;
    FullStartCursor(u);
    FullIsScan(u, log, shown, shown);
    if !r.raised && r.events == [] {
      LoopIsScan(u.env, u.policy, u.alg, FreshState(u), lines, q, shown);
    }
  }

  /** The replay of a prefix does not depend on what follows. */
  lemma {:induction false} SamePrefix(u: Setup, a: seq<string>, b: seq<string>, k: nat)
    requires k <= |a| && a <= b
    ensures Full(u, a, k) == Full(u, b, k)
  {
    if k > 0 {
      SamePrefix(u, a, b, k - 1);
    }
  }

  /** The full replay of a log that ends in a table load. */
  lemma FullLoad(u: Setup, log: seq<string>, n: nat, shown: nat, q: Bytes, m: DM.Meta, targets: seq<DM.Target>)
    requires Sound(u) && shown == n + 1 == |log| && Clean(Full(u, log, n)) && LoadsTable(u, log[n], m, targets)
    requires q == NextPcr(u, Full(u, log, n).pcr, log[n])
    ensures NothingFound(FullReplay(u, log, shown, q)) <==> !SecondLoad(u, Full(u, log, n).dm.value, m)
  {
    LoadLine(u, Full(u, log, n), log[n], m, targets);
    assert Full(u, log, shown) == StepLine(u.env, u.policy, u.alg, Full(u, log, n), log[n]);
    if SecondLoad(u, Full(u, log, n).dm.value, m) {
      FailedReplay(u, log, log[..shown], shown, q);
    } else {
      FullReplayAccepts(u, log, shown, shown, q);
    }
  }

  /** The restarted verifier takes the load for a first one. */
  lemma RestartedLoad(u: Setup, log: seq<string>, n: nat, s: State, c: Cursor, line: string, q: Bytes, m: DM.Meta,
                      targets: seq<DM.Target>)
    requires Sound(u) && InvCut(u, log, n, s) && s.next == n > 0 && s.dm.None? && s.progress.None?
    requires c == StartCursor(u.policy, WithPcr(s, IMA_PCR, u.alg)) && LoadsTable(u, line, m, targets)
    requires q == NextPcr(u, s.pcrs[IMA_PCR], line)
    ensures NothingFound(ProcessList(u.env, u.policy, u.alg, s, [line], q))
  {
    LoadLine(u, c, line, m, targets);
    OneLineRound(u, s, c, line, q);
  }

  /**
   * What a restart hides. The state was cut behind a clean log, stored and reloaded; the next line loads a table. The
   * restarted verifier accepts the line; the full replay accepts it exactly when it is no second load.
   */
  lemma RestartHidesSecondLoad(u: Setup, log: seq<string>, init: seq<string>, line: string, row: Stored, t: State, s: State,
                               q: Bytes, m: DM.Meta, targets: seq<DM.Target>)
    requires Sound(u) && log == init + [line] && Inv(u, init, |init|, t) && t.next == |init| > 0
    requires ImaPcrValues(t) != map[] && t.boottime != 0 && s == Reload(u.env.crypto, Store(u.env.crypto, row, t))
    requires LoadsTable(u, line, m, targets)
    requires q == NextPcr(u, t.pcrs[IMA_PCR], line)
    ensures NothingFound(ProcessList(u.env, u.policy, u.alg, s, [line], q))
    ensures NothingFound(FullReplay(u, log, |log|, q)) <==> !SecondLoad(u, DevicesOf(t), m)
  {
    ReloadedCut(u, init, |init|, row, t, s);
    RestartedLoad(u, init, |init|, s, StartCursor(u.policy, WithPcr(s, IMA_PCR, u.alg)), line, q, m, targets);
    SamePrefix(u, init, log, |init|);
    FullLoad(u, log, |init|, |log|, q, m, targets);
  }
}
