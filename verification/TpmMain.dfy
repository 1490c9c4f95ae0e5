/** Judging a verified quote: the PCR verdict and the TPM clock. */
module TpmMain {
  import opened Bytes
  import opened Crypto
  import opened ImaAst
  import opened AgentStates
  import opened Ima

  const TPM_DATA_PCR := 16
  const MEASUREDBOOT_PCRS: set<int> := {0, 1, 2, 3, 4, 5, 6, 7, 8, 9, 11, 12, 13, 14, 15}

  /** The first sixteen PCRs, without that of IMA. */
  lemma BootPcrs(pcr: int)
    ensures pcr in MEASUREDBOOT_PCRS <==> 0 <= pcr < 16 && pcr != IMA_PCR
  {
  }

  datatype Finding = Finding(id: string, recoverable: bool)

  /** The parsed boot event log: its PCR values, parse failures, and the policy engine's failures for a set of PCRs. */
  datatype BootLog = BootLog(pcrs: map<int, nat>, failures: seq<string>, evaluate: set<int> -> seq<string>)

  /** The TPM policy's allowed values, and whether and when a measured-boot policy is evaluated. */
  datatype PcrPolicy = PcrPolicy(allowlist: map<int, set<string>>, bootPolicyValid: bool, evaluateMode: string)

  /** What a response carries for the checks. */
  datatype Evidence = Evidence(data: Option<string>, imaList: Option<seq<string>>, boot: BootLog, bootListGiven: bool)

  // Hex strings without leading zeros

  function StripZeros(s: string): string {
    if s != "" && s[0] == '0' then StripZeros(s[1..]) else s
  }

  lemma {:induction false} StripSnoc(s: string, c: char)
    ensures StripZeros(s + [c]) == if StripZeros(s) == "" && c == '0' then "" else StripZeros(s) + [c]
  {
    if s == "" {
      assert s + [c] == [c];
    } else {
      assert (s + [c])[1..] == s[1..] + [c];
      StripSnoc(s[1..], c);
    }
  }

  /** The stripped hex text of a byte string is the digits of its value. */
  lemma {:induction false} StrippedIsDigits(b: Bytes)
    ensures StripZeros(ToHex(b)) == Digits(FromBE(b))
  {
    if b != [] {
      var init, x := b[..|b| - 1], b[|b| - 1];
      var v := FromBE(init);
      StrippedIsDigits(init);
      assert b == init + [x];
      ToHexSnoc(init, x);
      StripSnoc(ToHex(init), HexDigit(x / 16));
      StripSnoc(ToHex(init) + [HexDigit(x / 16)], HexDigit(x % 16));
      assert ToHex(b) == ToHex(init) + [HexDigit(x / 16)] + [HexDigit(x % 16)];
      var high := v * 16 + x / 16;
      assert FromBE(b) == high * 16 + x % 16;
      assert Digits(high) == if high == 0 then "" else Digits(v) + [HexDigit(x / 16)] by {
        assert high / 16 == v && high % 16 == x / 16;
      }
      assert FromBE(b) / 16 == high && FromBE(b) % 16 == x % 16;
    }
  }

  lemma {:induction false} DigitsInjective(m: nat, n: nat)
    requires Digits(m) == Digits(n)
    ensures m == n
  {
    if m > 0 && n > 0 {
      var s, t := Digits(m), Digits(n);
      assert s[..|s| - 1] == Digits(m / 16) && t[..|t| - 1] == Digits(n / 16);
      assert s[|s| - 1] == HexDigit(m % 16) && t[|t| - 1] == HexDigit(n % 16);
      HexDigitRoundTrip(m % 16);
      HexDigitRoundTrip(n % 16);
      DigitsInjective(m / 16, n / 16);
    }
  }

  /** Comparing stripped hex strings decides whether the quoted PCR and the logged number are equal. */
  lemma StrippedHexDecides(n: nat, b: Bytes)
    ensures StripZeros(HexOf(n)) == StripZeros(ToHex(b)) <==> FromBE(b) == n
  {
    StrippedIsDigits(b);
    assert StripZeros(HexOf(n)) == Digits(n);
    if Digits(n) == Digits(FromBE(b)) {
      DigitsInjective(n, FromBE(b));
    }
  }

  // The PCR verdict

  /** The value PCR 16 has after it was extended with the hash of the data. */
  function SimExtend(c: Crypto, data: string, alg: HashAlg): string {
    ToHex(c.hash(alg, StartHash(alg) + c.hash(alg, Utf8(data))))
  }

  /** That value is the fold of one template, the hash of the data, from the all-zero start. */
  lemma SimExtendIsFold(c: Crypto, data: string, alg: HashAlg, start: Bytes)
    requires Filled(alg, start, 0)
    ensures SimExtend(c, data, alg) == ToHex(PcrFold(c, alg, start, [c.hash(alg, Utf8(data))]))
  {
    FilledIs(alg, start);
    var one := [c.hash(alg, Utf8(data))];
    assert one[..|one| - 1] == [];
    assert PcrFold(c, alg, start, []) == start;
  }

  function LogValue(boot: BootLog, pcr: int): nat {
    if pcr in boot.pcrs then boot.pcrs[pcr] else 0
  }

  /** The IMA part of the verdict, run only when PCR 10 is quoted and a list was sent. */
  function ImaRound(env: Env, policy: Option<RuntimePolicy>, alg: HashAlg, s: State, quoted: map<int, Bytes>, imaList: Option<seq<string>>): Round {
    if IMA_PCR in quoted && imaList.Some? then ProcessList(env, policy, alg, s, imaList.value, quoted[IMA_PCR])
    else Round(s, [], false)
  }

  predicate Allowed(p: PcrPolicy, quoted: map<int, Bytes>, pcr: int)
    requires pcr in quoted
  {
    pcr in p.allowlist ==> ToHex(quoted[pcr]) in p.allowlist[pcr]
  }

  /** Every quoted boot PCR equals, as a number, the value the event log leads to, and is allowed. */
  ghost predicate BootAccepted(p: PcrPolicy, quoted: map<int, Bytes>, ev: Evidence) {
    forall pcr | pcr in quoted && pcr in MEASUREDBOOT_PCRS ::
      ev.bootListGiven && FromBE(quoted[pcr]) == LogValue(ev.boot, pcr) && Allowed(p, quoted, pcr)
  }

  predicate CheckedApart(p: PcrPolicy, pcr: int) {
    pcr == TPM_DATA_PCR || pcr == IMA_PCR || (p.bootPolicyValid && pcr in MEASUREDBOOT_PCRS)
  }

  ghost predicate OthersAccepted(p: PcrPolicy, quoted: map<int, Bytes>) {
    forall pcr | pcr in quoted && !CheckedApart(p, pcr) :: Allowed(p, quoted, pcr)
  }

  /** The PCRs a successful check has used. */
  function UsedPcrs(p: PcrPolicy, quoted: map<int, Bytes>): set<int> {
    set pcr | pcr in quoted && (pcr in p.allowlist || CheckedApart(p, pcr))
  }

  predicate EvaluatesNow(p: PcrPolicy, count: int) {
    p.evaluateMode == "always" || (p.evaluateMode == "once" && count == 0)
  }

  /** The part of the verdict the TPM and boot policies decide. */
  ghost predicate PolicyAccepted(p: PcrPolicy, quoted: map<int, Bytes>, ev: Evidence, count: int) {
    && (p.bootPolicyValid ==> BootAccepted(p, quoted, ev))
    && OthersAccepted(p, quoted)
    && p.allowlist.Keys <= quoted.Keys
    && (p.bootPolicyValid ==>
          && (p.evaluateMode == "once" || p.evaluateMode == "always")
          && (EvaluatesNow(p, count) ==> ev.boot.evaluate(UsedPcrs(p, quoted)) == []))
  }

  ghost predicate DataAccepted(c: Crypto, alg: HashAlg, quoted: map<int, Bytes>, data: Option<string>) {
    TPM_DATA_PCR in quoted && data.Some? && ToHex(quoted[TPM_DATA_PCR]) == SimExtend(c, data.value, alg)
  }

  ghost predicate ImaAccepted(env: Env, policy: Option<RuntimePolicy>, alg: HashAlg, s: State,
                              quoted: map<int, Bytes>, imaList: Option<seq<string>>) {
    IMA_PCR in quoted ==> imaList.Some? && ImaRound(env, policy, alg, s, quoted, imaList).events == []
  }

  /** What an empty list of failures means. */
  ghost predicate PcrsAccepted(env: Env, policy: Option<RuntimePolicy>, alg: HashAlg, s: State, p: PcrPolicy,
                               quoted: map<int, Bytes>, ev: Evidence, count: int) {
    && ev.boot.failures == []
    && DataAccepted(env.crypto, alg, quoted, ev.data)
    && ImaAccepted(env, policy, alg, s, quoted, ev.imaList)
    && PolicyAccepted(p, quoted, ev, count)
  }

  function Findings(ids: seq<string>): (r: seq<Finding>)
    ensures |r| == |ids|
  {
    seq(|ids|, i requires 0 <= i < |ids| => Finding(ids[i], true))
  }

  method CheckBootPcrs(p: PcrPolicy, quoted: map<int, Bytes>, ev: Evidence) returns (failure: seq<Finding>, used: set<int>)
    requires p.bootPolicyValid
    ensures failure == [] <==> BootAccepted(p, quoted, ev)
    ensures failure == [] ==> used == MEASUREDBOOT_PCRS * quoted.Keys
    ensures used <= MEASUREDBOOT_PCRS * quoted.Keys
  {
    failure, used := [], {};
    var todo := MEASUREDBOOT_PCRS * quoted.Keys;
    while todo != {}
      invariant todo <= MEASUREDBOOT_PCRS * quoted.Keys
      invariant used <= MEASUREDBOOT_PCRS * quoted.Keys
      invariant failure == [] ==> used == MEASUREDBOOT_PCRS * quoted.Keys - todo
      invariant failure == [] <==> forall pcr | pcr in MEASUREDBOOT_PCRS * quoted.Keys - todo ::
                  ev.bootListGiven && FromBE(quoted[pcr]) == LogValue(ev.boot, pcr) && Allowed(p, quoted, pcr)
      decreases todo
    {
      assert (forall x: int :: x !in todo) ==> todo == {};
      var pcr :| pcr in todo;
      assert MEASUREDBOOT_PCRS * quoted.Keys - (todo - {pcr}) == (MEASUREDBOOT_PCRS * quoted.Keys - todo) + {pcr};
      todo := todo - {pcr};
      if !ev.bootListGiven {
        failure := failure + [Finding("unused_pcr", true)];
        continue;
      }
      StrippedHexDecides(LogValue(ev.boot, pcr), quoted[pcr]);
      if StripZeros(HexOf(LogValue(ev.boot, pcr))) != StripZeros(ToHex(quoted[pcr])) {
        failure := failure + [Finding("invalid_pcr", true)];
      }
      if pcr in p.allowlist && ToHex(quoted[pcr]) !in p.allowlist[pcr] {
        failure := failure + [Finding("invalid_pcr", true)];
      }
      used := used + {pcr};
    }
  }

  method CheckRemainingPcrs(p: PcrPolicy, quoted: map<int, Bytes>, used: set<int>) returns (failure: seq<Finding>, used': set<int>)
    ensures failure == [] <==> forall pcr | pcr in quoted.Keys - used :: Allowed(p, quoted, pcr)
    ensures used' == used + (quoted.Keys - used) * p.allowlist.Keys
  {
    failure, used' := [], used;
    var rest := quoted.Keys - used;
    var todo := rest;
    while todo != {}
      invariant todo <= rest
      invariant used' == used + (rest - todo) * p.allowlist.Keys
      invariant failure == [] <==> forall pcr | pcr in rest - todo :: Allowed(p, quoted, pcr)
      decreases todo
    {
      assert (forall x: int :: x !in todo) ==> todo == {};
      var pcr :| pcr in todo;
      assert rest - (todo - {pcr}) == (rest - todo) + {pcr};
      todo := todo - {pcr};
      if pcr !in p.allowlist {
        continue;
      }
      if ToHex(quoted[pcr]) !in p.allowlist[pcr] {
        failure := failure + [Finding("invalid_pcr", true)];
      }
      used' := used' + {pcr};
    }
  }

  /** The data PCR must be quoted and hold the data. */
  method CheckDataPcr(c: Crypto, alg: HashAlg, quoted: map<int, Bytes>, data: Option<string>) returns (failure: seq<Finding>, used: set<int>)
    ensures failure == [] <==> DataAccepted(c, alg, quoted, data)
    ensures used == if TPM_DATA_PCR in quoted && data.Some? then {TPM_DATA_PCR} else {}
  {
    failure, used := [], {};
    if TPM_DATA_PCR in quoted && data.Some? {
      var expected := SimExtend(c, data.value, alg);
      if expected != ToHex(quoted[TPM_DATA_PCR]) {
        failure := [Finding("invalid_pcr_16", true)];
      }
      used := {TPM_DATA_PCR};
    } else {
      failure := [Finding("missing_pcr_16", true)];
    }
  }

  /** The boot policy, evaluated always or on the first attestation only. */
  method EvaluateBootPolicy(p: PcrPolicy, boot: BootLog, used: set<int>, count: int) returns (failure: seq<Finding>)
    requires p.bootPolicyValid
    ensures failure == [] <==> (p.evaluateMode == "once" || p.evaluateMode == "always")
                               && (EvaluatesNow(p, count) ==> boot.evaluate(used) == [])
  {
    failure := [];
    if p.evaluateMode != "once" && p.evaluateMode != "always" {
      failure := [Finding("invalid_measured_boot_evaluate", true)];
    }
    if EvaluatesNow(p, count) {
      failure := failure + Findings(boot.evaluate(used));
    }
  }

  /** The IMA PCR, when it is quoted, needs a list, and the list must replay. */
  method CheckImaPcr(env: Env, policy: Option<RuntimePolicy>, alg: HashAlg, state: AgentAttestState,
                     quoted: map<int, Bytes>, imaList: Option<seq<string>>)
    returns (failure: seq<Finding>, used: set<int>, raised: bool)
    modifies state, state.tpmState, state.imaKeyrings
    ensures state.Model() == ImaRound(env, policy, alg, old(state.Model()), quoted, imaList).state
    ensures raised == ImaRound(env, policy, alg, old(state.Model()), quoted, imaList).raised
    ensures !raised ==> (failure == [] <==> ImaAccepted(env, policy, alg, old(state.Model()), quoted, imaList))
    ensures used == {IMA_PCR} * quoted.Keys
    ensures state.imaKeyrings == old(state.imaKeyrings) || fresh(state.imaKeyrings)
  {
    failure, used, raised := [], {}, false;
    if IMA_PCR in quoted {
      if imaList.None? {
        failure := [Finding("unused_pcr_10", true)];
      } else {
        var events;
        events, raised := ProcessMeasurementList(env, policy, alg, state, imaList.value, quoted[IMA_PCR]);
        failure := Findings(events);
      }
      used := {IMA_PCR};
    }
  }

  lemma NothingMissing(listed: set<int>, quoted: set<int>)
    ensures listed - quoted == {} <==> listed <= quoted
  {
    assert (forall x: int :: x !in listed - quoted) ==> listed - quoted == {};
    if listed - quoted == {} {
      forall x | x in listed
        ensures x in quoted
      {
        assert x !in listed - quoted;
      }
    }
  }

  /** Boot, remaining and missing PCRs and the boot policy, on top of what the data and IMA checks used. */
  method CheckPolicyPcrs(p: PcrPolicy, quoted: map<int, Bytes>, ev: Evidence, before: set<int>, count: int)
    returns (failure: seq<Finding>)
    ensures ev.boot.failures == [] && before == {TPM_DATA_PCR, IMA_PCR} * quoted.Keys ==>
              (failure == [] <==> PolicyAccepted(p, quoted, ev, count))
  {
    failure := [];
    var used := before;
    if ev.boot.failures == [] && p.bootPolicyValid {
      var boot;
      failure, boot := CheckBootPcrs(p, quoted, ev);
      used := used + boot;
    }
    ghost var apart := used;
    ghost var ok := ev.boot.failures == [] && before == {TPM_DATA_PCR, IMA_PCR} * quoted.Keys && failure == [];
    assert ok ==> forall pcr | pcr in quoted.Keys :: pcr in apart <==> CheckedApart(p, pcr);
    var more;
    more, used := CheckRemainingPcrs(p, quoted, used);
    assert ok ==> (more == [] <==> OthersAccepted(p, quoted));
    failure := failure + more;
    assert ok ==> used == UsedPcrs(p, quoted);
    var missing := p.allowlist.Keys - used;
    if missing != {} {
      failure := failure + [Finding("missing_pcrs", true)];
    }
    assert ok ==> missing == p.allowlist.Keys - quoted.Keys;
    NothingMissing(p.allowlist.Keys, quoted.Keys);
    if ev.boot.failures == [] && p.bootPolicyValid {
      more := EvaluateBootPolicy(p, ev.boot, used, count);
      failure := failure + more;
    }
  }

  /** Everything but the IMA replay: the failures reported before it and those reported after it. */
  method CheckOtherPcrs(c: Crypto, alg: HashAlg, p: PcrPolicy, quoted: map<int, Bytes>, ev: Evidence, imaUsed: set<int>, count: int)
    returns (before: seq<Finding>, after: seq<Finding>)
    requires imaUsed == {IMA_PCR} * quoted.Keys
    ensures before + after == [] <==>
            ev.boot.failures == [] && DataAccepted(c, alg, quoted, ev.data) && PolicyAccepted(p, quoted, ev, count)
  {
    var dataFailure, used := CheckDataPcr(c, alg, quoted, ev.data);
    before := Findings(ev.boot.failures) + dataFailure;
    assert dataFailure == [] ==> used + imaUsed == {TPM_DATA_PCR, IMA_PCR} * quoted.Keys;
    after := CheckPolicyPcrs(p, quoted, ev, used + imaUsed, count);
  }

  method CheckPcrs(env: Env, policy: Option<RuntimePolicy>, alg: HashAlg, state: AgentAttestState, p: PcrPolicy,
                   quoted: map<int, Bytes>, ev: Evidence, count: int)
    returns (failure: seq<Finding>, raised: bool)
    modifies state, state.tpmState, state.imaKeyrings
    ensures state.Model() == ImaRound(env, policy, alg, old(state.Model()), quoted, ev.imaList).state
    ensures raised == ImaRound(env, policy, alg, old(state.Model()), quoted, ev.imaList).raised
    ensures !raised ==> (failure == [] <==> PcrsAccepted(env, policy, alg, old(state.Model()), p, quoted, ev, count))
    ensures state.imaKeyrings == old(state.imaKeyrings) || fresh(state.imaKeyrings)
  {
    var imaFailure, imaUsed;
    imaFailure, imaUsed, raised := CheckImaPcr(env, policy, alg, state, quoted, ev.imaList);
    if raised {
      return [], true;
    }
    var before, after := CheckOtherPcrs(env.crypto, alg, p, quoted, ev, imaUsed, count);
    failure := before + imaFailure + after;
  }

  // The TPM clock

  /** The clock to record, if any, or why the quote is refused. */
  datatype Timing = Refused(reason: string) | Keep | Record(clock: ClockInfo)

  function CheckQuoteTiming(previous: ClockInfo, quoted: Option<ClockInfo>): Timing {
    if quoted.None? then Refused("no clock info")
    else
      var now := quoted.value;
      var resets, restarts := now.resetCount - previous.resetCount, now.restartCount - previous.restartCount;
      if resets < 0 then Refused("resetCount decreased")
      else if restarts < 0 then Refused("restartCount decreased")
      else if now.safe != 1 then Refused("clock not safe")
      else if resets != 0 && restarts != 0 then Keep
      else if now.clock - previous.clock <= 0 then Refused("clock did not increase")
      else Record(now)
  }

  ghost predicate NotBefore(a: ClockInfo, b: ClockInfo) {
    a.clock <= b.clock && a.resetCount <= b.resetCount && a.restartCount <= b.restartCount
  }

  /** Both counters rose: the TPM was reset, and its clock need not have moved. */
  predicate BothRose(a: ClockInfo, b: ClockInfo) {
    a.resetCount < b.resetCount && a.restartCount < b.restartCount
  }

  /** A clock that is shown and safe, with no counter behind the one before, that moved unless both counters rose. */
  predicate ClockAllowed(previous: ClockInfo, quoted: Option<ClockInfo>) {
    && quoted.Some? && quoted.value.safe == 1
    && previous.resetCount <= quoted.value.resetCount && previous.restartCount <= quoted.value.restartCount
    && (BothRose(previous, quoted.value) || previous.clock < quoted.value.clock)
  }

  /** A quote is refused exactly when its clock is not allowed, and recorded otherwise unless both counters rose. */
  lemma TimingExactly(previous: ClockInfo, quoted: Option<ClockInfo>)
    ensures !CheckQuoteTiming(previous, quoted).Refused? <==> ClockAllowed(previous, quoted)
    ensures ClockAllowed(previous, quoted) ==>
              CheckQuoteTiming(previous, quoted) == if BothRose(previous, quoted.value) then Keep else Record(quoted.value)
  {
  }

  /** The quote of a response once its signature, nonce and digest were verified; None where they were not. */
  datatype Quote = Quote(pcrs: Option<map<int, Bytes>>, clock: Option<ClockInfo>)

  function AfterTiming(s: State, q: Quote): State {
    var t := CheckQuoteTiming(s.clock, q.clock);
    if t.Record? then s.(clock := t.clock) else s
  }

  /** The state and the exception flag after the quote of a response was checked. */
  function QuoteRound(env: Env, policy: Option<RuntimePolicy>, alg: HashAlg, s: State, q: Quote, ev: Evidence): Round {
    if q.pcrs.None? || CheckQuoteTiming(s.clock, q.clock).Refused? then Round(s, [], false)
    else ImaRound(env, policy, alg, AfterTiming(s, q), q.pcrs.value, ev.imaList)
  }

  ghost predicate QuoteAccepted(env: Env, policy: Option<RuntimePolicy>, alg: HashAlg, s: State, p: PcrPolicy, q: Quote,
                                ev: Evidence, count: int) {
    && q.pcrs.Some? && !CheckQuoteTiming(s.clock, q.clock).Refused?
    && PcrsAccepted(env, policy, alg, AfterTiming(s, q), p, q.pcrs.value, ev, count)
  }

  method CheckQuote(env: Env, policy: Option<RuntimePolicy>, alg: HashAlg, state: AgentAttestState, p: PcrPolicy, quote: Quote,
                    ev: Evidence, count: int)
    returns (failure: seq<Finding>, raised: bool)
    modifies state, state.tpmState, state.imaKeyrings
    ensures state.Model() == QuoteRound(env, policy, alg, old(state.Model()), quote, ev).state
    ensures raised == QuoteRound(env, policy, alg, old(state.Model()), quote, ev).raised
    ensures !raised ==> (failure == [] <==> QuoteAccepted(env, policy, alg, old(state.Model()), p, quote, ev, count))
    ensures state.imaKeyrings == old(state.imaKeyrings) || fresh(state.imaKeyrings)
  {
    if quote.pcrs.None? {
      return [Finding("quote_validation", false)], false;
    }
    var timing := CheckQuoteTiming(state.tpmClockinfo, quote.clock);
    if timing.Refused? {
      return [Finding("quote_validation", false)], false;
    }
    if timing.Record? {
      state.tpmClockinfo := timing.clock;
    }
    failure, raised := CheckPcrs(env, policy, alg, state, p, quote.pcrs.value, ev, count);
  }
}
