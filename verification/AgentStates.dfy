/** The resumable attestation state the verifier keeps for each agent. */
module AgentStates {
  import opened Bytes
  import opened Crypto
  import opened Keyrings
  import DeviceMapper

  const IMA_PCR := 10

  datatype ClockInfo = ClockInfo(clock: int, resetCount: int, restartCount: int, safe: int)

  /** The state as a value; a PCR that was reset is absent from `pcrs`. */
  datatype State = State(
    next: nat,                          // first log entry to ask for
    boottime: int,
    clock: ClockInfo,
    pcrs: map<int, Bytes>,
    algs: map<int, HashAlg>,            // pinned at first use
    imaPcrs: set<int>,
    rings: Rings,
    dm: Option<DeviceMapper.Devices>,
    progress: Option<(nat, nat)>)       // match position and log length of the previous round

  const INITIAL := State(0, 0, ClockInfo(0, 0, 0, 1), map[], map[], {}, [], None, None)

  function ResetIma(s: State): State {
    s.(next := 0, pcrs := s.pcrs - s.imaPcrs, boottime := 0, rings := [], progress := None)
  }

  function UpdateIma(s: State, pcr: int, value: Bytes, entries: nat): State {
    s.(imaPcrs := s.imaPcrs + {pcr}, pcrs := s.pcrs[pcr := value], next := s.next + entries)
  }

  predicate UsedPcr(s: State, pcr: int) {
    pcr in s.algs && pcr in s.pcrs
  }

  function InitPcr(s: State, pcr: int, alg: HashAlg): (r: State)
    ensures pcr in r.pcrs && pcr in r.algs
  {
    var pinned := if pcr in s.algs then s.algs[pcr] else alg;
    var value := if pcr in s.pcrs then s.pcrs[pcr] else if 17 <= pcr <= 23 then FfHash(pinned) else StartHash(pinned);
    s.(algs := s.algs[pcr := pinned], pcrs := s.pcrs[pcr := value])
  }

  function WithPcr(s: State, pcr: int, alg: HashAlg): (r: State)
    ensures pcr in r.pcrs && pcr in r.algs
  {
    if UsedPcr(s, pcr) then s else InitPcr(s, pcr, alg)
  }

  /** A PCR is used with its first hash from then on; it starts at all zeros, those of a dynamic launch at all ones. */
  lemma FirstUse(s: State, pcr: int, alg: HashAlg)
    ensures var r, pinned := WithPcr(s, pcr, alg), (if pcr in s.algs then s.algs[pcr] else alg);
            && r.algs == s.algs[pcr := pinned] && r.pcrs == s.pcrs[pcr := r.pcrs[pcr]]
            && r == s.(algs := r.algs, pcrs := r.pcrs)
            && if pcr in s.pcrs then r.pcrs[pcr] == s.pcrs[pcr]
               else Filled(pinned, r.pcrs[pcr], if 17 <= pcr < 24 then 0xFF else 0)
  {
    var r := WithPcr(s, pcr, alg);
    FilledIs(r.algs[pcr], r.pcrs[pcr]);
  }

  /** The used IMA PCRs with their values. */
  function ImaPcrValues(s: State): map<int, Bytes> {
    map pcr | pcr in s.imaPcrs && UsedPcr(s, pcr) :: s.pcrs[pcr]
  }

  predicate QuoteProgresses(previous: Option<(nat, nat)>, matched: nat, length: nat) {
    previous.None? || matched == length
    || !(previous.value.1 > previous.value.0 && matched < previous.value.1 - previous.value.0)
  }

  class TPMState {
    var pcrs: map<int, Bytes>
    var hashAlg: map<int, HashAlg>

    constructor ()
      ensures pcrs == map[] && hashAlg == map[]
    {
      pcrs, hashAlg := map[], map[];
    }

    method InitPcr(pcrNum: int, alg: HashAlg)
      modifies this
      ensures var pinned := if pcrNum in old(hashAlg) then old(hashAlg)[pcrNum] else alg;
              && hashAlg == old(hashAlg)[pcrNum := pinned]
              && pcrs == old(pcrs)[pcrNum := if pcrNum in old(pcrs) then old(pcrs)[pcrNum]
                                             else if 17 <= pcrNum <= 23 then FfHash(pinned) else StartHash(pinned)]
    {
      if pcrNum !in hashAlg {
        hashAlg := hashAlg[pcrNum := alg];
      }
      if pcrNum !in pcrs {
        if 17 <= pcrNum <= 23 {
          pcrs := pcrs[pcrNum := FfHash(hashAlg[pcrNum])];
        } else {
          pcrs := pcrs[pcrNum := StartHash(hashAlg[pcrNum])];
        }
      }
    }

    method ResetPcr(pcrNum: int)
      modifies this`pcrs
      ensures pcrs == old(pcrs) - {pcrNum}
    {
      pcrs := pcrs - {pcrNum};
    }

    method SetPcr(pcrNum: int, value: Bytes)
      modifies this`pcrs
      ensures pcrs == old(pcrs)[pcrNum := value]
    {
      pcrs := pcrs[pcrNum := value];
    }
  }

  class AgentAttestState {
    const tpmState: TPMState
    var nextImaMlEntry: nat
    var boottime: int
    var tpmClockinfo: ClockInfo
    var imaPcrs: set<int>
    var imaKeyrings: ImaKeyrings
    var imaDmState: Option<DeviceMapper.Devices>
    var quoteProgress: Option<(nat, nat)>

    constructor ()
      ensures Model() == INITIAL && fresh(tpmState) && fresh(imaKeyrings)
    {
      tpmState := new TPMState();
      nextImaMlEntry, boottime, tpmClockinfo := 0, 0, ClockInfo(0, 0, 0, 1);
      imaPcrs, imaDmState, quoteProgress := {}, None, None;
      imaKeyrings := new ImaKeyrings();
    }

    ghost function Model(): State
      reads this, tpmState, imaKeyrings
    {
      State(nextImaMlEntry, boottime, tpmClockinfo, tpmState.pcrs, tpmState.hashAlg, imaPcrs, imaKeyrings.keyrings,
            imaDmState, quoteProgress)
    }

    method ResetImaAttestation()
      modifies this, tpmState
      ensures Model() == ResetIma(old(Model())) && fresh(imaKeyrings)
    {
      nextImaMlEntry := 0;
      var todo: set<int> := imaPcrs;
      assert tpmState.pcrs == old(tpmState.pcrs) - (imaPcrs - todo);
      while todo != {}
        modifies tpmState
        invariant todo <= imaPcrs
        invariant tpmState.pcrs == old(tpmState.pcrs) - (imaPcrs - todo)
        invariant tpmState.hashAlg == old(tpmState.hashAlg)
        decreases todo
      {
        assert (forall x: int :: x !in todo) ==> todo == {};
        var pcrNum :| pcrNum in todo;
        tpmState.ResetPcr(pcrNum);
        assert imaPcrs - (todo - {pcrNum}) == (imaPcrs - todo) + {pcrNum};
        todo := todo - {pcrNum};
      }
      assert imaPcrs - todo == imaPcrs;
      boottime := 0;
      imaKeyrings := new ImaKeyrings();
      quoteProgress := None;
    }

    method UpdateImaAttestation(pcrNum: int, value: Bytes, entries: nat)
      modifies this, tpmState
      ensures Model() == UpdateIma(old(Model()), pcrNum, value, entries) && imaKeyrings == old(imaKeyrings)
    {
      imaPcrs := imaPcrs + {pcrNum};
      tpmState.SetPcr(pcrNum, value);
      nextImaMlEntry := nextImaMlEntry + entries;
    }

    method GetPcrState(pcrNum: int, alg: HashAlg) returns (value: Bytes)
      modifies tpmState
      ensures Model() == WithPcr(old(Model()), pcrNum, alg)
      ensures value == Model().pcrs[pcrNum]
    {
      if !(pcrNum in tpmState.hashAlg && pcrNum in tpmState.pcrs) {
        tpmState.InitPcr(pcrNum, alg);
      }
      value := tpmState.pcrs[pcrNum];
    }

    method CheckQuoteProgress(pcrMatchLine: nat, logLength: nat) returns (ok: bool)
      modifies this`quoteProgress
      ensures Model() == old(Model()).(progress := Some((pcrMatchLine, logLength)))
      ensures ok == QuoteProgresses(old(Model()).progress, pcrMatchLine, logLength)
    {
      if quoteProgress == None {
        quoteProgress := Some((pcrMatchLine, logLength));
        return true;
      }
      var (prevMatch, prevLength) := quoteProgress.value;
      quoteProgress := Some((pcrMatchLine, logLength));
      if pcrMatchLine == logLength {
        return true;
      }
      var prevLag := prevLength - prevMatch;
      return !(prevLag > 0 && pcrMatchLine < prevLag);
    }
  }

  /**
   * With positions counted from the start of an append-only log, a quote makes progress exactly when it
   * covers everything the previous round showed: `base + matched` is where the quote stands, and the
   * previous round, which advanced to `base`, showed the log up to `base - previous.0 + previous.1`.
   */
  lemma ProgressMeansCaughtUp(previous: (nat, nat), base: nat, matched: nat, length: nat)
    requires previous.0 <= previous.1 && previous.0 <= base && matched <= length
    requires base + length >= base - previous.0 + previous.1
    ensures QuoteProgresses(Some(previous), matched, length) <==> base + matched >= base - previous.0 + previous.1
  {
  }
}
