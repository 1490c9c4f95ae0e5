/** One round of the protocol: what a response does to the agent's record and to its attestation state. */
module CloudVerifierCommon {
  import opened Bytes
  import opened Keyrings
  import opened AgentStates
  import opened Ima
  import opened TpmMain
  import DM = DeviceMapper

  /**
   * What is configured for an agent. `encrypt` encrypts `v` to a public key with some randomness; None is a key
   * that cannot be imported. `v` is "" when no payload key is deployed.
   */
  datatype Config = Config(
    env: Env,
    policy: RuntimePolicy,
    pcrPolicy: PcrPolicy,
    tenant: Option<Ring>,
    acceptHash: set<string>, acceptEncryption: set<string>, acceptSigning: set<string>,
    v: string,
    encrypt: (string, string, nat) -> Option<string>)

  /** The part of the agent's record that rounds change; `encryptedV` is "" when nothing is cached. */
  datatype Agent = Agent(
    publicKey: string, encryptedV: string, provideV: bool, clock: Option<ClockInfo>, attestationCount: nat,
    hashAlg: string, encAlg: string, signAlg: string)

  datatype Response = Response(
    pubkey: Option<string>, quote: Option<Quote>, imaList: Option<seq<string>>, imaEntry: int, boottime: int,
    hashAlg: string, encAlg: string, signAlg: string, boot: BootLog, bootListGiven: bool)

  // The round as a function

  /** The key a response is checked against: its own or the cached one, if that may be used. */
  function ReceivedKey(cfg: Config, a: Agent, r: Response): Option<string> {
    if r.pubkey.Some? then r.pubkey
    else if a.publicKey == "" || (cfg.v != "" && a.encryptedV == "") then None
    else Some(a.publicKey)
  }

  /** The record after the header of the response: algorithms are noted one by one as they are accepted. */
  function NoteHeader(cfg: Config, a: Agent, r: Response): (Agent, bool) {
    if r.quote.None? || ReceivedKey(cfg, a, r).None? then (a, false)
    else
      var a1 := if r.pubkey.None? then a.(provideV := false) else a;
      if r.hashAlg !in cfg.acceptHash || DM.HashNamed(r.hashAlg).None? then (a1, false)
      else
        var a2 := a1.(hashAlg := r.hashAlg);
        if r.encAlg == "" || r.encAlg !in cfg.acceptEncryption then (a2, false)
        else
          var a3 := a2.(encAlg := r.encAlg);
          if r.signAlg == "" || r.signAlg !in cfg.acceptSigning then (a3, false)
          else (a3.(signAlg := r.signAlg), true)
  }

  /** How the list's first entry fits the request. */
  datatype EntryCheck = FromStart | Requested | WrongEntry | OtherBoot

  function CheckEntry(s: State, r: Response): EntryCheck {
    if r.imaEntry == 0 then FromStart
    else if r.imaEntry != s.next then WrongEntry
    else if s.boottime != r.boottime then OtherBoot
    else Requested
  }

  /** The state the quote is checked with. A list from a wrong entry is a failure, but the check goes on. */
  function Prepared(cfg: Config, a: Agent, s: State, r: Response): State {
    var s1 := if CheckEntry(s, r).FromStart? then ResetIma(s) else s;
    var s2 := s1.(boottime := r.boottime, rings := SetTenant(s1.rings, cfg.tenant));
    if a.clock.Some? then s2.(clock := a.clock.value) else s2
  }

  function EvidenceOf(cfg: Config, a: Agent, r: Response): Evidence {
    Evidence(ReceivedKey(cfg, a, r), r.imaList, r.boot, r.bootListGiven)
  }

  /** Whether the round gets as far as the quote. */
  predicate ReachesQuote(cfg: Config, a: Agent, s: State, r: Response) {
    NoteHeader(cfg, a, r).1 && !CheckEntry(s, r).OtherBoot?
  }

  function CheckedRound(cfg: Config, a: Agent, s: State, r: Response): Round
    requires ReachesQuote(cfg, a, s, r)
  {
    QuoteRound(cfg.env, Some(cfg.policy), DM.HashNamed(r.hashAlg).value, Prepared(cfg, a, s, r), r.quote.value, EvidenceOf(cfg, a, r))
  }

  /** The response was checked in full and nothing was found. */
  ghost predicate FullyAccepted(cfg: Config, a: Agent, s: State, r: Response) {
    && ReachesQuote(cfg, a, s, r) && !CheckEntry(s, r).WrongEntry?
    && !CheckedRound(cfg, a, s, r).raised
    && QuoteAccepted(cfg.env, Some(cfg.policy), DM.HashNamed(r.hashAlg).value, Prepared(cfg, a, s, r), cfg.pcrPolicy,
                     r.quote.value, EvidenceOf(cfg, a, r), a.attestationCount)
  }

  /** Success: the baseline clock moves, and a new key makes the cached encryption of `v` worthless. */
  function Credited(a: Agent, clock: ClockInfo, key: string): Agent {
    var a' := a.(attestationCount := a.attestationCount + 1, clock := Some(clock));
    if key != a.publicKey then a'.(publicKey := key, encryptedV := "", provideV := true) else a'
  }

  function StateAfterResponse(cfg: Config, a: Agent, s: State, r: Response): State {
    if ReachesQuote(cfg, a, s, r) then CheckedRound(cfg, a, s, r).state
    else if NoteHeader(cfg, a, r).1 then ResetIma(s)
    else s
  }

  ghost function AgentAfterResponse(cfg: Config, a: Agent, s: State, r: Response): Agent {
    var noted := NoteHeader(cfg, a, r).0;
    if FullyAccepted(cfg, a, s, r) then
      Credited(noted, CheckedRound(cfg, a, s, r).state.clock, ReceivedKey(cfg, a, r).value)
    else noted
  }

  predicate Escapes(cfg: Config, a: Agent, s: State, r: Response) {
    ReachesQuote(cfg, a, s, r) && CheckedRound(cfg, a, s, r).raised
  }

  /** A response without failure was checked in full, or came from another boot and only reset the state. */
  ghost predicate NoFailure(cfg: Config, a: Agent, s: State, r: Response) {
    FullyAccepted(cfg, a, s, r) || (NoteHeader(cfg, a, r).1 && CheckEntry(s, r).OtherBoot?)
  }

  // What acceptance says

  /** The response has a quote, a key of its own or a cached one, and algorithms that are configured. */
  ghost predicate HeaderAllowed(cfg: Config, a: Agent, r: Response) {
    && r.quote.Some?
    && (r.pubkey.Some? || (a.publicKey != "" && (a.encryptedV != "" || cfg.v == "")))
    && r.hashAlg in cfg.acceptHash && r.hashAlg in {"sha1", "sha256", "sha384", "sha512", "sm3_256"}
    && r.encAlg in cfg.acceptEncryption && r.encAlg != ""
    && r.signAlg in cfg.acceptSigning && r.signAlg != ""
  }

  /** A header is passed exactly when it is allowed; the algorithms are in the record then, and nothing else but that
      a cached key need not be sent again. */
  lemma HeaderExactly(cfg: Config, a: Agent, r: Response)
    ensures var (a', ok) := NoteHeader(cfg, a, r);
            && (ok <==> HeaderAllowed(cfg, a, r))
            && (ok ==> a' == a.(hashAlg := r.hashAlg, encAlg := r.encAlg, signAlg := r.signAlg,
                                provideV := a.provideV && r.pubkey.Some?))
            && a' == a.(hashAlg := a'.hashAlg, encAlg := a'.encAlg, signAlg := a'.signAlg, provideV := a'.provideV)
  {
  }

  /** A fully accepted response has an allowed header and a list from the start or from where its boot's list stood. */
  lemma AcceptedResponse(cfg: Config, a: Agent, s: State, r: Response)
    ensures var a' := AgentAfterResponse(cfg, a, s, r);
            && a'.attestationCount == a.attestationCount + (if FullyAccepted(cfg, a, s, r) then 1 else 0)
            && (FullyAccepted(cfg, a, s, r) ==>
                  && HeaderAllowed(cfg, a, r)
                  && (r.imaEntry == 0 || (r.imaEntry == s.next && r.boottime == s.boottime))
                  && (a'.hashAlg, a'.encAlg, a'.signAlg) == (r.hashAlg, r.encAlg, r.signAlg)
                  && a'.publicKey == (if r.pubkey.Some? then r.pubkey.value else a.publicKey))
            && (!FullyAccepted(cfg, a, s, r) ==> a'.publicKey == a.publicKey && a'.encryptedV == a.encryptedV)
  {
    HeaderExactly(cfg, a, r);
  }

  /** A header that is not allowed leaves the state; a list of another boot, from where the old one stood, forgets it. */
  lemma WithoutQuoteCheck(cfg: Config, a: Agent, s: State, r: Response)
    ensures !HeaderAllowed(cfg, a, r) ==> StateAfterResponse(cfg, a, s, r) == s && !NoFailure(cfg, a, s, r)
    ensures HeaderAllowed(cfg, a, r) && r.imaEntry != 0 && r.imaEntry == s.next && r.boottime != s.boottime ==>
              var s' := StateAfterResponse(cfg, a, s, r);
              && s'.next == 0 && s'.boottime == 0 && s'.rings == [] && s'.progress.None? && s'.clock == s.clock
              && s'.pcrs == (map pcr | pcr in s.pcrs && pcr !in s.imaPcrs :: s.pcrs[pcr])
              && NoFailure(cfg, a, s, r) && !FullyAccepted(cfg, a, s, r)
  {
    HeaderExactly(cfg, a, r);
    assert s.pcrs - s.imaPcrs == (map pcr | pcr in s.pcrs && pcr !in s.imaPcrs :: s.pcrs[pcr]);
  }

  // The round on the mutable record and state

  class AgentRecord {
    var publicKey: string
    var encryptedV: string
    var provideV: bool
    var tpmClockinfo: Option<ClockInfo>
    var attestationCount: nat
    var hashAlg: string
    var encAlg: string
    var signAlg: string

    constructor ()
      ensures Model() == Agent("", "", true, None, 0, "", "", "")
    {
      publicKey, encryptedV, provideV, tpmClockinfo, attestationCount := "", "", true, None, 0;
      hashAlg, encAlg, signAlg := "", "", "";
    }

    ghost function Model(): Agent
      reads this
    {
      Agent(publicKey, encryptedV, provideV, tpmClockinfo, attestationCount, hashAlg, encAlg, signAlg)
    }

    /** The key and the algorithms of a response, in the order the verifier looks at them. */
    method CheckHeader(cfg: Config, response: Response) returns (failure: seq<Finding>, received: string)
      modifies this
      ensures Model() == NoteHeader(cfg, old(Model()), response).0
      ensures failure == [] <==> NoteHeader(cfg, old(Model()), response).1
      ensures failure == [] ==> ReceivedKey(cfg, old(Model()), response) == Some(received)
    {
      received := "";
      if response.quote.None? {
        return [Finding("invalid_data", false)], received;
      }
      if response.pubkey.None? {
        if publicKey == "" || (cfg.v != "" && encryptedV == "") {
          return [Finding("no_pubkey", false)], received;
        }
        provideV := false;
        received := publicKey;
      } else {
        received := response.pubkey.value;
      }
      if response.hashAlg !in cfg.acceptHash || DM.HashNamed(response.hashAlg).None? {
        return [Finding("invalid_hash_alg", false)], received;
      }
      hashAlg := response.hashAlg;
      if response.encAlg == "" || response.encAlg !in cfg.acceptEncryption {
        return [Finding("invalid_enc_alg", false)], received;
      }
      encAlg := response.encAlg;
      if response.signAlg == "" || response.signAlg !in cfg.acceptSigning {
        return [Finding("invalid_sign_alg", false)], received;
      }
      signAlg := response.signAlg;
      return [], received;
    }

    /** Fits the state to the list: reset, refused, of another boot, or continued. */
    method PrepareState(cfg: Config, response: Response, state: AgentAttestState)
      returns (failure: seq<Finding>, otherBoot: bool)
      modifies state, state.tpmState, state.imaKeyrings
      ensures otherBoot == CheckEntry(old(state.Model()), response).OtherBoot?
      ensures failure == [] <==> !CheckEntry(old(state.Model()), response).WrongEntry?
      ensures state.Model() == if otherBoot then ResetIma(old(state.Model()))
                               else Prepared(cfg, Model(), old(state.Model()), response)
      ensures state.imaKeyrings == old(state.imaKeyrings) || fresh(state.imaKeyrings)
    {
      failure, otherBoot := [], false;
      if response.imaEntry == 0 {
        state.ResetImaAttestation();
      } else if response.imaEntry != state.nextImaMlEntry {
        failure := [Finding("invalid_ima_entry_nb", false)];
      } else if state.boottime != response.boottime {
        state.ResetImaAttestation();
        return [], true;
      }
      state.boottime := response.boottime;
      state.imaKeyrings.SetTenantKeyring(cfg.tenant);
      if tpmClockinfo.Some? {
        state.tpmClockinfo := tpmClockinfo.value;
      }
    }

    /** After a full check without failure. */
    method Credit(clock: ClockInfo, received: string)
      modifies this
      ensures Model() == Credited(old(Model()), clock, received)
    {
      attestationCount := attestationCount + 1;
      tpmClockinfo := Some(clock);
      if received != publicKey {
        publicKey, encryptedV, provideV := received, "", true;
      }
    }

    method ProcessQuoteResponse(cfg: Config, response: Response, state: AgentAttestState)
      returns (failure: seq<Finding>, raised: bool)
      modifies this, state, state.tpmState, state.imaKeyrings
      ensures raised == Escapes(cfg, old(Model()), old(state.Model()), response)
      ensures state.Model() == StateAfterResponse(cfg, old(Model()), old(state.Model()), response)
      ensures Model() == AgentAfterResponse(cfg, old(Model()), old(state.Model()), response)
      ensures !raised ==> (failure == [] <==> NoFailure(cfg, old(Model()), old(state.Model()), response))
    {
      ghost var a, s := Model(), state.Model();
      var received, otherBoot, quoteFailure;
      raised := false;
      failure, received := CheckHeader(cfg, response);
      if failure != [] {
        return;
      }
      failure, otherBoot := PrepareState(cfg, response, state);
      if otherBoot {
        return;
      }
      quoteFailure, raised := CheckQuote(cfg.env, Some(cfg.policy), DM.HashNamed(response.hashAlg).value, state, cfg.pcrPolicy,
                                         response.quote.value,
                                         Evidence(Some(received), response.imaList, response.boot, response.bootListGiven),
                                         attestationCount);
      if raised {
        return [], true;
      }
      failure := failure + quoteFailure;
      if failure == [] {
        Credit(state.tpmClockinfo, received);
      }
    }

    /** The payload key for the agent, encrypted to its public key once and then reused. */
    method PrepareV(cfg: Config, randomness: nat) returns (message: Option<string>)
      modifies this`encryptedV
      ensures Model() == PreparedV(cfg, old(Model()), randomness)
      ensures message.Some? && message.value != "" ==> message.value == encryptedV
    {
      if encryptedV != "" {
        return Some(encryptedV);
      }
      message := cfg.encrypt(publicKey, cfg.v, randomness);
      if message.Some? {
        encryptedV := message.value;
      }
    }
  }

  function PreparedV(cfg: Config, a: Agent, randomness: nat): Agent {
    if a.encryptedV != "" then a
    else
      var m := cfg.encrypt(a.publicKey, cfg.v, randomness);
      if m.Some? then a.(encryptedV := m.value) else a
  }
}
