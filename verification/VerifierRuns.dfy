/**
 * Whole runs of the verifier for one agent: arbitrary responses, encryptions of the payload key, saves of the
 * record, reactivations and restarts, in any order.
 */
module VerifierRuns {
  import opened Bytes
  import opened Crypto
  import opened AgentStates
  import opened Ima
  import opened HashChain
  import opened Persistence
  import opened TpmMain
  import opened CloudVerifierCommon
  import DM = DeviceMapper

  /** The columns of the record that survive in the database. */
  datatype Columns = Columns(publicKey: string, clock: Option<ClockInfo>, attestationCount: nat)

  datatype World = World(agent: Agent, columns: Columns, state: State, row: Stored)

  datatype Act =
    | Respond(response: Response)  // a response is processed and the attestation state stored
    | Save                         // the record is written to the database
    | Provide(randomness: nat)     // the payload key is prepared
    | Reactivate                   // polling starts again from the database record
    | Restart                      // so does the verifier, with the stored attestation state

  function SavedColumns(a: Agent): Columns {
    Columns(a.publicKey, a.clock, a.attestationCount)
  }

  /** Nothing cached, the payload key to be provided. */
  function FromColumns(c: Columns): Agent {
    Agent(c.publicKey, "", true, c.clock, c.attestationCount, "", "", "")
  }

  const NEW_AGENT := World(Agent("", "", true, None, 0, "", "", ""), Columns("", None, 0), INITIAL, EMPTY_ROW)

  ghost function Perform(cfg: Config, w: World, a: Act): World {
    match a
    case Respond(r) =>
      var state := StateAfterResponse(cfg, w.agent, w.state, r);
      w.(agent := AgentAfterResponse(cfg, w.agent, w.state, r), state := state,
         row := if Escapes(cfg, w.agent, w.state, r) then w.row else Store(cfg.env.crypto, w.row, state))
    case Save => w.(columns := SavedColumns(w.agent))
    case Provide(randomness) => w.(agent := PreparedV(cfg, w.agent, randomness))
    case Reactivate => w.(agent := FromColumns(w.columns))
    case Restart => w.(agent := FromColumns(w.columns), state := Reload(cfg.env.crypto, w.row))
  }

  ghost function Run(cfg: Config, w: World, acts: seq<Act>): World {
    if acts == [] then w else Perform(cfg, Run(cfg, w, acts[..|acts| - 1]), acts[|acts| - 1])
  }

  // The hash chain

  /** The list an act replays, if it gets that far. */
  function ListingOf(cfg: Config, w: World, a: Act): Option<Listing> {
    if a.Respond? && ReachesQuote(cfg, w.agent, w.state, a.response) then
      var prepared, quote := Prepared(cfg, w.agent, w.state, a.response), a.response.quote.value;
      if quote.pcrs.Some? && !CheckQuoteTiming(prepared.clock, quote.clock).Refused?
         && IMA_PCR in quote.pcrs.value && a.response.imaList.Some? then
        Some(Listing(AfterTiming(prepared, quote), a.response.imaList.value, quote.pcrs.value[IMA_PCR]))
      else None
    else None
  }

  /** The lists a run replays, act by act. */
  ghost function HistoryOf(cfg: Config, acts: seq<Act>): (h: History)
    ensures |h| == |acts|
  {
    seq(|acts|, i requires 0 <= i < |acts| => ListingOf(cfg, Run(cfg, NEW_AGENT, acts[..i]), acts[i]))
  }

  /** No list of the run was left by an exception after a match behind a failed line. */
  ghost predicate NoFailureKept(cfg: Config, alg: HashAlg, acts: seq<Act>) {
    forall i | 0 <= i < |acts| && HistoryOf(cfg, acts)[i].Some? ::
      !FailureKept(cfg.env, Some(cfg.policy), alg, HistoryOf(cfg, acts)[i].value)
  }

  /** The one hash algorithm the agent may use. */
  ghost predicate OneHash(cfg: Config, alg: HashAlg) {
    forall name | name in cfg.acceptHash :: DM.HashNamed(name).None? || DM.HashNamed(name) == Some(alg)
  }

  /** A chain of lines of the run's lists stands behind the state in memory, and behind what a restart would load. */
  ghost predicate WorldChained(cfg: Config, alg: HashAlg, h: History, w: World) {
    && Chained(cfg.env, Some(cfg.policy), alg, h, w.state)
    && Chained(cfg.env, Some(cfg.policy), alg, h, Restored(cfg.env.crypto, w.row))
  }

  /** The state a response is checked with, or a refused one leaves, has the chain of a state before it. */
  lemma PreparedChained(cfg: Config, alg: HashAlg, h: History, a: Agent, s: State, r: Response)
    requires Chained(cfg.env, Some(cfg.policy), alg, h, s)
    ensures Chained(cfg.env, Some(cfg.policy), alg, h, Prepared(cfg, a, s, r))
    ensures r.quote.Some? ==> Chained(cfg.env, Some(cfg.policy), alg, h, AfterTiming(Prepared(cfg, a, s, r), r.quote.value))
    ensures Chained(cfg.env, Some(cfg.policy), alg, h, ResetIma(s))
  {
    var prepared := Prepared(cfg, a, s, r);
    ResetChained(cfg.env, Some(cfg.policy), alg, h, s);
    SameCutChained(cfg.env, Some(cfg.policy), alg, h, if CheckEntry(s, r).FromStart? then ResetIma(s) else s, prepared);
    if r.quote.Some? {
      SameCutChained(cfg.env, Some(cfg.policy), alg, h, prepared, AfterTiming(prepared, r.quote.value));
    }
  }

  /** What a response leaves: the outcome of the list it replays, or a state of the same cut. */
  lemma ResponseRound(cfg: Config, alg: HashAlg, w: World, r: Response)
    requires OneHash(cfg, alg)
    ensures var l, s := ListingOf(cfg, w, Respond(r)), StateAfterResponse(cfg, w.agent, w.state, r);
            && (l.Some? ==>
                  && s == RoundOf(cfg.env, Some(cfg.policy), alg, l.value).state
                  && r.quote.Some? && l.value.s == AfterTiming(Prepared(cfg, w.agent, w.state, r), r.quote.value)
                  && (Escapes(cfg, w.agent, w.state, r) <==> RoundOf(cfg.env, Some(cfg.policy), alg, l.value).raised))
            && (l.None? ==>
                  && !Escapes(cfg, w.agent, w.state, r)
                  && (s == w.state || s == ResetIma(w.state) || s == Prepared(cfg, w.agent, w.state, r)
                      || (r.quote.Some? && s == AfterTiming(Prepared(cfg, w.agent, w.state, r), r.quote.value))))
  {
    if ReachesQuote(cfg, w.agent, w.state, r) {
      assert DM.HashNamed(r.hashAlg) == Some(alg);
    }
  }

  /** Whatever a response is, the state after it has a chain. */
  lemma ResponseChained(cfg: Config, alg: HashAlg, h: History, w: World, r: Response, l: Option<Listing>)
    requires OneHash(cfg, alg) && cfg.env.parseInt("10") == Some(IMA_PCR) && l == ListingOf(cfg, w, Respond(r))
    requires Chained(cfg.env, Some(cfg.policy), alg, h, w.state)
    requires l.Some? ==> !FailureKept(cfg.env, Some(cfg.policy), alg, l.value)
    ensures Chained(cfg.env, Some(cfg.policy), alg, h + [l], StateAfterResponse(cfg, w.agent, w.state, r))
  {
    PreparedChained(cfg, alg, h, w.agent, w.state, r);
    ResponseRound(cfg, alg, w, r);
    if l.Some? {
      RoundChained(cfg.env, Some(cfg.policy), alg, h, l.value);
    } else {
      ChainStays(cfg.env, Some(cfg.policy), alg, h, l, StateAfterResponse(cfg, w.agent, w.state, r));
    }
  }

  lemma PerformChained(cfg: Config, alg: HashAlg, h: History, w: World, a: Act, l: Option<Listing>)
    requires OneHash(cfg, alg) && cfg.env.parseInt("10") == Some(IMA_PCR) && WorldChained(cfg, alg, h, w)
    requires l == ListingOf(cfg, w, a) && (l.Some? ==> !FailureKept(cfg.env, Some(cfg.policy), alg, l.value))
    ensures WorldChained(cfg, alg, h + [l], Perform(cfg, w, a))
  {
    ChainStays(cfg.env, Some(cfg.policy), alg, h, l, w.state);
    ChainStays(cfg.env, Some(cfg.policy), alg, h, l, Restored(cfg.env.crypto, w.row));
    if a.Respond? {
      ResponseChained(cfg, alg, h, w, a.response, l);
      StoreChained(cfg.env, Some(cfg.policy), alg, h + [l], w.row, StateAfterResponse(cfg, w.agent, w.state, a.response));
    } else if a.Restart? && w.row.boottime == 0 {
      ChainedStart(cfg.env, Some(cfg.policy), alg, h + [l], INITIAL);
    }
  }

  lemma HistoryGrows(cfg: Config, init: seq<Act>, last: Act)
    ensures HistoryOf(cfg, init + [last]) == HistoryOf(cfg, init) + [ListingOf(cfg, Run(cfg, NEW_AGENT, init), last)]
  {
    var acts := init + [last];
    assert acts[..|init|] == init;
    assert forall i | 0 <= i < |init| :: acts[..i] == init[..i];
  }

  /**
   * In every state any run reaches, through failures, reboots, resets, wrong lists and restarts, the stored PCR is the
   * fold over exactly the counted lines, which are lines of the run's own lists, in order, each validated without
   * failure where its round stood; and so is what a restart would load. Only a round left by an exception after a
   * match behind a failed line is not covered.
   */
  lemma {:induction false} HashChainInvariant(cfg: Config, alg: HashAlg, acts: seq<Act>)
    requires OneHash(cfg, alg) && cfg.env.parseInt("10") == Some(IMA_PCR) && NoFailureKept(cfg, alg, acts)
    ensures WorldChained(cfg, alg, HistoryOf(cfg, acts), Run(cfg, NEW_AGENT, acts))
  {
    if acts == [] {
      ChainedStart(cfg.env, Some(cfg.policy), alg, [], INITIAL);
      ChainedStart(cfg.env, Some(cfg.policy), alg, [], Restored(cfg.env.crypto, EMPTY_ROW));
    } else {
      var init, last := acts[..|acts| - 1], acts[|acts| - 1];
      var w := Run(cfg, NEW_AGENT, init);
      assert acts == init + [last];
      HistoryGrows(cfg, init, last);
      assert forall i | 0 <= i < |init| :: HistoryOf(cfg, acts)[i] == HistoryOf(cfg, init)[i];
      assert HistoryOf(cfg, acts)[|init|] == ListingOf(cfg, w, last);
      HashChainInvariant(cfg, alg, init);
      PerformChained(cfg, alg, HistoryOf(cfg, init), w, last, ListingOf(cfg, w, last));
    }
  }

  // Key and payload cache

  /** Response `i` of the run brought the key itself, was checked in full, and nothing was found. */
  ghost predicate Brought(cfg: Config, acts: seq<Act>, i: nat, key: string) {
    && i < |acts| && acts[i].Respond? && acts[i].response.pubkey == Some(key)
    && var w := Run(cfg, NEW_AGENT, acts[..i]);
       FullyAccepted(cfg, w.agent, w.state, acts[i].response)
  }

  ghost predicate Vetted(cfg: Config, acts: seq<Act>, key: string) {
    key != "" ==> exists i: nat :: Brought(cfg, acts, i, key)
  }

  lemma VettedStays(cfg: Config, acts: seq<Act>, last: Act, key: string)
    requires Vetted(cfg, acts, key)
    ensures Vetted(cfg, acts + [last], key)
  {
    if key != "" {
      var i: nat :| Brought(cfg, acts, i, key);
      assert (acts + [last])[..i] == acts[..i] && (acts + [last])[i] == acts[i];
      assert Brought(cfg, acts + [last], i, key);
    }
  }

  ghost predicate CacheOk(cfg: Config, a: Agent) {
    a.encryptedV != "" ==> exists randomness: nat :: cfg.encrypt(a.publicKey, cfg.v, randomness) == Some(a.encryptedV)
  }

  /** A response leaves key and cached message alone, or replaces the key and drops the message. */
  lemma ResponseAndCache(cfg: Config, a: Agent, s: State, r: Response)
    ensures var a' := AgentAfterResponse(cfg, a, s, r);
            (a'.publicKey == a.publicKey && a'.encryptedV == a.encryptedV) || a'.encryptedV == ""
  {
    var noted := NoteHeader(cfg, a, r).0;
    assert noted.publicKey == a.publicKey && noted.encryptedV == a.encryptedV;
  }

  lemma PerformKeepsCache(cfg: Config, w: World, a: Act)
    requires CacheOk(cfg, w.agent)
    ensures CacheOk(cfg, Perform(cfg, w, a).agent)
  {
    if a.Respond? {
      ResponseAndCache(cfg, w.agent, w.state, a.response);
    }
  }

  /** A key the record did not hold was in the response itself, and the response was checked in full. */
  lemma NewKeyIsBrought(cfg: Config, a: Agent, s: State, r: Response, key: string)
    requires key == AgentAfterResponse(cfg, a, s, r).publicKey && key != a.publicKey
    ensures FullyAccepted(cfg, a, s, r) && r.pubkey == Some(key)
  {
    assert NoteHeader(cfg, a, r).0.publicKey == a.publicKey;
  }

  lemma BroughtNow(cfg: Config, acts: seq<Act>, w: World, r: Response, key: string)
    requires w == Run(cfg, NEW_AGENT, acts) && FullyAccepted(cfg, w.agent, w.state, r) && r.pubkey == Some(key)
    ensures Vetted(cfg, acts + [Respond(r)], key)
  {
    assert (acts + [Respond(r)])[..|acts|] == acts;
    assert Brought(cfg, acts + [Respond(r)], |acts|, key);
  }

  /** Where the keys of the record, in memory and in the database, come from after one more act. */
  lemma KeyOrigin(cfg: Config, acts: seq<Act>, w: World, last: Act)
    requires w == Run(cfg, NEW_AGENT, acts)
    requires Vetted(cfg, acts, w.agent.publicKey) && Vetted(cfg, acts, w.columns.publicKey)
    ensures Vetted(cfg, acts + [last], Perform(cfg, w, last).agent.publicKey)
    ensures Vetted(cfg, acts + [last], Perform(cfg, w, last).columns.publicKey)
  {
    var key := Perform(cfg, w, last).agent.publicKey;
    VettedStays(cfg, acts, last, w.agent.publicKey);
    VettedStays(cfg, acts, last, w.columns.publicKey);
    if key != w.agent.publicKey && key != w.columns.publicKey {
      assert last.Respond?;
      NewKeyIsBrought(cfg, w.agent, w.state, last.response, key);
      BroughtNow(cfg, acts, w, last.response, key);
    }
  }

  /**
   * In every run the cached payload message, when there is one, is an encryption of `v` to the current public key,
   * and every public key on record, in memory or in the database, was brought by a response that was checked in full.
   */
  lemma {:induction false} KeyCacheCoherent(cfg: Config, acts: seq<Act>, w: World)
    requires w == Run(cfg, NEW_AGENT, acts)
    ensures CacheOk(cfg, w.agent)
    ensures Vetted(cfg, acts, w.agent.publicKey) && Vetted(cfg, acts, w.columns.publicKey)
  {
    if acts != [] {
      var init, last := acts[..|acts| - 1], acts[|acts| - 1];
      var before := Run(cfg, NEW_AGENT, init);
      assert acts == init + [last];
      KeyCacheCoherent(cfg, init, before);
      PerformKeepsCache(cfg, before, last);
      KeyOrigin(cfg, init, before, last);
    }
  }

  // The clock

  /** A record once made never goes back. */
  ghost predicate ClockLe(a: Option<ClockInfo>, b: Option<ClockInfo>) {
    a.Some? ==> b.Some? && NotBefore(a.value, b.value)
  }

  lemma ClockLeTransitive(a: Option<ClockInfo>, b: Option<ClockInfo>, c: Option<ClockInfo>)
    requires ClockLe(a, b) && ClockLe(b, c)
    ensures ClockLe(a, c)
  {
  }

  lemma {:induction false} LoopKeepsClock(env: Env, policy: Option<RuntimePolicy>, alg: HashAlg, s: State,
                                          lines: seq<string>, q: Bytes, n: nat)
    requires n <= |lines|
    ensures LoopTo(env, policy, alg, s, lines, q, n).state.clock == s.clock
  {
    if n > 0 {
      LoopKeepsClock(env, policy, alg, s, lines, q, n - 1);
    }
  }

  lemma QuoteRoundClock(env: Env, policy: Option<RuntimePolicy>, alg: HashAlg, s: State, q: Quote, ev: Evidence)
    requires q.pcrs.Some? && !CheckQuoteTiming(s.clock, q.clock).Refused?
    ensures QuoteRound(env, policy, alg, s, q, ev).state.clock == AfterTiming(s, q).clock
  {
    if IMA_PCR in q.pcrs.value && ev.imaList.Some? {
      LoopKeepsClock(env, policy, alg, AfterTiming(s, q), ev.imaList.value, q.pcrs.value[IMA_PCR], |ev.imaList.value|);
    }
  }

  /**
   * A response without full acceptance leaves the recorded clock; one that is accepted showed an allowed clock, which
   * is recorded unless both counters rose.
   */
  lemma ClockStep(cfg: Config, a: Agent, s: State, r: Response)
    ensures var c, previous := AgentAfterResponse(cfg, a, s, r).clock, (if a.clock.Some? then a.clock.value else s.clock);
            && (!FullyAccepted(cfg, a, s, r) ==> c == a.clock)
            && (FullyAccepted(cfg, a, s, r) ==>
                  && r.quote.Some? && ClockAllowed(previous, r.quote.value.clock)
                  && var now := r.quote.value.clock.value;
                     c == Some(if BothRose(previous, now) then previous else now))
    ensures ClockLe(a.clock, AgentAfterResponse(cfg, a, s, r).clock)
  {
    if FullyAccepted(cfg, a, s, r) {
      var alg, prepared := DM.HashNamed(r.hashAlg).value, Prepared(cfg, a, s, r);
      QuoteRoundClock(cfg.env, Some(cfg.policy), alg, prepared, r.quote.value, EvidenceOf(cfg, a, r));
      TimingExactly(prepared.clock, r.quote.value.clock);
    }
  }

  /** The record in memory is never behind the one in the database, and the latter never goes back. */
  lemma PerformClock(cfg: Config, w: World, a: Act)
    requires ClockLe(w.columns.clock, w.agent.clock)
    ensures var w' := Perform(cfg, w, a);
            && ClockLe(w'.columns.clock, w'.agent.clock)
            && ClockLe(w.columns.clock, w'.columns.clock)
            && (!a.Reactivate? && !a.Restart? ==> ClockLe(w.agent.clock, w'.agent.clock))
  {
    if a.Respond? && w.agent.clock.Some? {
      ClockStep(cfg, w.agent, w.state, a.response);
      ClockLeTransitive(w.columns.clock, w.agent.clock, AgentAfterResponse(cfg, w.agent, w.state, a.response).clock);
    }
  }

  lemma {:induction false} RunClock(cfg: Config, acts: seq<Act>)
    ensures ClockLe(Run(cfg, NEW_AGENT, acts).columns.clock, Run(cfg, NEW_AGENT, acts).agent.clock)
  {
    if acts != [] {
      RunClock(cfg, acts[..|acts| - 1]);
      PerformClock(cfg, Run(cfg, NEW_AGENT, acts[..|acts| - 1]), acts[|acts| - 1]);
    }
  }

  /**
   * Over every run the clock in the database never goes back, the one in memory is never behind any the database has
   * held, and it never goes back either as long as the record is not loaded anew.
   */
  lemma {:induction false} ClockMonotone(cfg: Config, acts: seq<Act>, i: nat)
    requires i <= |acts|
    ensures ClockLe(Run(cfg, NEW_AGENT, acts[..i]).columns.clock, Run(cfg, NEW_AGENT, acts).columns.clock)
    ensures ClockLe(Run(cfg, NEW_AGENT, acts[..i]).columns.clock, Run(cfg, NEW_AGENT, acts).agent.clock)
    ensures (forall j | i <= j < |acts| :: !acts[j].Reactivate? && !acts[j].Restart?) ==>
              ClockLe(Run(cfg, NEW_AGENT, acts[..i]).agent.clock, Run(cfg, NEW_AGENT, acts).agent.clock)
    decreases |acts|
  {
    RunClock(cfg, acts);
    if i == |acts| {
      assert acts[..i] == acts;
    } else {
      var init, last := acts[..|acts| - 1], acts[|acts| - 1];
      ClockMonotone(cfg, init, i);
      assert init[..i] == acts[..i];
      RunClock(cfg, init);
      PerformClock(cfg, Run(cfg, NEW_AGENT, init), last);
    }
  }
}
