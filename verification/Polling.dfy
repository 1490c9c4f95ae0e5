/** The polling machine of one agent: asynchronous continuations as steps, one continuation at a time. */
module Polling {
  import opened Bytes
  import F = Failures

  datatype OpState =
    | Registered | Start | Saved | GetQuote | GetQuoteRetry | ProvideV | ProvideVRetry
    | Failed | Terminated | InvalidQuote | TenantFailed

  /** The request whose reply, or the timer whose firing and then reply, the continuation waits for. */
  datatype Pending = Nothing | Quote(needPubkey: bool) | Key

  /** `hasV`: a payload key is to be provided. */
  datatype PollConfig = PollConfig(labels: seq<string>, rules: seq<F.SeverityRule>, maxRetries: int, hasV: bool)

  /**
   * The agent's dictionary, its operational state in the database (None: no row), and `shared`, the one Failure that
   * every call without a failure argument gets, for every agent.
   */
  datatype Poll = Poll(
    state: OpState, retries: int, severity: Option<nat>, lastEvent: string,
    row: Option<OpState>, pending: Pending, shared: F.Verdict)

  /**
   * A reply. `unsupported`: a 400 says that the API version is not supported (None: its body cannot be read);
   * `updated`: the version could be changed; `events`: what checking the quote found (None: checking raised).
   */
  datatype Reply = Reply(code: int, unsupported: Option<bool>, updated: bool, events: Option<seq<F.Event>>, provideV: bool)

  predicate HasLabels(cfg: PollConfig) {
    cfg.labels != []
  }

  function Top(cfg: PollConfig): nat
    requires HasLabels(cfg)
  {
    F.MaxLevel(cfg.labels)
  }

  function Irrecoverable(cfg: PollConfig, id: string): F.Event
    requires HasLabels(cfg)
  {
    F.Event(id, F.SeverityMatch(cfg.labels, cfg.rules, id), false)
  }

  function One(cfg: PollConfig, id: string): F.Verdict
    requires HasLabels(cfg)
  {
    F.AddEvent(Top(cfg), F.NO_FAILURE, Irrecoverable(cfg, id))
  }

  const NOT_REACHABLE := "internal.verifier.not_reachable"
  const NOT_REACHABLE_V := "internal.verifier.not_reachable_v"
  const EXCEPTION := "internal.verifier.exception"
  const NO_VERSION := "internal.verifier.version_not_supported"
  const NO_QUOTE := "internal.verifier.no_quote"
  const NO_V := "internal.verifier.no_v"

  /** A verdict names an event exactly when it has a severity. */
  predicate Named(v: F.Verdict) {
    v.highest.Some? <==> v.highestEvent.Some?
  }

  // process_agent as a function

  predicate Live(p: Poll) {
    p.row.Some? && !p.row.value.Terminated? && !p.row.value.TenantFailed?
  }

  /** Polling ends; a terminated agent is now deleted. */
  function Dropped(p: Poll): Poll {
    p.(row := if p.row == Some(Terminated) then None else p.row, pending := Nothing)
  }

  predicate Reports(requested: OpState) {
    requested.Failed? || requested.InvalidQuote?
  }

  predicate Final(cfg: PollConfig, f: F.Verdict)
    requires HasLabels(cfg)
  {
    !f.recoverable || f.highest == Some(Top(cfg))
  }

  /** A failure is noted only when it is graver than any before; it always decides whether polling goes on. */
  function Report(cfg: PollConfig, p: Poll, requested: OpState, f: F.Verdict): Poll
    requires HasLabels(cfg) && f.highest.Some? && f.highestEvent.Some?
  {
    var noted := if p.severity.None? || p.severity.value < f.highest.value
                 then p.(severity := f.highest, lastEvent := f.highestEvent.value.id, state := requested) else p;
    noted.(row := Some(noted.state), pending := if Final(cfg, f) then Nothing else Quote(false))
  }

  function Rank(requested: OpState): nat {
    if Reports(requested) then 0 else if requested.GetQuote? then 1 else 2
  }

  /** None of the branches fits: the source raises. */
  predicate FallsOut(state: OpState, requested: OpState) {
    && !Reports(requested)
    && !(state.Start? && requested.GetQuote?)
    && !(state.GetQuote? && requested.ProvideV?)
    && !((state.ProvideV? || state.GetQuote?) && requested.GetQuote?)
    && !(state.GetQuote? && requested.GetQuoteRetry?)
    && !(state.ProvideV? && requested.ProvideVRetry?)
  }

  function GiveUp(cfg: PollConfig, p: Poll, id: string): Poll
    requires HasLabels(cfg) && Named(p.shared)
    ensures Named(GiveUp(cfg, p, id).shared)
    decreases 0, 1
  {
    var f := F.AddEvent(Top(cfg), p.shared, Irrecoverable(cfg, id));
    Continued(cfg, p.(shared := f), Failed, f)
  }

  /** `failure` is read only when a failure is to be reported; calls without the argument pass `shared`. */
  function Continued(cfg: PollConfig, p: Poll, requested: OpState, failure: F.Verdict): Poll
    requires HasLabels(cfg) && Named(p.shared)
    requires Reports(requested) ==> failure.highest.Some? && failure.highestEvent.Some?
    ensures Named(Continued(cfg, p, requested, failure).shared)
    decreases Rank(requested), 0
  {
    if !Live(p) then Dropped(p)
    else if Reports(requested) then Report(cfg, p, requested, failure)
    else
      var q := p.(row := Some(p.state));
      if p.state.Start? && requested.GetQuote? then
        q.(retries := 0, state := GetQuote, pending := Quote(true))
      else if p.state.GetQuote? && requested.ProvideV? then
        var r := q.(retries := 0, state := ProvideV);
        if cfg.hasV then r.(pending := Key) else Continued(cfg, r, GetQuote, r.shared)
      else if (p.state.ProvideV? || p.state.GetQuote?) && requested.GetQuote? then
        q.(retries := 0, state := GetQuote, pending := Quote(false))
      else if p.state.GetQuote? && requested.GetQuoteRetry? then
        if p.retries >= cfg.maxRetries then GiveUp(cfg, q, NOT_REACHABLE)
        else q.(state := GetQuote, retries := p.retries + 1, pending := Quote(true))
      else if p.state.ProvideV? && requested.ProvideVRetry? then
        if p.retries >= cfg.maxRetries then GiveUp(cfg, q, NOT_REACHABLE_V)
        else q.(state := ProvideV, retries := p.retries + 1, pending := Key)
      else GiveUp(cfg, q, EXCEPTION)
  }

  // The continuations of the two requests

  predicate ConnectionError(code: int) {
    code == 408 || code == 500 || code == 599
  }

  /** The state a reply makes the continuation ask for, and the failure it passes along. */
  function Requested(cfg: PollConfig, pending: Pending, r: Reply): (q: (OpState, F.Verdict))
    requires HasLabels(cfg) && !pending.Nothing?
    ensures Reports(q.0) ==> q.1.highest.Some? && q.1.highestEvent.Some?
  {
    var retry := if pending.Key? then ProvideVRetry else GetQuoteRetry;
    if ConnectionError(r.code) then (retry, F.NO_FAILURE)
    else if r.code == 400 && r.unsupported.None? then (Failed, One(cfg, EXCEPTION))
    else if r.code == 400 && r.unsupported.value then
      if r.updated then (retry, F.NO_FAILURE) else (Failed, One(cfg, NO_VERSION))
    else if r.code != 200 then (Failed, One(cfg, if pending.Key? then NO_V else NO_QUOTE))
    else if pending.Key? then (GetQuote, F.NO_FAILURE)
    else if r.events.None? then (Failed, One(cfg, EXCEPTION))
    else
      F.FromEventsMeaning(Top(cfg), r.events.value);
      var verdict := F.FromEvents(Top(cfg), r.events.value);
      if F.Failed(verdict) then (InvalidQuote, verdict)
      else (if r.provideV then ProvideV else GetQuote, F.NO_FAILURE)
  }

  /** Changing the API version writes the whole record, operational state included, to the database. */
  predicate Overwrites(r: Reply) {
    r.code == 400 && r.unsupported == Some(true) && r.updated
  }

  function AfterReply(cfg: PollConfig, p: Poll, r: Reply): Poll
    requires HasLabels(cfg) && Named(p.shared) && !p.pending.Nothing?
  {
    var q := Requested(cfg, p.pending, r);
    var p1 := p.(pending := Nothing, row := if Overwrites(r) && p.row.Some? then Some(p.state) else p.row);
    Continued(cfg, p1, q.0, if Reports(q.0) then q.1 else p1.shared)
  }

  // The machine on mutable state

  class Poller {
    const cfg: PollConfig
    var operationalState: OpState
    var numRetries: int
    var severityLevel: Option<nat>
    var lastEventId: string
    var row: Option<OpState>
    var pending: Pending
    var defaultFailure: F.Failure

    ghost predicate Valid()
      reads this, defaultFailure
    {
      HasLabels(cfg) && Named(defaultFailure.Model())
    }

    ghost function Model(): Poll
      reads this, defaultFailure
    {
      Poll(operationalState, numRetries, severityLevel, lastEventId, row, pending, defaultFailure.Model())
    }

    /** The row as the database has it for a newly added agent, and the first call. */
    constructor (cfg: PollConfig, defaultFailure: F.Failure)
      requires HasLabels(cfg) && Named(defaultFailure.Model())
      ensures this.cfg == cfg && this.defaultFailure == defaultFailure && Valid()
      ensures Model() == Poll(Start, 0, None, "", Some(Start), Nothing, defaultFailure.Model())
    {
      this.cfg, this.defaultFailure := cfg, defaultFailure;
      operationalState, numRetries, severityLevel, lastEventId := Start, 0, None, "";
      row, pending := Some(Start), Nothing;
    }

    /** `failure` may be the default one. */
    method ProcessAgent(requested: OpState, failure: F.Failure)
      requires Valid()
      requires Reports(requested) ==> failure.highestSeverity.Some? && failure.highestSeverityEvent.Some?
      modifies this, defaultFailure
      ensures Valid() && defaultFailure == old(defaultFailure)
      ensures Model() == Continued(cfg, old(Model()), requested, old(failure.Model()))
      decreases Rank(requested), 0
    {
      if row.None? || row.value.TenantFailed? {
        pending := Nothing;
        return;
      }
      if row.value.Terminated? {
        row, pending := None, Nothing;
        return;
      }
      var main, max := operationalState, F.MaxLevel(cfg.labels);
      if Reports(requested) {
        if severityLevel.None? || severityLevel.value < failure.highestSeverity.value {
          severityLevel := failure.highestSeverity;
          lastEventId := failure.highestSeverityEvent.value.id;
          operationalState := requested;
        }
        row := Some(operationalState);
        pending := if !failure.recoverable || failure.highestSeverity == Some(max) then Nothing else Quote(false);
        return;
      }
      row := Some(operationalState);
      if main.Start? && requested.GetQuote? {
        numRetries, operationalState, pending := 0, GetQuote, Quote(true);
      } else if main.GetQuote? && requested.ProvideV? {
        numRetries, operationalState := 0, ProvideV;
        if cfg.hasV {
          pending := Key;
        } else {
          ProcessAgent(GetQuote, defaultFailure);
        }
      } else if (main.ProvideV? || main.GetQuote?) && requested.GetQuote? {
        numRetries, operationalState, pending := 0, GetQuote, Quote(false);
      } else if main.GetQuote? && requested.GetQuoteRetry? {
        if numRetries >= cfg.maxRetries {
          FailWith(NOT_REACHABLE);
        } else {
          operationalState, numRetries, pending := GetQuote, numRetries + 1, Quote(true);
        }
      } else if main.ProvideV? && requested.ProvideVRetry? {
        if numRetries >= cfg.maxRetries {
          FailWith(NOT_REACHABLE_V);
        } else {
          operationalState, numRetries, pending := ProvideV, numRetries + 1, Key;
        }
      } else {
        FailWith(EXCEPTION);
      }
    }

    method FailWith(id: string)
      requires Valid()
      modifies this, defaultFailure
      ensures Valid() && defaultFailure == old(defaultFailure)
      ensures Model() == GiveUp(cfg, old(Model()), id)
      decreases 0, 1
    {
      defaultFailure.Add(F.MaxLevel(cfg.labels), Irrecoverable(cfg, id));
      ProcessAgent(Failed, defaultFailure);
    }

    /** What follows the reply to a request for a quote or for the delivery of the payload key. */
    method OnReply(reply: Reply)
      requires Valid() && !pending.Nothing?
      modifies this, defaultFailure
      ensures Valid() && defaultFailure == old(defaultFailure)
      ensures Model() == AfterReply(cfg, old(Model()), reply)
    {
      var max, keyRequest := F.MaxLevel(cfg.labels), pending.Key?;
      var failure := new F.Failure();
      var retry := if keyRequest then ProvideVRetry else GetQuoteRetry;
      pending := Nothing;
      if reply.code != 200 {
        if ConnectionError(reply.code) {
          ProcessAgent(retry, defaultFailure);
          return;
        }
        if reply.code == 400 && reply.unsupported != Some(false) {
          if reply.unsupported.None? {
            failure.Add(max, Irrecoverable(cfg, EXCEPTION));
            ProcessAgent(Failed, failure);
          } else if reply.updated {
            if row.Some? {
              row := Some(operationalState);
            }
            ProcessAgent(retry, defaultFailure);
          } else {
            failure.Add(max, Irrecoverable(cfg, NO_VERSION));
            ProcessAgent(Failed, failure);
          }
          return;
        }
        failure.Add(max, Irrecoverable(cfg, if keyRequest then NO_V else NO_QUOTE));
        ProcessAgent(Failed, failure);
      } else if keyRequest {
        ProcessAgent(GetQuote, defaultFailure);
      } else if reply.events.None? {
        failure.Add(max, Irrecoverable(cfg, EXCEPTION));
        ProcessAgent(Failed, failure);
      } else {
        var failed := Collect(max, reply.events.value, failure);
        F.FromEventsMeaning(max, reply.events.value);
        if !failed {
          ProcessAgent(if reply.provideV then ProvideV else GetQuote, defaultFailure);
        } else {
          ProcessAgent(InvalidQuote, failure);
        }
      }
    }

    static method Collect(max: nat, events: seq<F.Event>, failure: F.Failure) returns (failed: bool)
      requires failure.Model() == F.NO_FAILURE
      modifies failure
      ensures failure.Model() == F.FromEvents(max, events)
      ensures failed == F.Failed(failure.Model())
    {
      for i := 0 to |events|
        invariant failure.Model() == F.FromEvents(max, events[..i])
      {
        assert events[..i + 1][..i] == events[..i];
        failure.Add(max, events[i]);
      }
      assert events[..|events|] == events;
      failed := failure.IsFailure();
    }
  }
}
