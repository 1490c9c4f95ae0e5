/** What every reply does to a polled agent, and that its retry counter counts the errors in a row. */
module PollingTable {
  import opened Bytes
  import opened Polling
  import opened PollingRuns
  import F = Failures

  // The table of replies

  /** No connection, or the API version was changed: the same request is due again. */
  predicate IsRetry(r: Reply) {
    r.code == 408 || r.code == 500 || r.code == 599 || (r.code == 400 && r.unsupported == Some(true) && r.updated)
  }

  /** The payload key was delivered, or the quote checked without finding anything. */
  predicate IsGood(pending: Pending, r: Reply) {
    r.code == 200 && (pending.Key? || r.events == Some([]))
  }

  /** Checking the quote found something. */
  predicate IsFlawed(pending: Pending, r: Reply) {
    r.code == 200 && pending.Quote? && r.events.Some? && r.events.value != []
  }

  /** What the agent fails with at a reply of any other kind. */
  function LastWord(pending: Pending, r: Reply): string {
    if r.code == 200 || (r.code == 400 && r.unsupported.None?) then EXCEPTION
    else if r.code == 400 && r.unsupported == Some(true) then NO_VERSION
    else if pending.Key? then NO_V else NO_QUOTE
  }

  /** Polled, in good standing, and not stopped by the tenant when the reply is taken in. */
  predicate Well(cfg: PollConfig, p: Poll, r: Reply)
    requires HasLabels(cfg)
  {
    Inv(cfg, p) && !p.pending.Nothing? && !p.state.InvalidQuote? && Live(Replied(p, r))
  }

  /** A request is repeated while retries are left; then the agent fails and polling ends. */
  lemma RetryReply(cfg: PollConfig, p: Poll, r: Reply)
    requires HasLabels(cfg) && Well(cfg, p, r) && IsRetry(r)
    ensures p.retries < cfg.maxRetries ==>
              AfterReply(cfg, p, r) ==
                p.(retries := p.retries + 1, row := Some(p.state), pending := if p.pending.Key? then Key else Quote(true))
    ensures p.retries >= cfg.maxRetries ==>
              var q := AfterReply(cfg, p, r);
              q.pending.Nothing? && q.state.Failed? && q.row == Some(Failed) && q.retries == p.retries
  {
    var id := if p.pending.Key? then NOT_REACHABLE_V else NOT_REACHABLE;
    if p.retries >= cfg.maxRetries {
      GiveUpStops(cfg, Replied(p, r).(row := Some(p.state)), id);
    }
  }

  /** Retries start anew, and either the payload key is delivered or the next quote is asked for after the interval. */
  lemma GoodReply(cfg: PollConfig, p: Poll, r: Reply)
    requires HasLabels(cfg) && Well(cfg, p, r) && IsGood(p.pending, r)
    ensures AfterReply(cfg, p, r) ==
            if p.pending.Quote? && r.provideV && cfg.hasV then
              p.(retries := 0, state := ProvideV, row := Some(GetQuote), pending := Key)
            else
              p.(retries := 0, state := GetQuote, pending := Quote(false),
                 row := Some(if p.pending.Key? || r.provideV then ProvideV else GetQuote))
  {
    if p.pending.Quote? {
      assert F.FromEvents(Top(cfg), []) == F.NO_FAILURE;
    }
  }

  /** Any reply of another kind fails the agent at once, and with an event of its own. */
  lemma BadReply(cfg: PollConfig, p: Poll, r: Reply)
    requires HasLabels(cfg) && Well(cfg, p, r)
    requires !IsRetry(r) && !IsGood(p.pending, r) && !IsFlawed(p.pending, r)
    ensures AfterReply(cfg, p, r) ==
            p.(state := Failed, severity := Some(Top(cfg)), lastEvent := LastWord(p.pending, r),
               row := Some(Failed), pending := Nothing)
  {
  }

  /** An event's severity in a verdict. */
  function Weight(cfg: PollConfig, e: F.Event): nat
    requires HasLabels(cfg)
  {
    if e.recoverable then e.severity else |cfg.labels| - 1
  }

  /** The first of the gravest events. */
  ghost predicate Gravest(cfg: PollConfig, es: seq<F.Event>, i: nat)
    requires HasLabels(cfg)
  {
    && i < |es|
    && (forall j | 0 <= j < |es| :: Weight(cfg, es[j]) <= Weight(cfg, es[i]))
    && (forall j | 0 <= j < i :: Weight(cfg, es[j]) < Weight(cfg, es[i]))
  }

  lemma VerdictIsGravest(cfg: PollConfig, es: seq<F.Event>) returns (i: nat)
    requires HasLabels(cfg) && es != []
    requires forall e | e in es :: e.severity == F.SeverityMatch(cfg.labels, cfg.rules, e.id)
    ensures Gravest(cfg, es, i)
    ensures var v := F.FromEvents(Top(cfg), es);
            && v.highest == Some(Weight(cfg, es[i])) && v.highestEvent.Some? && v.highestEvent.value.id == es[i].id
            && (Final(cfg, v) <==> Weight(cfg, es[i]) == |cfg.labels| - 1)
  {
    var v := F.FromEvents(Top(cfg), es);
    F.FromEventsMeaning(Top(cfg), es);
    VerdictBounded(cfg, es);
    F.SeverityBounded(cfg.labels, cfg.rules, "");
    i :| F.FirstHighest(v.events, i) && v.highestEvent == Some(v.events[i]) && v.highest == Some(v.events[i].severity);
    forall j | 0 <= j < |es|
      ensures v.events[j] == F.Raised(Top(cfg), es[j]) && v.events[j].severity == Weight(cfg, es[j])
    {
    }
  }

  /** The record keeps the gravest event seen so far; one of the top severity, or irrecoverable, ends polling. */
  lemma FlawedReply(cfg: PollConfig, p: Poll, r: Reply)
    requires HasLabels(cfg) && Inv(cfg, p) && Live(p) && IsFlawed(p.pending, r) && Configured(cfg, r)
    ensures exists i: nat :: Gravest(cfg, r.events.value, i) &&
              var w, id := Weight(cfg, r.events.value[i]), r.events.value[i].id;
              var pending := if w == |cfg.labels| - 1 then Nothing else Quote(false);
              AfterReply(cfg, p, r) ==
              if p.severity.None? || p.severity.value < w then
                p.(severity := Some(w), lastEvent := id, state := InvalidQuote, row := Some(InvalidQuote), pending := pending)
              else p.(row := Some(p.state), pending := pending)
  {
    F.FromEventsMeaning(Top(cfg), r.events.value);
    var i := VerdictIsGravest(cfg, r.events.value);
  }

  /** A new agent, one the tenant reactivates, and one that a restart finds to be polled all begin alike. */
  lemma PollingBegins(cfg: PollConfig, p: Poll, a: Act)
    requires HasLabels(cfg) && Named(p.shared)
    requires || (a.Post? && p.pending.Nothing? && p.row.None?)
             || (a.Reactivate? && p.pending.Nothing? && Live(p))
             || (a.Restart? && p.row.Some? && Approved(p.row.value))
    ensures Perform(cfg, p, a) ==
            Poll(GetQuote, 0, None, "", Some(Start), Quote(true),
                 if a.Restart? then F.NO_FAILURE else p.shared)
  {
  }

  /** Deleting an agent that is polled ends polling at the next reply, and the row is gone then. */
  lemma Deleted(cfg: PollConfig, p: Poll, r: Reply)
    requires HasLabels(cfg) && Inv(cfg, p) && p.pending != Nothing && Live(p) && p.state != InvalidQuote
    ensures var q := Perform(cfg, p, Delete);
            && q == p.(row := Some(Terminated))
            && (!Overwrites(r) ==> Perform(cfg, q, Answer(r)) == p.(row := None, pending := Nothing))
  {
  }

  /** Any other known agent is deleted at once. */
  lemma DeletedAtOnce(cfg: PollConfig, p: Poll)
    requires HasLabels(cfg) && Inv(cfg, p) && p.row.Some? && p.row != Some(Registered)
    requires p.pending == Nothing || p.state == InvalidQuote || !Live(p)
    ensures Perform(cfg, p, Delete) == p.(row := None)
  {
  }

  // The retry counter

  /** The replies taken in since polling last began. */
  function Since(cfg: PollConfig, acts: seq<Act>): seq<Reply>
    requires HasLabels(cfg)
  {
    if acts == [] then []
    else
      var init, last := acts[..|acts| - 1], acts[|acts| - 1];
      var idle := Run(cfg, init).pending.Nothing?;
      match last
      case Answer(r) => if idle then Since(cfg, init) else Since(cfg, init) + [r]
      case Restart => []
      case Post => if idle then [] else Since(cfg, init)
      case Reactivate => if idle then [] else Since(cfg, init)
      case _ => Since(cfg, init)
  }

  /** The last `n` replies are retries, and the one before them is none. */
  ghost predicate RetriesAtEnd(rs: seq<Reply>, n: int) {
    && 0 <= n <= |rs|
    && (forall i | |rs| - n <= i < |rs| :: IsRetry(rs[i]))
    && (n < |rs| ==> !IsRetry(rs[|rs| - n - 1]))
  }

  lemma OneMoreReply(rs: seq<Reply>, n: int, r: Reply)
    requires RetriesAtEnd(rs, n)
    ensures RetriesAtEnd(rs + [r], if IsRetry(r) then n + 1 else 0)
  {
  }

  /** An agent that is in good standing after a reply was so before, and counted the reply if it was a retry. */
  lemma ReplyCounts(cfg: PollConfig, p: Poll, r: Reply)
    requires HasLabels(cfg) && Inv(cfg, p) && !p.pending.Nothing? && Configured(cfg, r)
    requires var q := AfterReply(cfg, p, r); !q.pending.Nothing? && !q.state.InvalidQuote?
    ensures !p.state.InvalidQuote?
    ensures AfterReply(cfg, p, r).retries == if IsRetry(r) then p.retries + 1 else 0
  {
    var q := AfterReply(cfg, p, r);
    assert Live(Replied(p, r));
    if p.state.InvalidQuote? {
      NoWayBack(cfg, p, r);
      assert false;
    }
    if IsRetry(r) {
      RetryReply(cfg, p, r);
    } else if IsGood(p.pending, r) {
      GoodReply(cfg, p, r);
    } else if IsFlawed(p.pending, r) {
      FlawedReply(cfg, p, r);
      assert false;
    } else {
      BadReply(cfg, p, r);
      assert false;
    }
  }

  lemma NoWayBack(cfg: PollConfig, p: Poll, r: Reply)
    requires HasLabels(cfg) && Inv(cfg, p) && !p.pending.Nothing? && p.state.InvalidQuote? && Configured(cfg, r)
    ensures var q := AfterReply(cfg, p, r); q.pending.Nothing? || q.state.InvalidQuote?
  {
    var requested, q := Requested(cfg, p.pending, r), Replied(p, r).(row := Some(p.state));
    if Live(Replied(p, r)) && !Reports(requested.0) {
      GiveUpStops(cfg, q, EXCEPTION);
    }
  }

  /** Of an agent in good standing the counter is the number of retries since the last reply that was none. */
  lemma {:induction false} RetriesAreCounted(cfg: PollConfig, acts: seq<Act>)
    requires HasLabels(cfg)
    requires forall a | a in acts :: a.Answer? ==> Configured(cfg, a.reply)
    ensures var p := Run(cfg, acts);
            !p.pending.Nothing? && !p.state.InvalidQuote? ==> RetriesAtEnd(Since(cfg, acts), p.retries)
  {
    if acts != [] {
      var init, last := acts[..|acts| - 1], acts[|acts| - 1];
      assert forall a | a in init :: a in acts;
      RetriesAreCounted(cfg, init);
      ReachableInv(cfg, init);
      var before, p := Run(cfg, init), Run(cfg, acts);
      assert p == Perform(cfg, before, last);
      if last.Answer? && !p.pending.Nothing? && !p.state.InvalidQuote? {
        ReplyCounts(cfg, before, last.reply);
        OneMoreReply(Since(cfg, init), before.retries, last.reply);
      }
    }
  }

  /** The reply is at least the `max_retries` + 1st retry in a row. */
  ghost predicate TooMany(cfg: PollConfig, rs: seq<Reply>) {
    var n := if cfg.maxRetries < 0 then 0 else cfg.maxRetries;
    n <= |rs| && forall i | |rs| - n <= i < |rs| :: IsRetry(rs[i])
  }

  lemma TooManyExactly(cfg: PollConfig, rs: seq<Reply>, n: int)
    requires RetriesAtEnd(rs, n) && (n == 0 || n <= cfg.maxRetries)
    ensures TooMany(cfg, rs) <==> n >= cfg.maxRetries
  {
    if n < cfg.maxRetries && n < |rs| {
      assert !IsRetry(rs[|rs| - n - 1]);
    }
  }

  /** Over every run an agent in good standing is given up as unreachable at the `max_retries` + 1st retry in a row. */
  lemma GivenUpExactly(cfg: PollConfig, acts: seq<Act>, r: Reply)
    requires HasLabels(cfg) && IsRetry(r)
    requires forall a | a in acts :: a.Answer? ==> Configured(cfg, a.reply)
    requires Well(cfg, Run(cfg, acts), r)
    ensures var q := AfterReply(cfg, Run(cfg, acts), r);
            && (q.pending.Nothing? <==> TooMany(cfg, Since(cfg, acts)))
            && (q.pending.Nothing? <==> q.state.Failed?)
  {
    var p := Run(cfg, acts);
    RetriesAreCounted(cfg, acts);
    TooManyExactly(cfg, Since(cfg, acts), p.retries);
    RetryReply(cfg, p, r);
  }
}
