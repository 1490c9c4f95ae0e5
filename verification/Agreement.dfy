/**
 * When a round over the log is accepted: exactly when one full replay of what was shown is clean and the quote stands
 * at a line that the round covers. The keys are what this turns on: a round must know what the full replay knows.
 */
module Agreement {
  import opened Bytes
  import opened Keyrings
  import opened OrderedDict
  import opened AgentStates
  import opened Ima
  import opened Replay
  import opened Exceptions
  import opened Incremental

  // What the full replay knows

  ghost predicate Taught(u: Setup, log: seq<string>, k: nat, id: nat)
    requires k <= |log|
  {
    exists i: nat :: i < k && LessonId(u, log[i]) == Some(id)
  }

  lemma TaughtNext(u: Setup, log: seq<string>, j: nat, k: nat, id: nat)
    requires j + 1 == k <= |log|
    ensures Taught(u, log, k, id) <==> Taught(u, log, j, id) || LessonId(u, log[j]) == Some(id)
  {
    if i: nat :| i < k && LessonId(u, log[i]) == Some(id) {
      assert i < j || i == j;
    }
  }

  /** The full replay knows the tenant's keys and what the lines taught, and nothing else. */
  lemma {:induction false} FullKnowsExactly(u: Setup, log: seq<string>, k: nat, id: nat)
    requires k <= |log| && Clean(Full(u, log, k))
    ensures FindKey(Full(u, log, k).rings, id).Some? <==>
            (u.tenant.Some? && Get(u.tenant.value, id).Some?) || Taught(u, log, k, id)
  {
    if k == 0 {
      RenewedKeys([], u.tenant, id);
    } else {
      var j: nat := k - 1;
      FullPrefixClean(u, log, j, k);
      FullKnowsExactly(u, log, j, id);
      TaughtNext(u, log, j, k, id);
      StepLearns(u.env, u.policy, u.alg, Full(u, log, j), log[j]);
      var lesson := LessonOf(u.env, u.policy, u.alg, log[j]);
      if lesson.Some? {
        FindAfterAdd(u.env.crypto, Full(u, log, j).rings, lesson.value.0, lesson.value.1, lesson.value.2, id);
      }
    }
  }

  /**
   * After a renewal a state knows what the full replay knows at its cut exactly when it knows what was taught into
   * the tenant's own ring: the renewal replaces that ring.
   */
  lemma RenewedCovers(u: Setup, log: seq<string>, n: nat, rings: Rings, renewed: Rings)
    requires n <= |log| && Clean(Full(u, log, n)) && UniqueKeys(rings) && KnowsLessons(u, log, n, rings)
    requires renewed == SetTenant(rings, u.tenant)
    ensures Covers(renewed, Full(u, log, n).rings) <==> KnowsTenantLessons(u, log, n, renewed)
  {
    if KnowsTenantLessons(u, log, n, renewed) {
      forall id: nat | FindKey(Full(u, log, n).rings, id).Some?
        ensures FindKey(renewed, id).Some?
      {
        FullKnowsExactly(u, log, n, id);
        RenewedKeys(rings, u.tenant, id);
      }
    }
    if Covers(renewed, Full(u, log, n).rings) {
      forall i | 0 <= i < n && TeachesTenant(u, log[i])
        ensures FindKey(renewed, LessonId(u, log[i]).value).Some?
      {
        FullKnowsExactly(u, log, n, LessonId(u, log[i]).value);
      }
    }
  }

  // The round keeps up with the full replay

  /** A cursor of the round that knows at least what the full replay knows there. */
  ghost predicate KeepsUp(u: Setup, log: seq<string>, k: nat, cur: Cursor)
    requires k <= |log|
  {
    && Clean(cur) && Clean(Full(u, log, k)) && cur.pcr == Full(u, log, k).pcr && cur.dm == Full(u, log, k).dm
    && KeysOk(u, cur.rings) && Covers(cur.rings, Full(u, log, k).rings)
  }

  lemma {:induction false} FullKeysOk(u: Setup, log: seq<string>, k: nat)
    requires Sound(u) && ProperLog(u, log) && k <= |log| && Clean(Full(u, log, k))
    ensures KeysOk(u, Full(u, log, k).rings)
  {
    if k == 0 {
      TenantKeysOk(u, []);
    } else {
      var j: nat := k - 1;
      FullPrefixClean(u, log, j, k);
      FullKeysOk(u, log, j);
      StepLearns(u.env, u.policy, u.alg, Full(u, log, j), log[j]);
      LessonKeysOk(u, Full(u, log, j).rings, log[j]);
    }
  }

  lemma KeepsUpNext(u: Setup, log: seq<string>, j: nat, k: nat, before: Cursor, after: Cursor)
    requires Sound(u) && ProperLog(u, log) && j + 1 == k <= |log| && Clean(Full(u, log, k))
    requires KeepsUp(u, log, j, before) && Fits(u.policy, before)
    requires after == StepLine(u.env, u.policy, u.alg, before, log[j])
    ensures KeepsUp(u, log, k, after)
  {
    FullKeysOk(u, log, j);
    StepsAgree(u, before, Full(u, log, j), log[j]);
    StepLearns(u.env, u.policy, u.alg, before, log[j]);
    LessonKeysOk(u, before.rings, log[j]);
  }

  /** A line that is clean in the full replay is clean in the round, which knows at least as much. */
  lemma {:induction false} RoundKeepsUp(u: Setup, log: seq<string>, n: nat, k: nat, start: Cursor)
    requires Sound(u) && ProperLog(u, log) && n <= k <= |log| && Clean(Full(u, log, k))
    requires KeepsUp(u, log, n, start) && Fits(u.policy, start)
    ensures KeepsUp(u, log, k, Between(u, log, n, k, start))
    decreases k
  {
    if k > n {
      var j: nat := k - 1;
      FullPrefixClean(u, log, j, k);
      RoundKeepsUp(u, log, n, j, start);
      BetweenNext(u, log, n, j, k, start);
      KeepsUpNext(u, log, j, k, Between(u, log, n, j, start), Between(u, log, n, k, start));
    }
  }

  lemma {:induction false} BetweenPrefixClean(u: Setup, log: seq<string>, n: nat, k: nat, m: nat, start: Cursor)
    requires n <= k <= m <= |log| && Fits(u.policy, start) && Clean(Between(u, log, n, m, start))
    ensures Clean(Between(u, log, n, k, start))
    decreases m
  {
    if k < m {
      var j: nat := m - 1;
      BetweenNext(u, log, n, j, m, start);
      BetweenPrefixClean(u, log, n, k, j, start);
    }
  }

  /** A state whose round knows what the full replay knows at its cut. */
  ghost predicate Informed(u: Setup, log: seq<string>, s: State) {
    s.next <= |log| && Full(u, log, s.next).Cursor? && Covers(s.rings, Full(u, log, s.next).rings)
  }

  /** The round over what was shown is clean exactly when the full replay is, and both go through the same PCRs. */
  lemma RoundCleanExactly(u: Setup, log: seq<string>, clean: nat, s: State, shown: nat, start: Cursor)
    requires Sound(u) && ProperLog(u, log) && Inv(u, log, clean, s) && Informed(u, log, s) && clean <= shown <= |log|
    requires start == StartCursor(u.policy, WithPcr(s, IMA_PCR, u.alg))
    ensures Clean(Between(u, log, s.next, shown, start)) <==> Clean(Full(u, log, shown))
  {
    StartAgrees(u, log, clean, s);
    if Clean(Full(u, log, shown)) {
      RoundKeepsUp(u, log, s.next, shown, start);
    }
    if Clean(Between(u, log, s.next, shown, start)) {
      RoundAgrees(u, log, clean, s.next, shown, start);
    }
  }

  lemma SamePcrThere(u: Setup, log: seq<string>, clean: nat, s: State, shown: nat, k: nat, start: Cursor)
    requires Sound(u) && ProperLog(u, log) && Inv(u, log, clean, s) && clean <= shown <= |log| && s.next <= k <= shown
    requires start == StartCursor(u.policy, WithPcr(s, IMA_PCR, u.alg)) && Clean(Between(u, log, s.next, shown, start))
    ensures Clean(Between(u, log, s.next, k, start)) && Full(u, log, k).Cursor?
    ensures Between(u, log, s.next, k, start).pcr == Full(u, log, k).pcr
  {
    StartAgrees(u, log, clean, s);
    BetweenPrefixClean(u, log, s.next, k, shown, start);
    RoundAgrees(u, log, clean, s.next, k, start);
  }

  // Where the quote stands

  /** `cut` is the first line from `n` on, up to `shown`, at which the full replay has the quoted PCR. */
  ghost predicate FirstFrom(u: Setup, log: seq<string>, n: nat, shown: nat, cut: nat, q: Bytes)
    requires shown <= |log|
  {
    && n <= cut <= shown && HasPcr(u, log, cut, q)
    && forall k: nat | n <= k < cut :: !HasPcr(u, log, k, q)
  }

  ghost predicate HasPcr(u: Setup, log: seq<string>, k: nat, q: Bytes)
    requires k <= |log|
  {
    Full(u, log, k).Cursor? && Full(u, log, k).pcr == q
  }

  /** The position of a line in the round, and its cursor. */
  lemma PositionOf(u: Setup, log: seq<string>, n: nat, shown: nat, i: nat, k: nat, all: seq<string>, blanks: seq<string>,
                   start: Cursor)
    requires n <= shown <= |log| && all == log[n..shown] + blanks && k == n + i <= shown && Fits(u.policy, start)
    ensures Scan(u.env, u.policy, u.alg, start, all[..i]) == Between(u, log, n, k, start)
  {
    assert all[..i] == log[n..k];
    BetweenIsScan(u, log, n, k, start);
  }

  /** The quote is met in the round where the log first has its value from the cut on. */
  lemma MatchIsFirstFrom(u: Setup, log: seq<string>, clean: nat, s: State, shown: nat, all: seq<string>, blanks: seq<string>,
                         q: Bytes, start: Cursor, m: nat, cut: nat)
    requires Sound(u) && ProperLog(u, log) && Inv(u, log, clean, s) && clean <= shown <= |log| && s.next <= shown
    requires start == StartCursor(u.policy, WithPcr(s, IMA_PCR, u.alg)) && Clean(Between(u, log, s.next, shown, start))
    requires all == log[s.next..shown] + blanks && Blank(blanks) && Clean(Scan(u.env, u.policy, u.alg, start, all))
    requires MatchIn(u.env, u.policy, u.alg, start, all, q, |all|) == Some(m) && cut == s.next + m
    ensures FirstFrom(u, log, s.next, shown, cut, q)
  {
    MatchWithinLog(u, start, log[s.next..shown], blanks, q);
    PositionOf(u, log, s.next, shown, m, cut, all, blanks, start);
    SamePcrThere(u, log, clean, s, shown, cut, start);
    assert all[..m] == log[s.next..shown][..m];
    forall k: nat | s.next <= k < cut
      ensures !HasPcr(u, log, k, q)
    {
      var i: nat := k - s.next;
      PositionOf(u, log, s.next, shown, i, k, all, blanks, start);
      SamePcrThere(u, log, clean, s, shown, k, start);
      assert all[..|all|] == all;
      MatchIsFirst(u.env, u.policy, u.alg, start, all, q, |all|, i);
    }
  }

  lemma FirstFromIsMet(u: Setup, log: seq<string>, clean: nat, s: State, shown: nat, all: seq<string>, blanks: seq<string>,
                       q: Bytes, start: Cursor, cut: nat)
    requires Sound(u) && ProperLog(u, log) && Inv(u, log, clean, s) && clean <= shown <= |log|
    requires start == StartCursor(u.policy, WithPcr(s, IMA_PCR, u.alg)) && Clean(Between(u, log, s.next, shown, start))
    requires all == log[s.next..shown] + blanks && Clean(Scan(u.env, u.policy, u.alg, start, all))
    requires s.next <= cut <= shown && HasPcr(u, log, cut, q)
    ensures MatchIn(u.env, u.policy, u.alg, start, all, q, |all|).Some?
  {
    var i: nat := cut - s.next;
    PositionOf(u, log, s.next, shown, i, cut, all, blanks, start);
    SamePcrThere(u, log, clean, s, shown, cut, start);
    assert all[..|all|] == all;
    MatchIsFirst(u.env, u.policy, u.alg, start, all, q, |all|, i);
  }

  /** There is only one first line. */
  lemma OneFirstFrom(u: Setup, log: seq<string>, n: nat, shown: nat, a: nat, b: nat, q: Bytes)
    requires shown <= |log| && FirstFrom(u, log, n, shown, a, q) && FirstFrom(u, log, n, shown, b, q)
    ensures a == b
  {
  }

  /** The quote is met, and covers what was shown when the state has made progress before. */
  ghost predicate QuoteCovers(u: Setup, log: seq<string>, clean: nat, s: State, shown: nat, q: Bytes)
    requires shown <= |log|
  {
    exists cut: nat :: FirstFrom(u, log, s.next, shown, cut, q) && (s.progress.Some? ==> cut >= clean)
  }

  lemma QuoteCoversExactly(u: Setup, log: seq<string>, clean: nat, s: State, shown: nat, len: nat, all: seq<string>,
                           blanks: seq<string>, q: Bytes, start: Cursor)
    requires Sound(u) && ProperLog(u, log) && Inv(u, log, clean, s) && clean <= shown == s.next + len <= |log|
    requires start == StartCursor(u.policy, WithPcr(s, IMA_PCR, u.alg)) && Clean(Between(u, log, s.next, shown, start))
    requires all == log[s.next..shown] + blanks && Blank(blanks) && Clean(Scan(u.env, u.policy, u.alg, start, all))
    ensures var m := MatchIn(u.env, u.policy, u.alg, start, all, q, |all|);
            m.Some? && QuoteProgresses(s.progress, m.value, len) <==> QuoteCovers(u, log, clean, s, shown, q)
  {
    var found := MatchIn(u.env, u.policy, u.alg, start, all, q, |all|);
    if found.Some? {
      var m, cut: nat := found.value, s.next + found.value;
      MatchIsFirstFrom(u, log, clean, s, shown, all, blanks, q, start, m, cut);
      if s.progress.Some? {
        ProgressMeansCaughtUp(s.progress.value, s.next, m, len);
      }
      if c: nat :| FirstFrom(u, log, s.next, shown, c, q) && (s.progress.Some? ==> c >= clean) {
        OneFirstFrom(u, log, s.next, shown, c, cut, q);
      }
    } else if c: nat :| FirstFrom(u, log, s.next, shown, c, q) && (s.progress.Some? ==> c >= clean) {
      FirstFromIsMet(u, log, clean, s, shown, all, blanks, q, start, c);
    }
  }

  /**
   * A round over the log is accepted exactly when the full replay of what was shown is clean, the quote stands at a
   * line from the cut on, and the first such line is no earlier than what the previous round showed.
   */
  lemma RoundExactly(u: Setup, log: seq<string>, clean: nat, s: State, shown: nat, blanks: seq<string>, q: Bytes)
    requires Sound(u) && ProperLog(u, log) && Inv(u, log, clean, s) && Informed(u, log, s)
    requires clean <= shown <= |log| && Blank(blanks)
    ensures NothingFound(ShowRound(u, s, log, shown, blanks, q)) <==>
            Clean(Full(u, log, shown)) && QuoteCovers(u, log, clean, s, shown, q)
  {
    var start := StartCursor(u.policy, WithPcr(s, IMA_PCR, u.alg));
    var lines, len: nat := log[s.next..shown], shown - s.next;
    var all := lines + blanks;
    NothingFoundExactly(u.env, u.policy, u.alg, s, start, all, q);
    ShownThenBlank(u, start, lines, blanks);
    BetweenIsScan(u, log, s.next, shown, start);
    RoundCleanExactly(u, log, clean, s, shown, start);
    CountNonBlank(lines, blanks);
    if Clean(Full(u, log, shown)) {
      QuoteCoversExactly(u, log, clean, s, shown, len, all, blanks, q, start);
    }
  }

  /** One full replay is accepted exactly when it is clean and the quote stands at one of its lines. */
  lemma FullReplayExactly(u: Setup, log: seq<string>, shown: nat, q: Bytes)
    requires Sound(u) && shown <= |log|
    ensures NothingFound(FullReplay(u, log, shown, q)) <==>
            Clean(Full(u, log, shown)) && exists cut: nat :: cut <= shown && HasPcr(u, log, cut, q)
  {
    var lines := log[..shown];
    assert lines[..shown] == lines;
    FullStartCursor(u);
    FullIsScan(u, log, shown, shown);
    NothingFoundExactly(u.env, u.policy, u.alg, FreshState(u), FullStart(u), lines, q);
    if Clean(Full(u, log, shown)) {
      if cut: nat :| cut <= shown && HasPcr(u, log, cut, q) {
        FullReplayAccepts(u, log, shown, cut, q);
      }
      if NothingFound(FullReplay(u, log, shown, q)) {
        MatchIsFirst(u.env, u.policy, u.alg, FullStart(u), lines, q, shown, 0);
        var m := MatchIn(u.env, u.policy, u.alg, FullStart(u), lines, q, shown).value;
        FullIsScan(u, log, shown, m);
        assert HasPcr(u, log, m, q);
      }
    }
  }

  /** So the round is accepted exactly when the full replay is and the quote covers what it must. */
  lemma RoundAgreesWithFull(u: Setup, log: seq<string>, clean: nat, s: State, shown: nat, blanks: seq<string>, q: Bytes)
    requires Sound(u) && ProperLog(u, log) && Inv(u, log, clean, s) && Informed(u, log, s)
    requires clean <= shown <= |log| && Blank(blanks)
    ensures NothingFound(ShowRound(u, s, log, shown, blanks, q)) <==>
            NothingFound(FullReplay(u, log, shown, q)) && QuoteCovers(u, log, clean, s, shown, q)
  {
    RoundExactly(u, log, clean, s, shown, blanks, q);
    FullReplayExactly(u, log, shown, q);
    if QuoteCovers(u, log, clean, s, shown, q) {
      var cut: nat :| FirstFrom(u, log, s.next, shown, cut, q) && (s.progress.Some? ==> cut >= clean);
      assert cut <= shown && HasPcr(u, log, cut, q);
    }
  }
}
