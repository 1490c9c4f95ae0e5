/**
 * The chain behind the stored PCR: whatever lists the verifier was sent, the PCR it keeps is the fold over exactly
 * the lines it counts, each of which was validated without failure, in its place, by a round of the run.
 */
module HashChain {
  import opened Bytes
  import opened Crypto
  import opened ImaAst
  import opened AgentStates
  import opened Ima
  import opened Replay
  import opened PolicyMeaning
  import opened Exceptions
  import opened Persistence

  /** A list the verifier replayed: the state it started from, the lines, and the quoted PCR. */
  datatype Listing = Listing(s: State, lines: seq<string>, q: Bytes)

  /** What each step of a run replayed, if anything. */
  type History = seq<Option<Listing>>

  /** A consumed line: the step of the run that brought it, and its position in that step's list. */
  datatype Consumed = Consumed(step: nat, pos: nat)

  /** Where the replay of a listing starts. */
  function StartOf(policy: Option<RuntimePolicy>, alg: HashAlg, l: Listing): (r: Cursor)
    ensures r.Cursor? && (r.dm.Some? <==> DmPolicies(policy).Some?)
  {
    StartCursor(policy, WithPcr(l.s, IMA_PCR, alg))
  }

  /** Where the replay of a listing stands at position `pos`. */
  function CursorIn(env: Env, policy: Option<RuntimePolicy>, alg: HashAlg, l: Listing, pos: nat): (r: Cursor)
    requires pos <= |l.lines|
    ensures Fits(policy, r)
  {
    Scan(env, policy, alg, StartOf(policy, alg, l), l.lines[..pos])
  }

  predicate InHistory(h: History, x: Consumed) {
    x.step < |h| && h[x.step].Some? && x.pos < |h[x.step].value.lines|
  }

  function LineOf(h: History, x: Consumed): string
    requires InHistory(h, x)
  {
    h[x.step].value.lines[x.pos]
  }

  /** Where the replay of its round stood when the line was validated. */
  function CursorOf(env: Env, policy: Option<RuntimePolicy>, alg: HashAlg, h: History, x: Consumed): (r: Cursor)
    requires InHistory(h, x)
    ensures Fits(policy, r)
  {
    CursorIn(env, policy, alg, h[x.step].value, x.pos)
  }

  /** The replay of its round was clean up to the line, and the policy allows the line there. */
  ghost predicate Validated(env: Env, policy: Option<RuntimePolicy>, alg: HashAlg, h: History, x: Consumed) {
    && InHistory(h, x)
    && var cur := CursorOf(env, policy, alg, h, x);
       Clean(cur) && LineAllowed(env, policy, alg, cur.rings, cur.dm, LineOf(h, x))
  }

  /** The next line of the same round, or the first of a later one. */
  predicate Follows(x: Consumed, y: Consumed) {
    if y.step == x.step then y.pos == x.pos + 1 else x.step < y.step && y.pos == 0
  }

  predicate InOrder(xs: seq<Consumed>) {
    && (xs != [] ==> xs[0].pos == 0)
    && forall i | 0 < i < |xs| :: Follows(xs[i - 1], xs[i])
  }

  /** The value the first `n` of the lines lead to. */
  function ChainPcr(env: Env, policy: Option<RuntimePolicy>, alg: HashAlg, lines: seq<string>, n: nat): Bytes
    requires n <= |lines|
  {
    PcrFold(env.crypto, alg, StartHash(alg), Templates(env, policy, alg, lines[..n]))
  }

  /** Line `i` of the chain was brought by `x` and validated where the lines before it had led. */
  ghost predicate Link(env: Env, policy: Option<RuntimePolicy>, alg: HashAlg, h: History, lines: seq<string>, i: nat,
                       x: Consumed) {
    && i < |lines| && Validated(env, policy, alg, h, x) && LineOf(h, x) == lines[i]
    && CursorOf(env, policy, alg, h, x).pcr == ChainPcr(env, policy, alg, lines, i)
  }

  ghost predicate Links(env: Env, policy: Option<RuntimePolicy>, alg: HashAlg, h: History, lines: seq<string>,
                        xs: seq<Consumed>) {
    |lines| == |xs| && forall i | 0 <= i < |xs| :: Link(env, policy, alg, h, lines, i, xs[i])
  }

  /** The counted lines are those of rounds of `h`, in order, and the PCR is their fold. */
  ghost predicate ChainOf(env: Env, policy: Option<RuntimePolicy>, alg: HashAlg, h: History, s: State,
                          xs: seq<Consumed>, lines: seq<string>) {
    && |xs| == s.next && InOrder(xs) && Links(env, policy, alg, h, lines, xs)
    && (IMA_PCR in s.pcrs ==> s.pcrs[IMA_PCR] == ChainPcr(env, policy, alg, lines, |lines|))
    && (s.next > 0 ==> IMA_PCR in s.pcrs)
  }

  /** What resets and restarts rely on: one hash, and a PCR that is either registered for reset or at its start. */
  ghost predicate Registered(alg: HashAlg, s: State) {
    && s.algs.Keys <= {IMA_PCR}
    && (IMA_PCR in s.algs ==> s.algs[IMA_PCR] == alg)
    && (IMA_PCR in s.pcrs ==> IMA_PCR in s.imaPcrs || s.pcrs[IMA_PCR] == StartHash(alg))
  }

  ghost predicate Chained(env: Env, policy: Option<RuntimePolicy>, alg: HashAlg, h: History, s: State) {
    Registered(alg, s) && exists xs: seq<Consumed>, lines: seq<string> :: ChainOf(env, policy, alg, h, s, xs, lines)
  }

  lemma ChainedStart(env: Env, policy: Option<RuntimePolicy>, alg: HashAlg, h: History, s: State)
    requires Registered(alg, s) && s.next == 0 && (IMA_PCR in s.pcrs ==> s.pcrs[IMA_PCR] == StartHash(alg))
    ensures Chained(env, policy, alg, h, s)
  {
    var none: seq<string> := [];
    assert none[..0] == [];
    assert ChainOf(env, policy, alg, h, s, [], none);
  }

  /** With a count of 0 the PCR is unset or at its start value. */
  lemma ChainedZero(env: Env, policy: Option<RuntimePolicy>, alg: HashAlg, h: History, s: State)
    requires Chained(env, policy, alg, h, s) && s.next == 0 && IMA_PCR in s.pcrs
    ensures s.pcrs[IMA_PCR] == StartHash(alg)
  {
    var xs: seq<Consumed>, lines: seq<string> :| ChainOf(env, policy, alg, h, s, xs, lines);
    assert lines[..0] == [];
  }

  lemma ResetChained(env: Env, policy: Option<RuntimePolicy>, alg: HashAlg, h: History, s: State)
    requires Registered(alg, s)
    ensures Chained(env, policy, alg, h, ResetIma(s))
  {
    ChainedStart(env, policy, alg, h, ResetIma(s));
  }

  /** The same chain stands behind any state with the same cut. */
  lemma SameCutChained(env: Env, policy: Option<RuntimePolicy>, alg: HashAlg, h: History, s: State, s': State)
    requires Chained(env, policy, alg, h, s) && Registered(alg, s') && s'.next == s.next
    requires IMA_PCR in s'.pcrs <==> IMA_PCR in s.pcrs
    requires IMA_PCR in s.pcrs ==> s'.pcrs[IMA_PCR] == s.pcrs[IMA_PCR]
    ensures Chained(env, policy, alg, h, s')
  {
    var xs: seq<Consumed>, lines: seq<string> :| ChainOf(env, policy, alg, h, s, xs, lines);
    assert ChainOf(env, policy, alg, h, s', xs, lines);
  }

  /** A longer history and more lines leave the earlier links. */
  lemma OldLink(env: Env, policy: Option<RuntimePolicy>, alg: HashAlg, h: History, y: Option<Listing>, lines: seq<string>,
                more: seq<string>, i: nat, x: Consumed)
    requires Link(env, policy, alg, h, lines, i, x)
    ensures Link(env, policy, alg, h + [y], lines + more, i, x)
  {
    assert (h + [y])[x.step] == h[x.step];
    assert (lines + more)[..i] == lines[..i];
  }

  lemma OldLinks(env: Env, policy: Option<RuntimePolicy>, alg: HashAlg, h: History, y: Option<Listing>,
                 lines: seq<string>, xs: seq<Consumed>)
    requires Links(env, policy, alg, h, lines, xs)
    ensures Links(env, policy, alg, h + [y], lines, xs)
  {
    forall i | 0 <= i < |xs|
      ensures Link(env, policy, alg, h + [y], lines, i, xs[i])
    {
      OldLink(env, policy, alg, h, y, lines, [], i, xs[i]);
      assert lines + [] == lines;
    }
  }

  /** Further steps leave what is behind a state. */
  lemma ChainStays(env: Env, policy: Option<RuntimePolicy>, alg: HashAlg, h: History, y: Option<Listing>, s: State)
    requires Chained(env, policy, alg, h, s)
    ensures Chained(env, policy, alg, h + [y], s)
  {
    var xs: seq<Consumed>, lines: seq<string> :| ChainOf(env, policy, alg, h, s, xs, lines);
    OldLinks(env, policy, alg, h, y, lines, xs);
    assert ChainOf(env, policy, alg, h + [y], s, xs, lines);
  }

  /** The first `m` lines of step `step`. */
  function ConsumedBy(step: nat, m: nat): (r: seq<Consumed>)
    ensures |r| == m
  {
    seq(m, j requires 0 <= j < m => Consumed(step, j))
  }

  lemma ConsumedValidated(env: Env, policy: Option<RuntimePolicy>, alg: HashAlg, h: History, l: Listing, m: nat, j: nat)
    requires h != [] && h[|h| - 1] == Some(l) && j < m <= |l.lines| && Clean(CursorIn(env, policy, alg, l, m))
    ensures Validated(env, policy, alg, h, Consumed(|h| - 1, j))
    ensures CursorOf(env, policy, alg, h, Consumed(|h| - 1, j)) == CursorIn(env, policy, alg, l, j)
  {
    AllowedInPrefix(env, policy, alg, StartOf(policy, alg, l), l.lines, m, j);
  }

  /** The PCR of a listing's replay, from where the chain before it had led. */
  lemma PcrInListing(env: Env, policy: Option<RuntimePolicy>, alg: HashAlg, before: seq<string>, l: Listing, j: nat,
                     all: seq<string>, k: nat)
    requires j <= |l.lines| && CursorIn(env, policy, alg, l, j).Cursor?
    requires StartOf(policy, alg, l).pcr == ChainPcr(env, policy, alg, before, |before|)
    requires k <= |all| && all[..k] == before + l.lines[..j]
    ensures CursorIn(env, policy, alg, l, j).pcr == ChainPcr(env, policy, alg, all, k)
  {
    var c, lines := StartOf(policy, alg, l), l.lines[..j];
    assert before[..|before|] == before;
    ScanPcr(env, policy, alg, c, lines);
    TemplatesSplit(env, policy, alg, before, lines);
    FoldSplit(env.crypto, alg, StartHash(alg), Templates(env, policy, alg, before), Templates(env, policy, alg, lines));
  }

  lemma OrderGrows(h: History, xs: seq<Consumed>, m: nat)
    requires InOrder(xs) && forall i | 0 <= i < |xs| :: xs[i].step < |h|
    ensures InOrder(xs + ConsumedBy(|h|, m))
  {
  }

  /** Where a round starts is where the chain behind its state has led. */
  lemma StartOfChain(env: Env, policy: Option<RuntimePolicy>, alg: HashAlg, h: History, l: Listing, xs: seq<Consumed>,
                     before: seq<string>)
    requires ChainOf(env, policy, alg, h, l.s, xs, before) && Registered(alg, l.s)
    ensures StartOf(policy, alg, l).pcr == ChainPcr(env, policy, alg, before, |before|)
  {
    if xs == [] {
      assert before[..0] == [];
    }
  }

  lemma NewLine(before: seq<string>, lines: seq<string>, m: nat, j: nat, k: nat, all: seq<string>)
    requires j < m <= |lines| && all == before + lines[..m] && k == |before| + j
    ensures k < |all| && all[k] == lines[j] && all[..k] == before + lines[..j]
  {
  }

  lemma NewLink(env: Env, policy: Option<RuntimePolicy>, alg: HashAlg, h: History, l: Listing, m: nat, j: nat, k: nat,
                before: seq<string>, all: seq<string>, h': History)
    requires j < m <= |l.lines| && Clean(CursorIn(env, policy, alg, l, m)) && all == before + l.lines[..m] && k == |before| + j
    requires StartOf(policy, alg, l).pcr == ChainPcr(env, policy, alg, before, |before|)
    requires h' == h + [Some(l)]
    ensures Link(env, policy, alg, h', all, k, Consumed(|h|, j))
  {
    NewLine(before, l.lines, m, j, k, all);
    ConsumedValidated(env, policy, alg, h', l, m, j);
    PcrInListing(env, policy, alg, before, l, j, all, k);
  }

  lemma LinksGrow(env: Env, policy: Option<RuntimePolicy>, alg: HashAlg, h: History, l: Listing, m: nat,
                  xs: seq<Consumed>, before: seq<string>)
    requires Links(env, policy, alg, h, before, xs)
    requires m <= |l.lines| && Clean(CursorIn(env, policy, alg, l, m))
    requires StartOf(policy, alg, l).pcr == ChainPcr(env, policy, alg, before, |before|)
    ensures Links(env, policy, alg, h + [Some(l)], before + l.lines[..m], xs + ConsumedBy(|h|, m))
  {
    var zs, all := xs + ConsumedBy(|h|, m), before + l.lines[..m];
    forall i: nat | i < |zs|
      ensures Link(env, policy, alg, h + [Some(l)], all, i, zs[i])
    {
      if i < |xs| {
        OldLink(env, policy, alg, h, Some(l), before, l.lines[..m], i, xs[i]);
      } else {
        var j: nat := i - |xs|;
        NewLink(env, policy, alg, h, l, m, j, i, before, all, h + [Some(l)]);
      }
    }
  }

  lemma GrownChain(env: Env, policy: Option<RuntimePolicy>, alg: HashAlg, h: History, l: Listing, m: nat, s': State,
                   xs: seq<Consumed>, before: seq<string>, zs: seq<Consumed>, all: seq<string>)
    requires ChainOf(env, policy, alg, h, l.s, xs, before) && Registered(alg, l.s)
    requires m <= |l.lines| && Clean(CursorIn(env, policy, alg, l, m))
    requires s'.next == l.s.next + m && IMA_PCR in s'.pcrs && s'.pcrs[IMA_PCR] == CursorIn(env, policy, alg, l, m).pcr
    requires zs == xs + ConsumedBy(|h|, m) && all == before + l.lines[..m]
    ensures ChainOf(env, policy, alg, h + [Some(l)], s', zs, all)
  {
    StartOfChain(env, policy, alg, h, l, xs, before);
    assert forall i | 0 <= i < |xs| :: Link(env, policy, alg, h, before, i, xs[i]);
    OrderGrows(h, xs, m);
    LinksGrow(env, policy, alg, h, l, m, xs, before);
    assert all[..|all|] == all;
    PcrInListing(env, policy, alg, before, l, m, all, |all|);
  }

  lemma ChainedBy(env: Env, policy: Option<RuntimePolicy>, alg: HashAlg, h: History, s: State, xs: seq<Consumed>,
                  lines: seq<string>)
    requires ChainOf(env, policy, alg, h, s, xs, lines) && Registered(alg, s)
    ensures Chained(env, policy, alg, h, s)
  {
  }

  lemma ChainGrowsFrom(env: Env, policy: Option<RuntimePolicy>, alg: HashAlg, h: History, l: Listing, m: nat, s': State,
                       xs: seq<Consumed>, before: seq<string>)
    requires ChainOf(env, policy, alg, h, l.s, xs, before) && Registered(alg, l.s) && Registered(alg, s')
    requires m <= |l.lines| && Clean(CursorIn(env, policy, alg, l, m))
    requires s'.next == l.s.next + m && IMA_PCR in s'.pcrs && s'.pcrs[IMA_PCR] == CursorIn(env, policy, alg, l, m).pcr
    ensures Chained(env, policy, alg, h + [Some(l)], s')
  {
    var zs: seq<Consumed>, all: seq<string> := xs + ConsumedBy(|h|, m), before + l.lines[..m];
    GrownChain(env, policy, alg, h, l, m, s', xs, before, zs, all);
    ChainedBy(env, policy, alg, h + [Some(l)], s', zs, all);
  }

  /** A listing whose first `m` lines replay without failure extends the chain by exactly those lines. */
  lemma ChainGrows(env: Env, policy: Option<RuntimePolicy>, alg: HashAlg, h: History, l: Listing, m: nat, s': State)
    requires Chained(env, policy, alg, h, l.s) && Registered(alg, s')
    requires m <= |l.lines| && Clean(CursorIn(env, policy, alg, l, m))
    requires s'.next == l.s.next + m && IMA_PCR in s'.pcrs && s'.pcrs[IMA_PCR] == CursorIn(env, policy, alg, l, m).pcr
    ensures Chained(env, policy, alg, h + [Some(l)], s')
  {
    var xs: seq<Consumed>, before: seq<string> :| ChainOf(env, policy, alg, h, l.s, xs, before);
    ChainGrowsFrom(env, policy, alg, h, l, m, s', xs, before);
  }

  /** No line folds more than one template, so as many are folded as lines are counted exactly when none is blank. */
  lemma {:induction false} TemplatesCount(env: Env, policy: Option<RuntimePolicy>, alg: HashAlg, lines: seq<string>)
    requires forall i | 0 <= i < |lines| && lines[i] != "" :: env.parse(lines[i], LogHashAlg(policy), alg).Parsed?
    ensures |Templates(env, policy, alg, lines)| == CountLines(lines)
  {
    if lines != [] {
      var init := lines[..|lines| - 1];
      assert forall i | 0 <= i < |init| :: init[i] == lines[i];
      TemplatesCount(env, policy, alg, init);
    }
  }

  lemma LinkIsEntry(env: Env, policy: Option<RuntimePolicy>, alg: HashAlg, h: History, lines: seq<string>, i: nat, x: Consumed)
    requires Link(env, policy, alg, h, lines, i, x) && lines[i] != ""
    ensures env.parse(lines[i], LogHashAlg(policy), alg).Parsed?
  {
    assert LogAlg(policy) == LogHashAlg(policy);
  }

  lemma ChainCount(env: Env, policy: Option<RuntimePolicy>, alg: HashAlg, h: History, s: State, xs: seq<Consumed>,
                   lines: seq<string>)
    requires ChainOf(env, policy, alg, h, s, xs, lines)
    ensures |Templates(env, policy, alg, lines)| == CountLines(lines)
    ensures |Templates(env, policy, alg, lines)| == s.next <==> forall i | 0 <= i < |lines| :: lines[i] != ""
  {
    forall i | 0 <= i < |lines| && lines[i] != ""
      ensures env.parse(lines[i], LogHashAlg(policy), alg).Parsed?
    {
      LinkIsEntry(env, policy, alg, h, lines, i, xs[i]);
    }
    TemplatesCount(env, policy, alg, lines);
    CountAll(lines);
  }

  lemma LoopLineRegistered(env: Env, policy: Option<RuntimePolicy>, alg: HashAlg, l: Loop, line: string, linenum: nat,
                           q: Bytes)
    requires Registered(alg, l.state) && Fits(policy, l.cur)
    ensures Registered(alg, LoopLine(env, policy, alg, l, line, linenum, q).state)
  {
  }

  lemma {:induction false} LoopRegistered(env: Env, policy: Option<RuntimePolicy>, alg: HashAlg, s: State,
                                          lines: seq<string>, q: Bytes, n: nat)
    requires Registered(alg, s) && n <= |lines|
    ensures Registered(alg, LoopTo(env, policy, alg, s, lines, q, n).state)
  {
    if n > 0 {
      LoopRegistered(env, policy, alg, s, lines, q, n - 1);
      LoopLineRegistered(env, policy, alg, LoopTo(env, policy, alg, s, lines, q, n - 1), lines[n - 1], n - 1, q);
    }
  }

  function RoundOf(env: Env, policy: Option<RuntimePolicy>, alg: HashAlg, l: Listing): Round {
    ProcessList(env, policy, alg, l.s, l.lines, l.q)
  }

  /** The replay of the listing raised after a match behind a line that failed. */
  ghost predicate FailureKept(env: Env, policy: Option<RuntimePolicy>, alg: HashAlg, l: Listing) {
    KeepsFailure(env, policy, alg, StartOf(policy, alg, l), l.lines, l.q)
  }

  /** The state a round leaves is cut behind `m` lines of its list, all of which replayed without failure. */
  ghost predicate CutBehind(env: Env, policy: Option<RuntimePolicy>, alg: HashAlg, l: Listing, m: nat, s': State) {
    && m <= |l.lines| && Clean(CursorIn(env, policy, alg, l, m))
    && s'.next == l.s.next + m && IMA_PCR in s'.pcrs && s'.pcrs[IMA_PCR] == CursorIn(env, policy, alg, l, m).pcr
  }

  lemma AcceptedCut(env: Env, policy: Option<RuntimePolicy>, alg: HashAlg, l: Listing, loop: Loop) returns (m: nat)
    requires env.parseInt("10") == Some(IMA_PCR) && loop == LoopTo(env, policy, alg, l.s, l.lines, l.q, |l.lines|)
    requires Judge(loop).events == [] && !Judge(loop).raised
    ensures CutBehind(env, policy, alg, l, m, Judge(loop).state)
  {
    var lines := l.lines;
    assert lines[..|lines|] == lines && lines[..0] == [];
    LoopIsScan(env, policy, alg, l.s, lines, l.q, |lines|);
    LoopClosedForm(env, policy, alg, l.s, lines, l.q, |lines|);
    m := loop.matched.value;
  }

  /** The cut a round keeps although it raised, when no failure stands before it. */
  lemma RaisedCut(env: Env, policy: Option<RuntimePolicy>, alg: HashAlg, l: Listing, c: Cursor, k: nat) returns (m: nat)
    requires env.parseInt("10") == Some(IMA_PCR) && !FailureKept(env, policy, alg, l)
    requires c == StartOf(policy, alg, l) && RaisesFirst(env, policy, alg, c, l.lines, l.q, k)
    ensures CutBehind(env, policy, alg, l, m, RoundOf(env, policy, alg, l).state)
  {
    var lines, found := l.lines, MatchIn(env, policy, alg, c, l.lines, l.q, k);
    m := if found.Some? then found.value else 0;
    if m > 0 {
      RaisedCutIsFailed(env, policy, alg, l.s, c, lines, l.q, k, m);
      MatchedEntry(env, policy, alg, c, lines, m);
      RaisedCutPcr(env, policy, alg, l.s, c, lines, l.q, k, m);
    } else {
      assert lines[..0] == [];
      RaisedRoundCut(env, policy, alg, l.s, c, lines, l.q, k);
    }
  }

  /** The last line of a clean replay that ends in an entry names the IMA PCR. */
  lemma MatchedEntry(env: Env, policy: Option<RuntimePolicy>, alg: HashAlg, c: Cursor, lines: seq<string>, m: nat)
    requires c.Cursor? && Fits(policy, c) && 0 < m <= |lines| && Clean(Scan(env, policy, alg, c, lines[..m]))
    ensures lines[m - 1] != "" ==> var p := env.parse(lines[m - 1], LogHashAlg(policy), alg); p.Parsed? && p.entry.pcr == "10"
  {
    ScanNext(env, policy, alg, c, lines, m - 1);
    if lines[m - 1] != "" {
      CleanLineIsEntry(env, policy, alg, Scan(env, policy, alg, c, lines[..m - 1]), lines[m - 1]);
    }
  }

  lemma FailedRoundChained(env: Env, policy: Option<RuntimePolicy>, alg: HashAlg, h: History, l: Listing)
    requires Registered(alg, l.s) && RoundOf(env, policy, alg, l).events != []
    ensures Chained(env, policy, alg, h, RoundOf(env, policy, alg, l).state)
  {
    var loop := LoopTo(env, policy, alg, l.s, l.lines, l.q, |l.lines|);
    LoopRegistered(env, policy, alg, l.s, l.lines, l.q, |l.lines|);
    ResetChained(env, policy, alg, h, Judge(loop).state);
  }

  /** Where a round that did not fail is cut. */
  lemma KeptCut(env: Env, policy: Option<RuntimePolicy>, alg: HashAlg, l: Listing) returns (m: nat)
    requires env.parseInt("10") == Some(IMA_PCR) && !FailureKept(env, policy, alg, l)
    requires RoundOf(env, policy, alg, l).events == []
    ensures CutBehind(env, policy, alg, l, m, RoundOf(env, policy, alg, l).state)
  {
    if RoundOf(env, policy, alg, l).raised {
      var c := StartOf(policy, alg, l);
      RoundRaisesExactly(env, policy, alg, l.s, c, l.lines, l.q);
      var k := FirstRaise(env, policy, alg, c, l.lines, l.q, |l.lines|);
      m := RaisedCut(env, policy, alg, l, c, k);
    } else {
      m := AcceptedCut(env, policy, alg, l, LoopTo(env, policy, alg, l.s, l.lines, l.q, |l.lines|));
    }
  }

  lemma KeptRegistered(env: Env, policy: Option<RuntimePolicy>, alg: HashAlg, l: Listing)
    requires Registered(alg, l.s) && RoundOf(env, policy, alg, l).events == []
    ensures Registered(alg, RoundOf(env, policy, alg, l).state)
  {
    LoopRegistered(env, policy, alg, l.s, l.lines, l.q, |l.lines|);
  }

  /**
   * A round, on whatever list, extends the chain by its lines up to the match, or empties it when it failed; unless an
   * exception left it after a match behind a failed line, the state after it has a chain.
   */
  lemma RoundChained(env: Env, policy: Option<RuntimePolicy>, alg: HashAlg, h: History, l: Listing)
    requires Chained(env, policy, alg, h, l.s) && env.parseInt("10") == Some(IMA_PCR)
    requires !FailureKept(env, policy, alg, l)
    ensures Chained(env, policy, alg, h + [Some(l)], RoundOf(env, policy, alg, l).state)
  {
    if RoundOf(env, policy, alg, l).events != [] {
      FailedRoundChained(env, policy, alg, h + [Some(l)], l);
    } else {
      KeptRegistered(env, policy, alg, l);
      var m := KeptCut(env, policy, alg, l);
      ChainGrows(env, policy, alg, h, l, m, RoundOf(env, policy, alg, l).state);
    }
  }

  /** What a restarted verifier loads from a row written by `Store` has the chain of the state it was written from. */
  lemma StoreChained(env: Env, policy: Option<RuntimePolicy>, alg: HashAlg, h: History, row: Stored, s: State)
    requires Chained(env, policy, alg, h, s) && Chained(env, policy, alg, h, Restored(env.crypto, row))
    ensures Chained(env, policy, alg, h, Restored(env.crypto, Store(env.crypto, row, s)))
  {
    if ImaPcrValues(s) != map[] {
      var pcr :| pcr in ImaPcrValues(s);
      assert pcr in s.algs.Keys;
      SameCutChained(env, policy, alg, h, s, Restored(env.crypto, Store(env.crypto, row, s)));
    }
  }

  /** A line that parses as an entry, not blank and not a violation. */
  ghost predicate PlainEntry(env: Env, policy: Option<RuntimePolicy>, alg: HashAlg, line: string) {
    && line != ""
    && env.parse(line, LogHashAlg(policy), alg).Parsed?
    && Hashed(env.crypto, alg, env.parse(line, LogHashAlg(policy), alg).entry)
  }

  /** With the parser of `ImaAst`: what a line has to be for the results on equal PCRs below. */
  lemma ParsedLineIsPlain(env: Env, dm: DM.DmEnv, policy: Option<RuntimePolicy>, alg: HashAlg, line: string)
    requires env == EnvWith(env.crypto, dm, env.parseInt, env.tomtouFails)
    requires line != "" && env.parse(line, LogHashAlg(policy), alg).Parsed?
    requires var e := env.parse(line, LogHashAlg(policy), alg).entry;
             e.imaTemplateHash != FfHash(LogHashAlg(policy)) && !e.mode.Ima? && Ascii(e.mode.digest.algorithm)
    ensures PlainEntry(env, policy, alg, line)
  {
    ParsedIsHashed(env.crypto, line, LogHashAlg(policy), alg);
  }

  ghost predicate PlainLog(env: Env, policy: Option<RuntimePolicy>, alg: HashAlg, lines: seq<string>) {
    forall i | 0 <= i < |lines| :: PlainEntry(env, policy, alg, lines[i])
  }

  /** The fields a line shows; None where it is no entry. */
  function FieldsAt(env: Env, policy: Option<RuntimePolicy>, alg: HashAlg, line: string): Option<Fields> {
    match env.parse(line, LogHashAlg(policy), alg)
    case Parsed(e) => Some(FieldsOf(e.mode))
    case _ => None
  }

  function Entries(env: Env, policy: Option<RuntimePolicy>, alg: HashAlg, lines: seq<string>): (r: seq<Entry>)
    requires forall i | 0 <= i < |lines| :: env.parse(lines[i], LogHashAlg(policy), alg).Parsed?
    ensures |r| == |lines|
  {
    seq(|lines|, i requires 0 <= i < |lines| => env.parse(lines[i], LogHashAlg(policy), alg).entry)
  }

  lemma {:induction false} TemplatesOfEntries(env: Env, policy: Option<RuntimePolicy>, alg: HashAlg, lines: seq<string>)
    requires forall i | 0 <= i < |lines| :: lines[i] != "" && env.parse(lines[i], LogHashAlg(policy), alg).Parsed?
    ensures Templates(env, policy, alg, lines) == TemplatesOf(Entries(env, policy, alg, lines))
  {
    if lines != [] {
      var init := lines[..|lines| - 1];
      TemplatesOfEntries(env, policy, alg, init);
      assert TemplatesOf(Entries(env, policy, alg, lines)) ==
             TemplatesOf(Entries(env, policy, alg, init))
             + [env.parse(lines[|lines| - 1], LogHashAlg(policy), alg).entry.pcrTemplateHash];
    }
  }

  lemma EntriesHashed(env: Env, policy: Option<RuntimePolicy>, alg: HashAlg, a: seq<string>)
    requires PlainLog(env, policy, alg, a)
    ensures forall k | 0 <= k < |a| :: Hashed(env.crypto, alg, Entries(env, policy, alg, a)[k])
  {
    forall k | 0 <= k < |a| ensures Hashed(env.crypto, alg, Entries(env, policy, alg, a)[k]) {
      assert PlainEntry(env, policy, alg, a[k]);
    }
  }

  /** Two lists bring down the hash at line `k`: the inputs their PCRs or their template hashes are made of clash. */
  ghost predicate LinesClash(env: Env, policy: Option<RuntimePolicy>, alg: HashAlg, a: seq<string>, b: seq<string>, k: nat) {
    && k < |a| && k < |b|
    && (ClashAt(env.crypto, alg, StartHash(alg), Templates(env, policy, alg, a), StartHash(alg), Templates(env, policy, alg, b), k)
        || (var p, q := env.parse(a[k], LogHashAlg(policy), alg), env.parse(b[k], LogHashAlg(policy), alg);
            && p.Parsed? && q.Parsed? && p.entry.bytes != q.entry.bytes
            && env.crypto.hash(alg, p.entry.bytes) == env.crypto.hash(alg, q.entry.bytes)))
  }

  lemma EntriesClash(env: Env, policy: Option<RuntimePolicy>, alg: HashAlg, a: seq<string>, b: seq<string>, es: seq<Entry>,
                     fs: seq<Entry>, k: nat)
    requires PlainLog(env, policy, alg, a) && PlainLog(env, policy, alg, b)
    requires es == Entries(env, policy, alg, a) && fs == Entries(env, policy, alg, b)
    requires Templates(env, policy, alg, a) == TemplatesOf(es) && Templates(env, policy, alg, b) == TemplatesOf(fs)
    requires LogsClash(env.crypto, alg, es, fs, k)
    ensures LinesClash(env, policy, alg, a, b, k)
  {
  }

  /** Equally long lists of plain entries that fold to the same PCR show the same fields, line by line, or inputs that clash. */
  lemma SamePcrSameFields(env: Env, policy: Option<RuntimePolicy>, alg: HashAlg, a: seq<string>, b: seq<string>)
    requires HashHasSize(env.crypto, alg) && PlainLog(env, policy, alg, a) && PlainLog(env, policy, alg, b) && |a| == |b|
    requires PcrFold(env.crypto, alg, StartHash(alg), Templates(env, policy, alg, a))
          == PcrFold(env.crypto, alg, StartHash(alg), Templates(env, policy, alg, b))
    ensures (forall i | 0 <= i < |a| :: FieldsAt(env, policy, alg, a[i]) == FieldsAt(env, policy, alg, b[i]))
            || exists k: nat :: LinesClash(env, policy, alg, a, b, k)
  {
    var es, fs := Entries(env, policy, alg, a), Entries(env, policy, alg, b);
    TemplatesOfEntries(env, policy, alg, a);
    TemplatesOfEntries(env, policy, alg, b);
    EntriesHashed(env, policy, alg, a);
    EntriesHashed(env, policy, alg, b);
    LogBinding(env.crypto, alg, es, fs);
    if k: nat :| LogsClash(env.crypto, alg, es, fs, k) {
      EntriesClash(env, policy, alg, a, b, es, fs, k);
    } else {
      forall i | 0 <= i < |a|
        ensures FieldsAt(env, policy, alg, a[i]) == FieldsAt(env, policy, alg, b[i])
      {
        assert FieldsOf(es[i].mode) == FieldsOf(fs[i].mode);
      }
    }
  }

  /**
   * The quoted PCR pins the consumed log: two states with the same count and PCR, both backed by chains of plain
   * entries, were fed the same fields line by line, or the two logs show inputs that clash.
   */
  lemma SameCutSameLog(env: Env, policy: Option<RuntimePolicy>, alg: HashAlg, h: History, s: State, xs: seq<Consumed>,
                       a: seq<string>, h': History, t: State, ys: seq<Consumed>, b: seq<string>)
    requires HashHasSize(env.crypto, alg) && IMA_PCR in s.pcrs && IMA_PCR in t.pcrs
    requires ChainOf(env, policy, alg, h, s, xs, a) && ChainOf(env, policy, alg, h', t, ys, b)
    requires PlainLog(env, policy, alg, a) && PlainLog(env, policy, alg, b)
    requires s.next == t.next && s.pcrs[IMA_PCR] == t.pcrs[IMA_PCR]
    ensures (forall i | 0 <= i < s.next :: FieldsAt(env, policy, alg, a[i]) == FieldsAt(env, policy, alg, b[i]))
            || exists k: nat :: LinesClash(env, policy, alg, a, b, k)
  {
    assert a[..|a|] == a && b[..|b|] == b;
    SamePcrSameFields(env, policy, alg, a, b);
  }

  // Where the code falls short

  lemma AcceptedMatch(env: Env, policy: Option<RuntimePolicy>, alg: HashAlg, l: Listing, lines: seq<string>)
    requires env.parseInt("10") == Some(IMA_PCR) && lines == l.lines
    requires RoundOf(env, policy, alg, l).events == [] && !RoundOf(env, policy, alg, l).raised
    ensures var m := MatchIn(env, policy, alg, StartOf(policy, alg, l), lines, l.q, |lines|);
            m.Some? && RoundOf(env, policy, alg, l).state.next == l.s.next + m.value
  {
    assert lines[..|lines|] == lines;
    LoopIsScan(env, policy, alg, l.s, lines, l.q, |lines|);
    LoopClosedForm(env, policy, alg, l.s, lines, l.q, |lines|);
  }

  /** An accepted round counts its lines up to the match, blank ones included: the count is right when none is blank. */
  lemma BlankLinesExactly(env: Env, policy: Option<RuntimePolicy>, alg: HashAlg, l: Listing)
    requires env.parseInt("10") == Some(IMA_PCR)
    requires RoundOf(env, policy, alg, l).events == [] && !RoundOf(env, policy, alg, l).raised
    ensures var m := MatchIn(env, policy, alg, StartOf(policy, alg, l), l.lines, l.q, |l.lines|);
            && m.Some? && RoundOf(env, policy, alg, l).state.next == l.s.next + m.value
            && (m.value == CountLines(l.lines[..m.value]) <==> forall i | 0 <= i < m.value :: l.lines[i] != "")
  {
    var lines := l.lines;
    AcceptedMatch(env, policy, alg, l, lines);
    var m := MatchIn(env, policy, alg, StartOf(policy, alg, l), lines, l.q, |lines|);
    CountAll(lines[..m.value]);
    assert forall i | 0 <= i < m.value :: lines[..m.value][i] == lines[i];
  }

  /** One blank line before a clean entry that is matched: the round is accepted and counts two lines for one entry. */
  lemma BlankLineIsCounted(env: Env, policy: Option<RuntimePolicy>, alg: HashAlg, l: Listing, line: string)
    requires env.parseInt("10") == Some(IMA_PCR) && line != "" && l.lines == ["", line] && l.s.progress.None?
    requires Clean(StepLine(env, policy, alg, StartOf(policy, alg, l), line))
    requires StepLine(env, policy, alg, StartOf(policy, alg, l), line).pcr == l.q && StartOf(policy, alg, l).pcr != l.q
    ensures var r := RoundOf(env, policy, alg, l);
            r.events == [] && !r.raised && r.state.next == l.s.next + 2 && CountLines(l.lines) == 1
  {
    var c, lines := StartOf(policy, alg, l), l.lines;
    assert lines[..0] == [] && lines[..2] == lines;
    ScanNext(env, policy, alg, c, lines, 0);
    ScanNext(env, policy, alg, c, lines, 1);
    assert MatchIn(env, policy, alg, c, lines, l.q, 0).None?;
    assert MatchIn(env, policy, alg, c, lines, l.q, 1).None?;
    assert MatchIn(env, policy, alg, c, lines, l.q, 2) == Some(2);
    NothingFoundExactly(env, policy, alg, l.s, c, lines, l.q);
    AcceptedMatch(env, policy, alg, l, lines);
    assert lines[..1] == [""] && CountLines([""]) == 0;
  }

  /** An entry that fails where the quote is met, and behind it a line that raises: the entry stays counted. */
  lemma FailedThenRaising(env: Env, policy: Option<RuntimePolicy>, alg: HashAlg, l: Listing, bad: string,
                          worse: string, next: Cursor)
    requires l.lines == [bad, worse] && next == StepLine(env, policy, alg, StartOf(policy, alg, l), bad)
    requires bad != "" && env.parse(bad, LogHashAlg(policy), alg).Parsed? && !BadPcrField(env, policy, alg, bad)
    requires next.Cursor? && next.events != [] && next.pcr == l.q && StartOf(policy, alg, l).pcr != l.q
    requires LineRaises(env, policy, alg, next, worse)
    ensures FailureKept(env, policy, alg, l) && RoundOf(env, policy, alg, l).state.next == l.s.next + 1
  {
    var c := StartOf(policy, alg, l);
    SecondRaises(env, policy, alg, c, l.lines, l.q, next);
    RaisedRoundCut(env, policy, alg, l.s, c, l.lines, l.q, 1);
  }
}
