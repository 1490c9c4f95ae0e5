/**
 * Rounds that an exception other than the parser's own leaves: which lines raise, and what such a round keeps. The
 * state is not reset then, so a cut made before the exception stays, with whatever failures stand before it.
 */
module Exceptions {
  import opened Bytes
  import opened Crypto
  import opened ImaAst
  import opened AgentStates
  import opened Ima
  import opened Replay
  import DM = DeviceMapper

  /** The line cannot be packed, its signature cannot be checked, or its device event makes the validator raise. */
  predicate LineRaises(env: Env, policy: Option<RuntimePolicy>, alg: HashAlg, cur: Cursor, line: string)
    requires cur.Cursor? && (cur.dm.Some? <==> DmPolicies(policy).Some?)
  {
    || (line != "" && env.parse(line, LogHashAlg(policy), alg).EntryRaises?)
    || SignatureRaises(env, policy, alg, cur.rings, line)
    || (cur.dm.Some? && DeviceLineRaises(env, policy, alg, cur.dm.value, line))
  }

  predicate DeviceLineRaises(env: Env, policy: Option<RuntimePolicy>, alg: HashAlg, ds: DM.Devices, line: string)
    requires DmPolicies(policy).Some?
  {
    line != "" &&
    match env.parse(line, LogHashAlg(policy), alg)
    case Parsed(e) =>
      && HeadEvents(env, LogHashAlg(policy), e).1
      && e.mode.ImaBuf? && e.mode.path.name in DM_NAMES && env.crypto.keyFromData(e.mode.data).NotAKey?
      && DM.DeviceEntryRaises(env.dm, DmPolicies(policy).value, ds, e.mode.digest, e.mode.path.name, e.mode.data)
    case _ => false
  }

  /** A line raises where it stands exactly when it is one of these. */
  lemma LineRaisesExactly(env: Env, policy: Option<RuntimePolicy>, alg: HashAlg, cur: Cursor, line: string)
    requires cur.Cursor? && Fits(policy, cur)
    ensures StepLine(env, policy, alg, cur, line).Escaped? <==> LineRaises(env, policy, alg, cur, line)
  {
    var p := env.parse(line, LogHashAlg(policy), alg);
    if line != "" && p.Parsed? && p.entry.mode.ImaBuf? && DmPolicies(policy).Some? {
      var m := p.entry.mode;
      DM.ValidateRaisesExactly(env.crypto, env.dm, DmPolicies(policy).value, cur.dm.value, m.digest, m.path.name, m.data);
    }
  }

  /** With the parser of `ImaAst` the first of the three is a condition on the text: a field is too long for its place. */
  lemma ParsedLineRaisesExactly(env: Env, dm: DM.DmEnv, policy: Option<RuntimePolicy>, alg: HashAlg, cur: Cursor, line: string)
    requires env == EnvWith(env.crypto, dm, env.parseInt, env.tomtouFails) && cur.Cursor? && Fits(policy, cur)
    ensures StepLine(env, policy, alg, cur, line).Escaped? <==>
              || (line != "" && LineMode(line).Some? && TooLong(LineMode(line).value))
              || SignatureRaises(env, policy, alg, cur.rings, line)
              || (cur.dm.Some? && DeviceLineRaises(env, policy, alg, cur.dm.value, line))
  {
    LineRaisesExactly(env, policy, alg, cur, line);
    ParserRaisesExactly(env.crypto, line, LogHashAlg(policy), alg);
  }

  /** The entry's PCR field is no integer; it is read when the entry is the matched one. */
  predicate BadPcrField(env: Env, policy: Option<RuntimePolicy>, alg: HashAlg, line: string) {
    var p := env.parse(line, LogHashAlg(policy), alg);
    p.Parsed? && env.parseInt(p.entry.pcr).None?
  }

  /** A replay from `c` raises at line `k`: the line itself does, or it is matched and names no PCR. */
  ghost predicate RaisesAt(env: Env, policy: Option<RuntimePolicy>, alg: HashAlg, c: Cursor, lines: seq<string>,
                           q: Bytes, k: nat)
    requires c.Cursor? && (c.dm.Some? <==> DmPolicies(policy).Some?)
  {
    && k < |lines|
    && var at := Scan(env, policy, alg, c, lines[..k]);
       && at.Cursor?
       && (LineRaises(env, policy, alg, at, lines[k])
           || (MatchIn(env, policy, alg, c, lines, q, k + 1) == Some(k + 1) && BadPcrField(env, policy, alg, lines[k])))
  }

  /** Line `k` is the first to raise. */
  ghost predicate RaisesFirst(env: Env, policy: Option<RuntimePolicy>, alg: HashAlg, c: Cursor, lines: seq<string>,
                              q: Bytes, k: nat)
    requires c.Cursor? && (c.dm.Some? <==> DmPolicies(policy).Some?)
  {
    RaisesAt(env, policy, alg, c, lines, q, k) && !RaisesBefore(env, policy, alg, c, lines, q, k)
  }

  ghost predicate RaisesBefore(env: Env, policy: Option<RuntimePolicy>, alg: HashAlg, c: Cursor, lines: seq<string>,
                               q: Bytes, n: nat)
    requires c.Cursor? && (c.dm.Some? <==> DmPolicies(policy).Some?)
  {
    exists k: nat :: k < n && RaisesAt(env, policy, alg, c, lines, q, k)
  }

  /** The cut after `n` lines of which some may have failed: the PCR is the one the matched entry names. */
  function CutOf(env: Env, policy: Option<RuntimePolicy>, alg: HashAlg, s: State, lines: seq<string>, atMatch: Cursor,
                 m: nat): State
    requires m <= |lines| && atMatch.Cursor?
  {
    if m == 0 then s
    else
      var p := env.parse(lines[m - 1], LogHashAlg(policy), alg);
      if p.Parsed? then
        var cut := Cut(env, p.entry, s, atMatch, m - 1);
        if cut.Some? then cut.value else s
      else s
  }

  /** Where the loop stands after `n` lines that did not raise, whether they failed or not: at `now`, matched at `m`. */
  ghost predicate Stands(env: Env, policy: Option<RuntimePolicy>, alg: HashAlg, s: State, lines: seq<string>, q: Bytes,
                         n: nat, now: Cursor, m: Option<nat>, atMatch: Cursor, l: Loop)
  {
    && n <= |lines| && now.Cursor? && atMatch.Cursor? && Fits(policy, now)
    && l.cur == now && l.matched == m && l.length == CountLines(lines[..n])
    && (m.None? ==> now.pcr != q && l.state == s.(rings := now.rings))
    && (m.Some? ==>
          && m.value <= n && atMatch.pcr == q
          && (m.value > 0 ==> lines[m.value - 1] != "" && env.parse(lines[m.value - 1], LogHashAlg(policy), alg).Parsed?
                              && !BadPcrField(env, policy, alg, lines[m.value - 1]))
          && l.state == CutOf(env, policy, alg, s, lines, atMatch, m.value).(rings := now.rings))
  }

  ghost predicate StandsAt(env: Env, policy: Option<RuntimePolicy>, alg: HashAlg, s: State, c: Cursor,
                           lines: seq<string>, q: Bytes, n: nat, l: Loop)
    requires n <= |lines| && c.Cursor? && (c.dm.Some? <==> DmPolicies(policy).Some?)
  {
    var now, m := Scan(env, policy, alg, c, lines[..n]), MatchIn(env, policy, alg, c, lines, q, n);
    Stands(env, policy, alg, s, lines, q, n, now, m, if m.Some? then Scan(env, policy, alg, c, lines[..m.value]) else now, l)
  }

  lemma StandsStart(env: Env, policy: Option<RuntimePolicy>, alg: HashAlg, s: State, c: Cursor, lines: seq<string>, q: Bytes)
    requires c == StartCursor(policy, WithPcr(s, IMA_PCR, alg))
    ensures StandsAt(env, policy, alg, WithPcr(s, IMA_PCR, alg), c, lines, q, 0, LoopTo(env, policy, alg, s, lines, q, 0))
  {
    assert lines[..0] == [];
  }

  /** One line of the loop that does not raise: the cursor steps, and the cut is made where the quote is met first. */
  lemma LoopStep(env: Env, policy: Option<RuntimePolicy>, alg: HashAlg, l: Loop, line: string, linenum: nat, q: Bytes,
                 cur: Cursor)
    requires l.cur.Cursor? && Fits(policy, l.cur) && cur == StepLine(env, policy, alg, l.cur, line) && cur.Cursor?
    requires l.state.rings == l.cur.rings && (l.matched.None? ==> l.cur.pcr != q)
    requires l.matched.None? && cur.pcr == q ==> !BadPcrField(env, policy, alg, line)
    ensures var r, p := LoopLine(env, policy, alg, l, line, linenum, q), env.parse(line, LogHashAlg(policy), alg);
            && r.cur == cur && r.length == l.length + (if line == "" then 0 else 1)
            && if l.matched.None? && cur.pcr == q then
                 && line != "" && p.Parsed? && r.matched == Some(linenum + 1)
                 && Cut(env, p.entry, l.state, cur, linenum).Some?
                 && r.state == Cut(env, p.entry, l.state, cur, linenum).value.(rings := cur.rings)
               else r.matched == l.matched && r.state == l.state.(rings := cur.rings)
  {
  }

  /** One line that does not raise. */
  lemma StandsNext(env: Env, policy: Option<RuntimePolicy>, alg: HashAlg, s: State, lines: seq<string>, q: Bytes, n: nat,
                   now: Cursor, m: Option<nat>, atMatch: Cursor, l: Loop, next: Cursor)
    requires n < |lines| && Stands(env, policy, alg, s, lines, q, n, now, m, atMatch, l)
    requires next == StepLine(env, policy, alg, now, lines[n]) && next.Cursor?
    requires m.None? && next.pcr == q ==> !BadPcrField(env, policy, alg, lines[n])
    ensures Stands(env, policy, alg, s, lines, q, n + 1, next,
                   if m.Some? then m else if next.pcr == q then Some(n + 1) else None,
                   if m.Some? then atMatch else next, LoopLine(env, policy, alg, l, lines[n], n, q))
  {
    LoopStep(env, policy, alg, l, lines[n], n, q, next);
    assert lines[..n + 1][..n] == lines[..n];
  }

  lemma StandsStep(env: Env, policy: Option<RuntimePolicy>, alg: HashAlg, s: State, c: Cursor, lines: seq<string>,
                   q: Bytes, n: nat, l: Loop)
    requires n < |lines| && c.Cursor? && Fits(policy, c) && StandsAt(env, policy, alg, s, c, lines, q, n, l)
    requires !RaisesAt(env, policy, alg, c, lines, q, n)
    ensures StandsAt(env, policy, alg, s, c, lines, q, n + 1, LoopLine(env, policy, alg, l, lines[n], n, q))
  {
    ScanNext(env, policy, alg, c, lines, n);
    LineRaisesExactly(env, policy, alg, l.cur, lines[n]);
    var m := MatchIn(env, policy, alg, c, lines, q, n);
    StandsNext(env, policy, alg, s, lines, q, n, l.cur, m,
               if m.Some? then Scan(env, policy, alg, c, lines[..m.value]) else l.cur, l, Scan(env, policy, alg, c, lines[..n + 1]));
  }

  lemma {:induction false} StandsLoop(env: Env, policy: Option<RuntimePolicy>, alg: HashAlg, s: State, c: Cursor,
                                      lines: seq<string>, q: Bytes, n: nat)
    requires n <= |lines| && c == StartCursor(policy, WithPcr(s, IMA_PCR, alg)) && !RaisesBefore(env, policy, alg, c, lines, q, n)
    ensures StandsAt(env, policy, alg, WithPcr(s, IMA_PCR, alg), c, lines, q, n, LoopTo(env, policy, alg, s, lines, q, n))
  {
    if n == 0 {
      StandsStart(env, policy, alg, s, c, lines, q);
    } else {
      var k: nat := n - 1;
      var l := LoopTo(env, policy, alg, s, lines, q, k);
      StandsLoop(env, policy, alg, s, c, lines, q, k);
      NoneAt(env, policy, alg, c, lines, q, k);
      StandsStep(env, policy, alg, WithPcr(s, IMA_PCR, alg), c, lines, q, k, l);
    }
  }

  lemma NoneAt(env: Env, policy: Option<RuntimePolicy>, alg: HashAlg, c: Cursor, lines: seq<string>, q: Bytes, k: nat)
    requires c.Cursor? && Fits(policy, c) && !RaisesBefore(env, policy, alg, c, lines, q, k + 1)
    ensures !RaisesAt(env, policy, alg, c, lines, q, k)
  {
  }

  /** The line that raises changes at most the learned keys. */
  lemma RaiseStep(env: Env, policy: Option<RuntimePolicy>, alg: HashAlg, s: State, c: Cursor, lines: seq<string>,
                  q: Bytes, k: nat, l: Loop)
    requires c.Cursor? && Fits(policy, c) && RaisesAt(env, policy, alg, c, lines, q, k)
    requires StandsAt(env, policy, alg, s, c, lines, q, k, l)
    ensures var r := LoopLine(env, policy, alg, l, lines[k], k, q);
            r.cur.Escaped? && r.state == l.state.(rings := r.state.rings)
  {
    ScanNext(env, policy, alg, c, lines, k);
    LineRaisesExactly(env, policy, alg, l.cur, lines[k]);
  }

  /** Some line is the first. */
  lemma {:induction false} FirstRaise(env: Env, policy: Option<RuntimePolicy>, alg: HashAlg, c: Cursor,
                                      lines: seq<string>, q: Bytes, n: nat)
    returns (k: nat)
    requires c.Cursor? && (c.dm.Some? <==> DmPolicies(policy).Some?) && RaisesBefore(env, policy, alg, c, lines, q, n)
    ensures k < n && RaisesFirst(env, policy, alg, c, lines, q, k)
  {
    k :| k < n && RaisesAt(env, policy, alg, c, lines, q, k);
    if RaisesBefore(env, policy, alg, c, lines, q, k) {
      k := FirstRaise(env, policy, alg, c, lines, q, k);
    }
  }

  /** What is left of a round whose first line to raise is `k`: the loop's state at that line, its keys apart. */
  lemma RaisedState(env: Env, policy: Option<RuntimePolicy>, alg: HashAlg, s: State, c: Cursor, lines: seq<string>,
                    q: Bytes, k: nat)
    requires c == StartCursor(policy, WithPcr(s, IMA_PCR, alg)) && RaisesFirst(env, policy, alg, c, lines, q, k)
    ensures var r, l := ProcessList(env, policy, alg, s, lines, q), LoopTo(env, policy, alg, s, lines, q, k);
            && StandsAt(env, policy, alg, WithPcr(s, IMA_PCR, alg), c, lines, q, k, l)
            && r.raised && r.events == [] && r.state == l.state.(rings := r.state.rings)
  {
    StandsLoop(env, policy, alg, s, c, lines, q, k);
    RaiseStep(env, policy, alg, WithPcr(s, IMA_PCR, alg), c, lines, q, k, LoopTo(env, policy, alg, s, lines, q, k));
    EscapedStays(env, policy, alg, s, lines, q, k + 1);
  }

  /** A round raises exactly when one of its lines does. */
  lemma RoundRaisesExactly(env: Env, policy: Option<RuntimePolicy>, alg: HashAlg, s: State, c: Cursor,
                           lines: seq<string>, q: Bytes)
    requires c == StartCursor(policy, WithPcr(s, IMA_PCR, alg))
    ensures ProcessList(env, policy, alg, s, lines, q).raised <==> RaisesBefore(env, policy, alg, c, lines, q, |lines|)
  {
    if RaisesBefore(env, policy, alg, c, lines, q, |lines|) {
      var k := FirstRaise(env, policy, alg, c, lines, q, |lines|);
      RaisedState(env, policy, alg, s, c, lines, q, k);
    } else {
      StandsLoop(env, policy, alg, s, c, lines, q, |lines|);
    }
  }

  // Which rounds fail

  /** The list replays cleanly, meets the quote, and the quote catches up with the round before. */
  ghost predicate Succeeds(env: Env, policy: Option<RuntimePolicy>, alg: HashAlg, s: State, c: Cursor, lines: seq<string>, q: Bytes)
    requires c.Cursor? && (c.dm.Some? <==> DmPolicies(policy).Some?)
  {
    && Clean(Scan(env, policy, alg, c, lines))
    && var m := MatchIn(env, policy, alg, c, lines, q, |lines|);
       m.Some? && QuoteProgresses(s.progress, m.value, CountLines(lines))
  }

  lemma JudgedExactly(env: Env, policy: Option<RuntimePolicy>, alg: HashAlg, s: State, s': State, c: Cursor,
                      lines: seq<string>, q: Bytes, l: Loop)
    requires c.Cursor? && Fits(policy, c) && StandsAt(env, policy, alg, s', c, lines, q, |lines|, l) && s'.progress == s.progress
    ensures !Judge(l).raised && (Judge(l).events == [] <==> Succeeds(env, policy, alg, s, c, lines, q))
  {
    assert lines[..|lines|] == lines;
    StandsCut(env, policy, alg, s', c, lines, q, |lines|, l, MatchIn(env, policy, alg, c, lines, q, |lines|));
  }

  /** A round does not fail exactly when one of its lines raises or it succeeds. */
  lemma NoFailureExactly(env: Env, policy: Option<RuntimePolicy>, alg: HashAlg, s: State, c: Cursor, lines: seq<string>, q: Bytes)
    requires c == StartCursor(policy, WithPcr(s, IMA_PCR, alg))
    ensures ProcessList(env, policy, alg, s, lines, q).events == [] <==>
              RaisesBefore(env, policy, alg, c, lines, q, |lines|) || Succeeds(env, policy, alg, s, c, lines, q)
  {
    RoundRaisesExactly(env, policy, alg, s, c, lines, q);
    if RaisesBefore(env, policy, alg, c, lines, q, |lines|) {
      var k := FirstRaise(env, policy, alg, c, lines, q, |lines|);
      RaisedState(env, policy, alg, s, c, lines, q, k);
    } else {
      StandsLoop(env, policy, alg, s, c, lines, q, |lines|);
      JudgedExactly(env, policy, alg, s, WithPcr(s, IMA_PCR, alg), c, lines, q, LoopTo(env, policy, alg, s, lines, q, |lines|));
    }
  }

  /** A list that replays cleanly does not raise. */
  lemma CleanRaisesNot(env: Env, policy: Option<RuntimePolicy>, alg: HashAlg, s: State, c: Cursor, lines: seq<string>, q: Bytes)
    requires env.parseInt("10") == Some(IMA_PCR) && c == StartCursor(policy, WithPcr(s, IMA_PCR, alg))
    requires Clean(Scan(env, policy, alg, c, lines))
    ensures !ProcessList(env, policy, alg, s, lines, q).raised
  {
    assert lines[..|lines|] == lines;
    LoopClosedForm(env, policy, alg, s, lines, q, |lines|);
  }

  /** A round finds nothing, and raises nothing, exactly when it succeeds. */
  lemma NothingFoundExactly(env: Env, policy: Option<RuntimePolicy>, alg: HashAlg, s: State, c: Cursor, lines: seq<string>, q: Bytes)
    requires env.parseInt("10") == Some(IMA_PCR) && c == StartCursor(policy, WithPcr(s, IMA_PCR, alg))
    ensures var r := ProcessList(env, policy, alg, s, lines, q);
            r.events == [] && !r.raised <==> Succeeds(env, policy, alg, s, c, lines, q)
  {
    NoFailureExactly(env, policy, alg, s, c, lines, q);
    RoundRaisesExactly(env, policy, alg, s, c, lines, q);
    if Succeeds(env, policy, alg, s, c, lines, q) {
      CleanRaisesNot(env, policy, alg, s, c, lines, q);
    }
  }

  // What a raised round keeps

  lemma CutOfNext(env: Env, policy: Option<RuntimePolicy>, alg: HashAlg, s: State, lines: seq<string>, atMatch: Cursor,
                  m: nat)
    requires m <= |lines| && atMatch.Cursor?
    requires m > 0 ==> env.parse(lines[m - 1], LogHashAlg(policy), alg).Parsed? && !BadPcrField(env, policy, alg, lines[m - 1])
    ensures var r := CutOf(env, policy, alg, s, lines, atMatch, m);
            r.next == s.next + m && r.boottime == s.boottime && r.progress == s.progress
  {
  }

  /** How far the loop's state is cut. */
  lemma StandsCut(env: Env, policy: Option<RuntimePolicy>, alg: HashAlg, s: State, c: Cursor, lines: seq<string>, q: Bytes,
                  n: nat, l: Loop, m: Option<nat>)
    requires n <= |lines| && c.Cursor? && Fits(policy, c) && StandsAt(env, policy, alg, s, c, lines, q, n, l)
    requires m == MatchIn(env, policy, alg, c, lines, q, n)
    ensures l.state.next == s.next + (if m.Some? then m.value else 0)
    ensures l.state.boottime == s.boottime && l.state.progress == s.progress
    ensures m.None? || m.value == 0 ==> l.state == s.(rings := l.state.rings)
  {
    if m.Some? {
      CutOfNext(env, policy, alg, s, lines, Scan(env, policy, alg, c, lines[..m.value]), m.value);
    }
  }

  /**
   * A round that raises at line `k` keeps a new cut exactly when the quote was met at or before that line, behind at
   * least one line; the cut is at the match.
   */
  lemma RaisedRoundCut(env: Env, policy: Option<RuntimePolicy>, alg: HashAlg, s: State, c: Cursor, lines: seq<string>,
                       q: Bytes, k: nat)
    requires c == StartCursor(policy, WithPcr(s, IMA_PCR, alg)) && RaisesFirst(env, policy, alg, c, lines, q, k)
    ensures var r, m := ProcessList(env, policy, alg, s, lines, q).state, MatchIn(env, policy, alg, c, lines, q, k);
            && r.next == s.next + (if m.Some? then m.value else 0)
            && (r.next != s.next <==> m.Some? && m.value > 0)
            && r.boottime == s.boottime && r.progress == s.progress
            && (m.None? || m.value == 0 ==> r == WithPcr(s, IMA_PCR, alg).(rings := r.rings))
  {
    RaisedState(env, policy, alg, s, c, lines, q, k);
    StandsCut(env, policy, alg, WithPcr(s, IMA_PCR, alg), c, lines, q, k, LoopTo(env, policy, alg, s, lines, q, k),
              MatchIn(env, policy, alg, c, lines, q, k));
  }

  /** The cut that stays is filed under the PCR its entry names, with the value and the devices of the replay there. */
  lemma RaisedCutPlace(env: Env, policy: Option<RuntimePolicy>, alg: HashAlg, s: State, c: Cursor, lines: seq<string>,
                       q: Bytes, k: nat, m: nat)
    requires c == StartCursor(policy, WithPcr(s, IMA_PCR, alg)) && RaisesFirst(env, policy, alg, c, lines, q, k)
    requires MatchIn(env, policy, alg, c, lines, q, k) == Some(m) && m > 0
    ensures var r, atMatch := ProcessList(env, policy, alg, s, lines, q).state, Scan(env, policy, alg, c, lines[..m]);
            var p := env.parse(lines[m - 1], LogHashAlg(policy), alg);
            && p.Parsed? && atMatch.Cursor? && atMatch.pcr == q
            && var pcr := env.parseInt(p.entry.pcr);
               && pcr.Some? && r.pcrs == WithPcr(s, IMA_PCR, alg).pcrs[pcr.value := q] && pcr.value in r.imaPcrs
               && (atMatch.dm.Some? ==> r.dm == atMatch.dm)
  {
    RaisedState(env, policy, alg, s, c, lines, q, k);
  }

  /** Behind an entry for the IMA PCR the cut that stays has the value of the replay there. */
  lemma RaisedCutPcr(env: Env, policy: Option<RuntimePolicy>, alg: HashAlg, s: State, c: Cursor, lines: seq<string>,
                     q: Bytes, k: nat, m: nat)
    requires c == StartCursor(policy, WithPcr(s, IMA_PCR, alg)) && RaisesFirst(env, policy, alg, c, lines, q, k)
    requires MatchIn(env, policy, alg, c, lines, q, k) == Some(m) && m > 0 && env.parseInt("10") == Some(IMA_PCR)
    requires lines[m - 1] != "" ==>
               var p := env.parse(lines[m - 1], LogHashAlg(policy), alg); p.Parsed? && p.entry.pcr == "10"
    ensures var r, atMatch := ProcessList(env, policy, alg, s, lines, q).state, Scan(env, policy, alg, c, lines[..m]);
            r.next == s.next + m && IMA_PCR in r.pcrs && atMatch.Cursor? && r.pcrs[IMA_PCR] == atMatch.pcr
  {
    RaisedState(env, policy, alg, s, c, lines, q, k);
  }

  /** Line `i` adds a failure. */
  ghost predicate FailsAt(env: Env, policy: Option<RuntimePolicy>, alg: HashAlg, c: Cursor, lines: seq<string>, i: nat)
    requires c.Cursor? && (c.dm.Some? <==> DmPolicies(policy).Some?)
  {
    && i < |lines|
    && var before, after := Scan(env, policy, alg, c, lines[..i]), Scan(env, policy, alg, c, lines[..i + 1]);
       after.Cursor? && before.Cursor? && after.events != before.events
  }

  lemma StepAddsEvents(env: Env, policy: Option<RuntimePolicy>, alg: HashAlg, cur: Cursor, line: string)
    requires cur.Cursor? && Fits(policy, cur) && StepLine(env, policy, alg, cur, line).Cursor?
    ensures cur.events <= StepLine(env, policy, alg, cur, line).events
  {
  }

  lemma CleanNext(env: Env, policy: Option<RuntimePolicy>, alg: HashAlg, c: Cursor, lines: seq<string>, i: nat)
    requires c.Cursor? && Fits(policy, c) && i < |lines| && Scan(env, policy, alg, c, lines[..i + 1]).Cursor?
    ensures Scan(env, policy, alg, c, lines[..i]).Cursor?
    ensures Clean(Scan(env, policy, alg, c, lines[..i + 1])) <==>
              Clean(Scan(env, policy, alg, c, lines[..i])) && !FailsAt(env, policy, alg, c, lines, i)
  {
    ScanNext(env, policy, alg, c, lines, i);
    StepAddsEvents(env, policy, alg, Scan(env, policy, alg, c, lines[..i]), lines[i]);
  }

  ghost predicate FailsBefore(env: Env, policy: Option<RuntimePolicy>, alg: HashAlg, c: Cursor, lines: seq<string>, n: nat)
    requires c.Cursor? && (c.dm.Some? <==> DmPolicies(policy).Some?)
  {
    exists i: nat :: i < n && FailsAt(env, policy, alg, c, lines, i)
  }

  lemma FailsBeforeNext(env: Env, policy: Option<RuntimePolicy>, alg: HashAlg, c: Cursor, lines: seq<string>, n: nat)
    requires c.Cursor? && Fits(policy, c)
    ensures FailsBefore(env, policy, alg, c, lines, n + 1) <==>
              FailsBefore(env, policy, alg, c, lines, n) || FailsAt(env, policy, alg, c, lines, n)
  {
    if i: nat :| i < n + 1 && FailsAt(env, policy, alg, c, lines, i) {
      assert i < n || i == n;
    }
  }

  /** A replay without exception is clean exactly when no line of it failed. */
  lemma {:induction false} CleanExactly(env: Env, policy: Option<RuntimePolicy>, alg: HashAlg, c: Cursor,
                                        lines: seq<string>, m: nat)
    requires c.Cursor? && Fits(policy, c) && c.events == [] && m <= |lines| && Scan(env, policy, alg, c, lines[..m]).Cursor?
    ensures Clean(Scan(env, policy, alg, c, lines[..m])) <==> !FailsBefore(env, policy, alg, c, lines, m)
  {
    if m == 0 {
      assert lines[..0] == [];
    } else {
      CleanNext(env, policy, alg, c, lines, m - 1);
      CleanExactly(env, policy, alg, c, lines, m - 1);
      FailsBeforeNext(env, policy, alg, c, lines, m - 1);
    }
  }

  /** The round raises after a match behind a line that failed. */
  ghost predicate KeepsFailure(env: Env, policy: Option<RuntimePolicy>, alg: HashAlg, c: Cursor, lines: seq<string>,
                               q: Bytes)
    requires c.Cursor? && (c.dm.Some? <==> DmPolicies(policy).Some?)
  {
    exists k: nat ::
      && RaisesFirst(env, policy, alg, c, lines, q, k)
      && MatchIn(env, policy, alg, c, lines, q, k).Some?
      && FailsBefore(env, policy, alg, c, lines, MatchIn(env, policy, alg, c, lines, q, k).value)
  }

  lemma OneFirst(env: Env, policy: Option<RuntimePolicy>, alg: HashAlg, c: Cursor, lines: seq<string>, q: Bytes, k: nat)
    requires c.Cursor? && Fits(policy, c) && RaisesFirst(env, policy, alg, c, lines, q, k)
    ensures forall i: nat :: RaisesFirst(env, policy, alg, c, lines, q, i) ==> i == k
  {
  }

  /** The cut a round keeps although it raised holds a failed entry exactly when a line up to the match failed. */
  lemma RaisedCutIsFailed(env: Env, policy: Option<RuntimePolicy>, alg: HashAlg, s: State, c: Cursor,
                          lines: seq<string>, q: Bytes, k: nat, m: nat)
    requires c == StartCursor(policy, WithPcr(s, IMA_PCR, alg)) && RaisesFirst(env, policy, alg, c, lines, q, k)
    requires MatchIn(env, policy, alg, c, lines, q, k) == Some(m)
    ensures ProcessList(env, policy, alg, s, lines, q).state.next == s.next + m
    ensures !Clean(Scan(env, policy, alg, c, lines[..m])) <==> KeepsFailure(env, policy, alg, c, lines, q)
  {
    RaisedRoundCut(env, policy, alg, s, c, lines, q, k);
    MatchIsFirst(env, policy, alg, c, lines, q, k, 0);
    CleanExactly(env, policy, alg, c, lines, m);
    OneFirst(env, policy, alg, c, lines, q, k);
  }

  /** Two lines of which the first fails and is matched and the second raises. */
  lemma SecondRaises(env: Env, policy: Option<RuntimePolicy>, alg: HashAlg, c: Cursor, lines: seq<string>, q: Bytes,
                     next: Cursor)
    requires c.Cursor? && Fits(policy, c) && c.events == [] && |lines| == 2 && next == StepLine(env, policy, alg, c, lines[0])
    requires !BadPcrField(env, policy, alg, lines[0])
    requires next.Cursor? && next.events != [] && next.pcr == q && c.pcr != q
    requires LineRaises(env, policy, alg, next, lines[1])
    ensures RaisesFirst(env, policy, alg, c, lines, q, 1) && MatchIn(env, policy, alg, c, lines, q, 1) == Some(1)
    ensures KeepsFailure(env, policy, alg, c, lines, q)
  {
    assert lines[..0] == [];
    ScanNext(env, policy, alg, c, lines, 0);
    LineRaisesExactly(env, policy, alg, c, lines[0]);
    assert MatchIn(env, policy, alg, c, lines, q, 0) == None;
    assert MatchIn(env, policy, alg, c, lines, q, 1) == Some(1);
    assert FailsAt(env, policy, alg, c, lines, 0);
    assert FailsBefore(env, policy, alg, c, lines, 1);
    assert RaisesAt(env, policy, alg, c, lines, q, 1) && !RaisesAt(env, policy, alg, c, lines, q, 0);
    assert RaisesFirst(env, policy, alg, c, lines, q, 1);
  }
}
