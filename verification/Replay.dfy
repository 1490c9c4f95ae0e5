/** What the replay loop computes, free of the loop: prefixes, match positions and the growth of what is learned. */
module Replay {
  import opened Bytes
  import opened Crypto
  import opened ImaAst
  import opened Keyrings
  import opened AgentStates
  import opened Ima

  ghost predicate Clean(cur: Cursor) {
    cur.Cursor? && cur.events == []
  }

  /** A cursor that fits the policy: devices are tracked exactly when the policy has rules for them. */
  ghost predicate Fits(policy: Option<RuntimePolicy>, cur: Cursor) {
    cur.Cursor? ==> (cur.dm.Some? <==> DmPolicies(policy).Some?)
  }

  lemma {:induction false} ScanSplit(env: Env, policy: Option<RuntimePolicy>, alg: HashAlg, cur: Cursor,
                                     a: seq<string>, b: seq<string>)
    requires Fits(policy, cur)
    ensures Scan(env, policy, alg, cur, a + b) == Scan(env, policy, alg, Scan(env, policy, alg, cur, a), b)
  {
    if b == [] {
      assert a + b == a;
    } else {
      ScanSplit(env, policy, alg, cur, a, b[..|b| - 1]);
      assert (a + b)[..|a + b| - 1] == a + b[..|b| - 1];
    }
  }

  lemma ScanSnoc(env: Env, policy: Option<RuntimePolicy>, alg: HashAlg, cur: Cursor, lines: seq<string>, last: string)
    requires Fits(policy, cur)
    ensures Scan(env, policy, alg, cur, lines + [last]) == StepLine(env, policy, alg, Scan(env, policy, alg, cur, lines), last)
  {
    assert (lines + [last])[..|lines|] == lines;
  }

  lemma ScanNext(env: Env, policy: Option<RuntimePolicy>, alg: HashAlg, cur: Cursor, lines: seq<string>, n: nat)
    requires Fits(policy, cur) && n < |lines|
    ensures Scan(env, policy, alg, cur, lines[..n + 1]) == StepLine(env, policy, alg, Scan(env, policy, alg, cur, lines[..n]), lines[n])
  {
    assert lines[..n + 1][..n] == lines[..n];
  }

  /** A line only ever adds failures. */
  lemma StepKeepsEvents(env: Env, policy: Option<RuntimePolicy>, alg: HashAlg, cur: Cursor, line: string)
    requires Fits(policy, cur)
    ensures Clean(StepLine(env, policy, alg, cur, line)) ==> Clean(cur)
  {
  }

  lemma {:induction false} CleanPrefix(env: Env, policy: Option<RuntimePolicy>, alg: HashAlg, cur: Cursor,
                                       lines: seq<string>, n: nat)
    requires Fits(policy, cur) && n <= |lines| && Clean(Scan(env, policy, alg, cur, lines))
    ensures Clean(Scan(env, policy, alg, cur, lines[..n]))
    decreases |lines|
  {
    if n == |lines| {
      assert lines[..n] == lines;
    } else {
      var init := lines[..|lines| - 1];
      StepKeepsEvents(env, policy, alg, Scan(env, policy, alg, cur, init), lines[|lines| - 1]);
      CleanPrefix(env, policy, alg, cur, init, n);
      assert init[..n] == lines[..n];
    }
  }

  lemma {:induction false} ScanBlanks(env: Env, policy: Option<RuntimePolicy>, alg: HashAlg, cur: Cursor,
                                      blanks: seq<string>)
    requires Fits(policy, cur) && forall i | 0 <= i < |blanks| :: blanks[i] == ""
    ensures Scan(env, policy, alg, cur, blanks) == cur
  {
    if blanks != [] {
      ScanBlanks(env, policy, alg, cur, blanks[..|blanks| - 1]);
    }
  }

  // The PCR

  /** The template hash a line contributes: a line that is no entry contributes nothing. */
  function TemplateOfLine(env: Env, policy: Option<RuntimePolicy>, alg: HashAlg, line: string): seq<Bytes> {
    if line == "" then []
    else
      match env.parse(line, LogHashAlg(policy), alg)
      case Parsed(e) => [e.pcrTemplateHash]
      case _ => []
  }

  function Templates(env: Env, policy: Option<RuntimePolicy>, alg: HashAlg, lines: seq<string>): seq<Bytes> {
    if lines == [] then []
    else Templates(env, policy, alg, lines[..|lines| - 1]) + TemplateOfLine(env, policy, alg, lines[|lines| - 1])
  }

  lemma StepPcr(env: Env, policy: Option<RuntimePolicy>, alg: HashAlg, cur: Cursor, line: string)
    requires cur.Cursor? && Fits(policy, cur) && StepLine(env, policy, alg, cur, line).Cursor?
    ensures var t := TemplateOfLine(env, policy, alg, line);
            && |t| <= 1
            && StepLine(env, policy, alg, cur, line).pcr == if t == [] then cur.pcr else env.crypto.hash(alg, cur.pcr + t[0])
  {
  }

  lemma FoldStep(c: Crypto, alg: HashAlg, start: Bytes, ts: seq<Bytes>, t: seq<Bytes>)
    requires |t| <= 1
    ensures PcrFold(c, alg, start, ts + t) ==
            if t == [] then PcrFold(c, alg, start, ts) else c.hash(alg, PcrFold(c, alg, start, ts) + t[0])
  {
    if t == [] {
      assert ts + t == ts;
    } else {
      assert (ts + t)[..|ts + t| - 1] == ts;
    }
  }

  /** The replayed PCR is the fold over the template hashes of the lines. */
  lemma {:induction false} ScanPcr(env: Env, policy: Option<RuntimePolicy>, alg: HashAlg, cur: Cursor, lines: seq<string>)
    requires cur.Cursor? && Fits(policy, cur) && Scan(env, policy, alg, cur, lines).Cursor?
    ensures Scan(env, policy, alg, cur, lines).pcr == PcrFold(env.crypto, alg, cur.pcr, Templates(env, policy, alg, lines))
  {
    if lines != [] {
      var init, last := lines[..|lines| - 1], lines[|lines| - 1];
      ScanPcr(env, policy, alg, cur, init);
      StepPcr(env, policy, alg, Scan(env, policy, alg, cur, init), last);
      FoldStep(env.crypto, alg, cur.pcr, Templates(env, policy, alg, init), TemplateOfLine(env, policy, alg, last));
    }
  }

  /** In a clean replay every line that is not blank is an entry for the IMA PCR. */
  lemma CleanLineIsEntry(env: Env, policy: Option<RuntimePolicy>, alg: HashAlg, cur: Cursor, line: string)
    requires Fits(policy, cur) && Clean(StepLine(env, policy, alg, cur, line)) && line != ""
    ensures var p := env.parse(line, LogHashAlg(policy), alg); p.Parsed? && p.entry.pcr == "10"
  {
  }

  lemma {:induction false} TemplatesSize(env: Env, policy: Option<RuntimePolicy>, alg: HashAlg, cur: Cursor,
                                         lines: seq<string>)
    requires Fits(policy, cur) && Clean(Scan(env, policy, alg, cur, lines))
    requires forall i | 0 <= i < |lines| :: lines[i] != ""
    ensures |Templates(env, policy, alg, lines)| == |lines|
  {
    if lines != [] {
      var init := lines[..|lines| - 1];
      CleanPrefix(env, policy, alg, cur, lines, |init|);
      TemplatesSize(env, policy, alg, cur, init);
      CleanLineIsEntry(env, policy, alg, Scan(env, policy, alg, cur, init), lines[|lines| - 1]);
    }
  }

  lemma TemplatesSnoc(env: Env, policy: Option<RuntimePolicy>, alg: HashAlg, lines: seq<string>, last: string)
    ensures Templates(env, policy, alg, lines + [last]) == Templates(env, policy, alg, lines) + TemplateOfLine(env, policy, alg, last)
  {
    assert (lines + [last])[..|lines|] == lines;
  }

  lemma {:induction false} TemplatesSplit(env: Env, policy: Option<RuntimePolicy>, alg: HashAlg, a: seq<string>,
                                          b: seq<string>)
    ensures Templates(env, policy, alg, a + b) == Templates(env, policy, alg, a) + Templates(env, policy, alg, b)
    decreases |b|
  {
    if b == [] {
      assert a + b == a;
    } else {
      var init, last := b[..|b| - 1], b[|b| - 1];
      assert b == init + [last];
      Reassociate(a, init, [last]);
      TemplatesSplit(env, policy, alg, a, init);
      TemplatesSnoc(env, policy, alg, init, last);
      TemplatesSnoc(env, policy, alg, a + init, last);
      Reassociate(Templates(env, policy, alg, a), Templates(env, policy, alg, init), TemplateOfLine(env, policy, alg, last));
    }
  }

  /** A clean replay extends once per line, prefix by prefix. */
  lemma TemplatesPrefix(env: Env, policy: Option<RuntimePolicy>, alg: HashAlg, cur: Cursor, lines: seq<string>, n: nat)
    requires n <= |lines| && Fits(policy, cur) && Clean(Scan(env, policy, alg, cur, lines))
    requires forall i | 0 <= i < |lines| :: lines[i] != ""
    ensures |Templates(env, policy, alg, lines)| == |lines|
    ensures Templates(env, policy, alg, lines[..n]) == Templates(env, policy, alg, lines)[..n]
  {
    var a, b := lines[..n], lines[n..];
    assert lines == a + b;
    CleanPrefix(env, policy, alg, cur, lines, n);
    TemplatesSize(env, policy, alg, cur, lines);
    TemplatesSize(env, policy, alg, cur, a);
    TemplatesSplit(env, policy, alg, a, b);
  }

  // The loop

  /** The first position, up to `n`, at which the replayed PCR is the quoted one. */
  function MatchIn(env: Env, policy: Option<RuntimePolicy>, alg: HashAlg, cur: Cursor, lines: seq<string>, q: Bytes,
                   n: nat): (r: Option<nat>)
    requires n <= |lines| && cur.Cursor? && (cur.dm.Some? <==> DmPolicies(policy).Some?)
    ensures r.Some? ==> r.value <= n
  {
    var here := Scan(env, policy, alg, cur, lines[..n]);
    if n == 0 then if cur.pcr == q then Some(0) else None
    else
      var before := MatchIn(env, policy, alg, cur, lines, q, n - 1);
      if before.Some? then before else if here.Cursor? && here.pcr == q then Some(n) else None
  }

  /** The state after `n` lines that went well: cut at the match, with every key of the lines learned. */
  function StateAfter(policy: Option<RuntimePolicy>, s: State, atMatch: Cursor, now: Cursor, matched: Option<nat>): State
    requires atMatch.Cursor? && now.Cursor?
  {
    var cut := if matched.None? || matched.value == 0 then s
               else
                 var u := UpdateIma(s, IMA_PCR, atMatch.pcr, matched.value);
                 if DmPolicies(policy).Some? then u.(dm := atMatch.dm) else u;
    cut.(rings := now.rings)
  }

  function CountLines(lines: seq<string>): nat {
    if lines == [] then 0
    else CountLines(lines[..|lines| - 1]) + if lines[|lines| - 1] == "" then 0 else 1
  }

  lemma LineSteps(env: Env, policy: Option<RuntimePolicy>, alg: HashAlg, l: Loop, line: string, linenum: nat, q: Bytes)
    requires Fits(policy, l.cur) && LoopLine(env, policy, alg, l, line, linenum, q).cur.Cursor?
    ensures l.cur.Cursor? && LoopLine(env, policy, alg, l, line, linenum, q).cur == StepLine(env, policy, alg, l.cur, line)
  {
  }

  lemma {:induction false} LoopIsScan(env: Env, policy: Option<RuntimePolicy>, alg: HashAlg, s: State,
                                      lines: seq<string>, q: Bytes, n: nat)
    requires n <= |lines| && LoopTo(env, policy, alg, s, lines, q, n).cur.Cursor?
    ensures LoopTo(env, policy, alg, s, lines, q, n).cur ==
            Scan(env, policy, alg, StartCursor(policy, WithPcr(s, IMA_PCR, alg)), lines[..n])
  {
    if n > 0 {
      var k: nat := n - 1;
      LoopIsScan(env, policy, alg, s, lines, q, k);
      ScanNext(env, policy, alg, StartCursor(policy, WithPcr(s, IMA_PCR, alg)), lines, k);
      LineSteps(env, policy, alg, LoopTo(env, policy, alg, s, lines, q, k), lines[k], k, q);
    } else {
      assert lines[..0] == [];
    }
  }

  /** One line of the loop, when it goes well. */
  lemma LoopLineClean(env: Env, policy: Option<RuntimePolicy>, alg: HashAlg, l: Loop, line: string, linenum: nat, q: Bytes)
    requires env.parseInt("10") == Some(IMA_PCR)
    requires l.cur.Cursor? && Fits(policy, l.cur) && Clean(StepLine(env, policy, alg, l.cur, line))
    requires l.matched.None? ==> l.cur.pcr != q
    ensures var cur, r := StepLine(env, policy, alg, l.cur, line), LoopLine(env, policy, alg, l, line, linenum, q);
            var cutsHere := l.matched.None? && cur.pcr == q;
            && r.cur == cur
            && r.length == l.length + (if line == "" then 0 else 1)
            && r.matched == (if cutsHere then Some(linenum + 1) else l.matched)
            && r.state == if cutsHere then StateAfter(policy, l.state, cur, cur, Some(linenum + 1))
                          else if line == "" then l.state else l.state.(rings := cur.rings)
  {
    if line != "" {
      CleanLineIsEntry(env, policy, alg, l.cur, line);
    }
  }

  /** The whole loop in closed form, for a list whose replay is clean. */
  lemma {:induction false} LoopClosedForm(env: Env, policy: Option<RuntimePolicy>, alg: HashAlg, s: State,
                                          lines: seq<string>, q: Bytes, n: nat)
    requires n <= |lines| && env.parseInt("10") == Some(IMA_PCR)
    requires Clean(Scan(env, policy, alg, StartCursor(policy, WithPcr(s, IMA_PCR, alg)), lines[..n]))
    ensures IsClosedForm(env, policy, alg, WithPcr(s, IMA_PCR, alg), lines, q, n, LoopTo(env, policy, alg, s, lines, q, n))
  {
    var s' := WithPcr(s, IMA_PCR, alg);
    var c := StartCursor(policy, s');
    if n > 0 {
      ScanNext(env, policy, alg, c, lines, n - 1);
      var before := Scan(env, policy, alg, c, lines[..n - 1]);
      StepKeepsEvents(env, policy, alg, before, lines[n - 1]);
      LoopClosedForm(env, policy, alg, s, lines, q, n - 1);
      ClosedFormStep(env, policy, alg, s', lines, q, n - 1, LoopTo(env, policy, alg, s, lines, q, n - 1));
    } else {
      assert lines[..0] == [];
    }
  }

  ghost predicate IsClosedForm(env: Env, policy: Option<RuntimePolicy>, alg: HashAlg, s: State, lines: seq<string>,
                               q: Bytes, n: nat, l: Loop)
    requires n <= |lines| && IMA_PCR in s.pcrs
  {
    var c := StartCursor(policy, s);
    var now, m := Scan(env, policy, alg, c, lines[..n]), MatchIn(env, policy, alg, c, lines, q, n);
    && Clean(now)
    && (m.None? ==> now.pcr != q)
    && (m.Some? ==> Clean(Scan(env, policy, alg, c, lines[..m.value])))
    && l.cur == now && l.matched == m && l.length == CountLines(lines[..n])
    && l.state == StateAfter(policy, s, if m.Some? then Scan(env, policy, alg, c, lines[..m.value]) else now, now, m)
  }

  /** One clean line, from where the loop stands at `now`, matched at `m`. */
  lemma ClosedNext(env: Env, policy: Option<RuntimePolicy>, alg: HashAlg, s: State, line: string, n: nat, q: Bytes,
                   now: Cursor, m: Option<nat>, atMatch: Cursor, l: Loop, next: Cursor)
    requires env.parseInt("10") == Some(IMA_PCR) && now.Cursor? && Fits(policy, now) && atMatch.Cursor?
    requires l.cur == now && l.matched == m && l.state == StateAfter(policy, s, atMatch, now, m) && (m.None? ==> now.pcr != q)
    requires next == StepLine(env, policy, alg, now, line) && Clean(next)
    ensures var r := LoopLine(env, policy, alg, l, line, n, q);
            var m' := if m.Some? then m else if next.pcr == q then Some(n + 1) else None;
            && r.cur == next && r.matched == m' && r.length == l.length + (if line == "" then 0 else 1)
            && r.state == StateAfter(policy, s, if m.Some? then atMatch else next, next, m')
  {
    LoopLineClean(env, policy, alg, l, line, n, q);
  }

  lemma ClosedFormStep(env: Env, policy: Option<RuntimePolicy>, alg: HashAlg, s: State, lines: seq<string>, q: Bytes,
                       n: nat, l: Loop)
    requires n < |lines| && env.parseInt("10") == Some(IMA_PCR) && IMA_PCR in s.pcrs
    requires IsClosedForm(env, policy, alg, s, lines, q, n, l)
    requires Clean(StepLine(env, policy, alg, l.cur, lines[n]))
    ensures IsClosedForm(env, policy, alg, s, lines, q, n + 1, LoopLine(env, policy, alg, l, lines[n], n, q))
  {
    var c := StartCursor(policy, s);
    var m := MatchIn(env, policy, alg, c, lines, q, n);
    ScanNext(env, policy, alg, c, lines, n);
    ClosedNext(env, policy, alg, s, lines[n], n, q, l.cur, m,
               if m.Some? then Scan(env, policy, alg, c, lines[..m.value]) else l.cur, l, StepLine(env, policy, alg, l.cur, lines[n]));
    assert lines[..n + 1][..n] == lines[..n];
  }

  lemma {:induction false} MatchIsFirst(env: Env, policy: Option<RuntimePolicy>, alg: HashAlg, cur: Cursor,
                                        lines: seq<string>, q: Bytes, n: nat, i: nat)
    requires n <= |lines| && cur.Cursor? && Fits(policy, cur) && Scan(env, policy, alg, cur, lines[..n]).Cursor?
    ensures var m := MatchIn(env, policy, alg, cur, lines, q, n);
            m.Some? ==> Scan(env, policy, alg, cur, lines[..m.value]).Cursor?
                        && Scan(env, policy, alg, cur, lines[..m.value]).pcr == q
    ensures i <= n && Scan(env, policy, alg, cur, lines[..i]).Cursor? && Scan(env, policy, alg, cur, lines[..i]).pcr == q ==>
              MatchIn(env, policy, alg, cur, lines, q, n).Some? && MatchIn(env, policy, alg, cur, lines, q, n).value <= i
  {
    assert lines[..0] == [];
    if n > 0 {
      ScanNext(env, policy, alg, cur, lines, n - 1);
      MatchIsFirst(env, policy, alg, cur, lines, q, n - 1, i);
    }
  }

  /** Every line counts exactly when none is blank. */
  lemma {:induction false} CountAll(lines: seq<string>)
    ensures CountLines(lines) <= |lines|
    ensures CountLines(lines) == |lines| <==> forall i | 0 <= i < |lines| :: lines[i] != ""
  {
    if lines != [] {
      var init := lines[..|lines| - 1];
      CountAll(init);
      assert forall i | 0 <= i < |init| :: init[i] == lines[i];
    }
  }

  lemma {:induction false} CountNonBlank(lines: seq<string>, blanks: seq<string>)
    requires forall i | 0 <= i < |lines| :: lines[i] != ""
    requires forall i | 0 <= i < |blanks| :: blanks[i] == ""
    ensures CountLines(lines + blanks) == |lines|
    decreases |lines| + |blanks|
  {
    var all := lines + blanks;
    if blanks != [] {
      assert all[..|all| - 1] == lines + blanks[..|blanks| - 1];
      CountNonBlank(lines, blanks[..|blanks| - 1]);
    } else if lines != [] {
      assert all[..|all| - 1] == lines[..|lines| - 1] + [];
      CountNonBlank(lines[..|lines| - 1], []);
    }
  }

  // What a line teaches, and that knowing more loses nothing

  /** The key a line teaches, if any; it does not depend on what was learned before. */
  function LessonOf(env: Env, policy: Option<RuntimePolicy>, alg: HashAlg,
                    line: string): Option<(string, PubKey, Option<nat>)> {
    if line == "" then None
    else
      match env.parse(line, LogHashAlg(policy), alg)
      case Parsed(e) =>
        if HeadEvents(env, LogHashAlg(policy), e).1 && e.mode.ImaBuf? then
          match EffectOf(env.crypto, policy, DmPolicies(policy).Some?, e.mode.digest, e.mode.path, e.mode.data)
          case Learn(key, keyid) => Some((e.mode.path.name, key, keyid))
          case _ => None
        else None
      case _ => None
  }

  function LearnLesson(c: Crypto, rings: Rings, lesson: Option<(string, PubKey, Option<nat>)>): Rings {
    if lesson.None? then rings else AddKey(c, rings, lesson.value.0, lesson.value.1, lesson.value.2)
  }

  lemma StepLearns(env: Env, policy: Option<RuntimePolicy>, alg: HashAlg, cur: Cursor, line: string)
    requires cur.Cursor? && Fits(policy, cur) && StepLine(env, policy, alg, cur, line).Cursor?
    ensures StepLine(env, policy, alg, cur, line).rings == LearnLesson(env.crypto, cur.rings, LessonOf(env, policy, alg, line))
  {
  }

  /** The key a line teaches does not share its id with another key. */
  ghost predicate DistinctKeyId(env: Env, policy: Option<RuntimePolicy>, alg: HashAlg, keyOf: nat -> PubKey, line: string) {
    var lesson := LessonOf(env, policy, alg, line);
    lesson.Some? ==> lesson.value.1 == keyOf(KeyIdFor(env.crypto, lesson.value.1, lesson.value.2))
  }

  lemma LessonKeepsOrder(c: Crypto, more: Rings, less: Rings, lesson: Option<(string, PubKey, Option<nat>)>)
    requires Covers(more, less)
    ensures Covers(LearnLesson(c, more, lesson), LearnLesson(c, less, lesson))
  {
    if lesson.Some? {
      AddCovers(c, more, less, lesson.value.0, lesson.value.1, lesson.value.2);
    }
  }

  lemma LessonCoherent(env: Env, policy: Option<RuntimePolicy>, alg: HashAlg,
                       keyOf: nat -> PubKey, rings: Rings, line: string)
    requires Coherent(rings, keyOf) && DistinctKeyId(env, policy, alg, keyOf, line)
    ensures Coherent(LearnLesson(env.crypto, rings, LessonOf(env, policy, alg, line)), keyOf)
  {
    var lesson := LessonOf(env, policy, alg, line);
    if lesson.Some? {
      AddCoherent(env.crypto, rings, lesson.value.0, lesson.value.1, lesson.value.2, keyOf);
    }
  }

  lemma LessonGrows(c: Crypto, rings: Rings, lesson: Option<(string, PubKey, Option<nat>)>)
    ensures Covers(LearnLesson(c, rings, lesson), rings)
  {
    if lesson.Some? {
      forall id: nat | FindKey(rings, id).Some?
        ensures FindKey(LearnLesson(c, rings, lesson), id).Some?
      {
        FindAfterAdd(c, rings, lesson.value.0, lesson.value.1, lesson.value.2, id);
      }
    }
  }

  /** The check of the line's signature raises: its key is known, and there is no verdict with it. */
  predicate SignatureRaises(env: Env, policy: Option<RuntimePolicy>, alg: HashAlg, rings: Rings, line: string) {
    line != "" &&
    match env.parse(line, LogHashAlg(policy), alg)
    case Parsed(e) =>
      && HeadEvents(env, LogHashAlg(policy), e).1 && e.mode.ImaSig?
      && CheckSig(env.crypto, policy, Some(rings), e.mode.digest, e.mode.path, e.mode.signature).CheckRaises?
    case _ => false
  }

  /** A signature entry that passes with fewer keys passes with more, unless the check now raises. */
  lemma SigMonotone(c: Crypto, policy: Option<RuntimePolicy>, more: Rings, less: Rings, keyOf: nat -> PubKey,
                    digest: Digest, path: Name, signature: Option<Bytes>)
    requires Covers(more, less) && Coherent(more, keyOf) && Coherent(less, keyOf)
    requires ValidateSig(c, policy, Some(less), digest, path, signature) == Some([])
    ensures ValidateSig(c, policy, Some(more), digest, path, signature) ==
            if CheckSig(c, policy, Some(more), digest, path, signature).CheckRaises? then None else Some([])
  {
    if signature.Some? {
      VerifyMonotone(c, more, less, keyOf, signature.value, digest.hash, digest.algorithm);
    }
  }

  /**
   * A line that is clean where fewer keys are known is clean where more are, and does the same to the devices; only
   * the check of a signature whose key is known now can raise.
   */
  lemma StepMonotone(env: Env, policy: Option<RuntimePolicy>, alg: HashAlg, keyOf: nat -> PubKey, more: Cursor, less: Cursor, line: string)
    requires Clean(more) && Clean(less) && Fits(policy, more) && Fits(policy, less) && more.dm == less.dm
    requires Covers(more.rings, less.rings) && Coherent(more.rings, keyOf) && Coherent(less.rings, keyOf)
    requires Clean(StepLine(env, policy, alg, less, line))
    ensures var r := StepLine(env, policy, alg, more, line);
            && (r.Escaped? <==> SignatureRaises(env, policy, alg, more.rings, line))
            && (r.Cursor? ==> Clean(r) && r.dm == StepLine(env, policy, alg, less, line).dm)
  {
    if line != "" {
      var p := env.parse(line, LogHashAlg(policy), alg);
      if p.Parsed? && p.entry.mode.ImaSig? && HeadEvents(env, LogHashAlg(policy), p.entry).1 {
        var m := p.entry.mode;
        assert ValidateSig(env.crypto, policy, Some(less.rings), m.digest, m.path, m.signature) == Some([]);
        SigMonotone(env.crypto, policy, more.rings, less.rings, keyOf, m.digest, m.path, m.signature);
      }
    }
  }

  /** What a line does to the devices depends on the devices alone; on the keys depends only whether it raises. */
  lemma StepDevices(env: Env, policy: Option<RuntimePolicy>, alg: HashAlg, a: Cursor, b: Cursor, line: string)
    requires a.Cursor? && b.Cursor? && Fits(policy, a) && Fits(policy, b) && a.dm == b.dm
    requires StepLine(env, policy, alg, a, line).Cursor?
    ensures var r := StepLine(env, policy, alg, b, line);
            && (r.Escaped? <==> SignatureRaises(env, policy, alg, b.rings, line))
            && (r.Cursor? ==> r.dm == StepLine(env, policy, alg, a, line).dm)
  {
  }
}
