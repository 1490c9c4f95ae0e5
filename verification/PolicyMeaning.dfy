/** Which lines a runtime policy allows, what an allowed line teaches, and that the validators find just that. */
module PolicyMeaning {
  import opened Bytes
  import opened Crypto
  import opened ImaAst
  import opened Keyrings
  import opened AgentStates
  import opened Ima
  import opened Replay
  import DM = DeviceMapper

  // What is allowed

  /** The list names the path, and with it the digest in hexadecimal. */
  predicate Lists(lists: map<string, set<string>>, path: Name, digest: Digest) {
    path.name in lists && ToHex(digest.hash) in lists[path.name]
  }

  predicate Excluded(policy: Option<RuntimePolicy>, path: Name) {
    policy.Some? && policy.value.excluded(path.name)
  }

  ghost predicate FileAllowed(policy: Option<RuntimePolicy>, digest: Digest, path: Name) {
    policy.None? || Excluded(policy, path) || Lists(policy.value.digests, path, digest)
  }

  /** A number of four bytes, the most significant first. */
  function Word(b: Bytes): int
    requires |b| == 4
  {
    0x100_0000 * (b[0] as int) + 0x1_0000 * (b[1] as int) + 0x100 * (b[2] as int) + b[3]
  }

  /** Header of a file signature: kind 3 or 5, version 2, hash, four bytes of key id, two of length, then the body. */
  ghost predicate SignedAs(signature: Bytes, algorithm: string, keyid: nat, body: Bytes) {
    && |signature| >= 9 && (signature[0] == 3 || signature[0] == 5) && signature[1] == 2
    && HashName(signature[2]) == Some(algorithm)
    && keyid == Word(signature[3..7])
    && |body| == 0x100 * (signature[7] as int) + signature[8]
    && body == signature[9..]
  }

  /** The signature names a known key, and checking it with that key ends as `outcome`. */
  ghost predicate Checks(c: Crypto, rings: Rings, signature: Option<Bytes>, digest: Digest, outcome: SigCheck) {
    signature.Some? && exists keyid: nat, body: Bytes ::
      && SignedAs(signature.value, digest.algorithm, keyid, body)
      && exists key :: KnownAs(rings, keyid, key) && c.sigVerify(key, body, digest.hash, digest.algorithm) == outcome
  }

  /** Excluded, signed with a known key, or listed and of a signature whose check does not raise. */
  ghost predicate SignedFileAllowed(c: Crypto, policy: Option<RuntimePolicy>, rings: Rings,
                                    digest: Digest, path: Name, signature: Option<Bytes>) {
    || Excluded(policy, path)
    || Checks(c, rings, signature, digest, Genuine)
    || (policy.Some? && Lists(policy.value.digests, path, digest) && !Checks(c, rings, signature, digest, CheckRaises))
  }

  predicate IsDeviceName(name: string) {
    || name == "dm_table_load" || name == "dm_device_resume" || name == "dm_device_remove"
    || name == "dm_table_clear" || name == "dm_device_rename" || name == "dm_target_update"
  }

  /** The policy has rules for devices, and the buffer is an event of theirs. */
  predicate IsDeviceEvent(c: Crypto, policy: Option<RuntimePolicy>, path: Name, data: Bytes) {
    policy.Some? && policy.value.dm.Some? && c.keyFromData(data).NotAKey? && IsDeviceName(path.name)
  }

  ghost predicate IgnoredRing(policy: Option<RuntimePolicy>, path: Name) {
    policy.Some? && (path.name in policy.value.ignoredKeyrings || "*" in policy.value.ignoredKeyrings)
  }

  /** A key that goes into the ring named by its path. */
  ghost predicate KeyAllowed(policy: Option<RuntimePolicy>, digest: Digest, path: Name) {
    policy.None? || Excluded(policy, path) || Lists(policy.value.keyrings, path, digest)
  }

  ghost predicate BufferAllowed(env: Env, policy: Option<RuntimePolicy>, devices: Option<DM.Devices>,
                                digest: Digest, path: Name, data: Bytes) {
    match env.crypto.keyFromData(data)
    case UnsupportedKey => false
    case Key(_, _) => IgnoredRing(policy, path) || KeyAllowed(policy, digest, path)
    case NotAKey =>
      if IsDeviceEvent(env.crypto, policy, path, data) then
        devices.Some?
        && DM.EntryAllowed(env.crypto, env.dm, policy.value.dm.value, devices.value, digest, path.name, data)
      else policy.None? || Excluded(policy, path) || Lists(policy.value.imaBuf, path, digest)
  }

  ghost predicate ModeAllowed(env: Env, policy: Option<RuntimePolicy>, rings: Rings, devices: Option<DM.Devices>, mode: Mode) {
    match mode
    case Ima(digest, path) => FileAllowed(policy, digest, path)
    case ImaNg(digest, path) => FileAllowed(policy, digest, path)
    case ImaSig(digest, path, signature) => SignedFileAllowed(env.crypto, policy, rings, digest, path, signature)
    case ImaBuf(digest, path, data) => BufferAllowed(env, policy, devices, digest, path, data)
  }

  /** The hash of the log's own template hashes. */
  function LogAlg(policy: Option<RuntimePolicy>): HashAlg {
    match policy
    case None => Sha1
    case Some(p) => p.logHashAlg
  }

  /** A violation is shown with all ones. */
  ghost predicate Violation(alg: HashAlg, hash: Bytes) {
    Filled(alg, hash, 0xFF)
  }

  /** The data counts: the entry is no violation, and its template hash is the hash of its template. */
  ghost predicate DataCounts(env: Env, policy: Option<RuntimePolicy>, e: Entry) {
    !Violation(LogAlg(policy), e.imaTemplateHash) && e.imaTemplateHash == env.crypto.hash(LogAlg(policy), e.bytes)
  }

  /** For PCR 10, and either a violation that is let through or data that count and are allowed. */
  ghost predicate EntryAllowed(env: Env, policy: Option<RuntimePolicy>, rings: Rings, devices: Option<DM.Devices>, e: Entry) {
    && e.pcr == "10"
    && if Violation(LogAlg(policy), e.imaTemplateHash) then !env.tomtouFails
       else DataCounts(env, policy, e) && ModeAllowed(env, policy, rings, devices, e.mode)
  }

  /** Blank, or an entry that is allowed with these keys known and these devices in use. */
  ghost predicate LineAllowed(env: Env, policy: Option<RuntimePolicy>, alg: HashAlg, rings: Rings,
                              devices: Option<DM.Devices>, line: string) {
    line == ""
    || (var parsed := env.parse(line, LogAlg(policy), alg);
        parsed.Parsed? && EntryAllowed(env, policy, rings, devices, parsed.entry))
  }

  // The validators find just that

  lemma ListedExactly(policy: Option<RuntimePolicy>, digest: Digest, path: Name, lists: AcceptLists,
                      listed: map<string, set<string>>)
    requires policy.Some? ==> listed == Accepted(policy.value, lists)
    ensures ValidateNg(policy, digest, path, lists) == [] <==>
            policy.None? || Excluded(policy, path) || Lists(listed, path, digest)
  {
  }

  lemma SignedAsExactly(signature: Bytes, algorithm: string)
    ensures UsableSignature(signature, algorithm) <==>
            exists keyid: nat, body: Bytes :: SignedAs(signature, algorithm, keyid, body)
    ensures forall keyid: nat, body: Bytes :: SignedAs(signature, algorithm, keyid, body) ==>
              SignerId(signature, algorithm) == keyid && signature[9..] == body
  {
    if |signature| >= 9 {
      FourBytes(signature[3..7]);
      TwoBytes(signature[7..9]);
      var keyid: nat := Word(signature[3..7]);
      if UsableSignature(signature, algorithm) {
        assert SignedAs(signature, algorithm, keyid, signature[9..]);
      }
    }
  }

  lemma SignatureExactly(c: Crypto, rings: Rings, signature: Bytes, digest: Digest, outcome: SigCheck)
    requires outcome != Forged
    ensures DigsigVerify(c, rings, signature, digest.hash, digest.algorithm) == outcome <==>
            Checks(c, rings, Some(signature), digest, outcome)
  {
    SignedAsExactly(signature, digest.algorithm);
    if UsableSignature(signature, digest.algorithm) {
      FindKeyIsFirst(rings, SignerId(signature, digest.algorithm));
    }
  }

  lemma SignedFileExactly(c: Crypto, policy: Option<RuntimePolicy>, rings: Rings, digest: Digest, path: Name,
                          signature: Option<Bytes>)
    ensures ValidateSig(c, policy, Some(rings), digest, path, signature) == Some([]) <==>
            SignedFileAllowed(c, policy, rings, digest, path, signature)
  {
    if policy.Some? {
      ListedExactly(policy, digest, path, Digests, policy.value.digests);
    }
    if signature.Some? {
      SignatureExactly(c, rings, signature.value, digest, Genuine);
      SignatureExactly(c, rings, signature.value, digest, CheckRaises);
    }
  }

  lemma HeadExactly(env: Env, policy: Option<RuntimePolicy>, e: Entry)
    ensures HeadEvents(env, LogHashAlg(policy), e).1 <==> DataCounts(env, policy, e)
    ensures HeadEvents(env, LogHashAlg(policy), e).0 == [] <==>
            e.pcr == "10" && if Violation(LogAlg(policy), e.imaTemplateHash) then !env.tomtouFails
                             else DataCounts(env, policy, e)
  {
    FilledIs(LogAlg(policy), e.imaTemplateHash);
  }

  lemma BufferExactly(env: Env, policy: Option<RuntimePolicy>, cur: Cursor, digest: Digest, path: Name, data: Bytes)
    requires Clean(cur) && Fits(policy, cur)
    ensures Clean(ValidateBuf(env, policy, cur, digest, path, data)) <==>
            BufferAllowed(env, policy, cur.dm, digest, path, data)
  {
    if policy.Some? {
      ListedExactly(policy, digest, path, KeyringLists, policy.value.keyrings);
      ListedExactly(policy, digest, path, Buffers, policy.value.imaBuf);
    }
    if IsDeviceEvent(env.crypto, policy, path, data) {
      DM.EntryAllowedExactly(env.crypto, env.dm, policy.value.dm.value, cur.dm.value, digest, path.name, data);
    }
  }

  lemma ModeExactly(env: Env, policy: Option<RuntimePolicy>, cur: Cursor, mode: Mode)
    requires Clean(cur) && Fits(policy, cur)
    ensures Clean(ValidateMode(env, policy, cur, mode)) <==> ModeAllowed(env, policy, cur.rings, cur.dm, mode)
  {
    match mode
    case Ima(digest, path) => FileExactly(policy, digest, path);
    case ImaNg(digest, path) => FileExactly(policy, digest, path);
    case ImaSig(digest, path, signature) => SignedFileExactly(env.crypto, policy, cur.rings, digest, path, signature);
    case ImaBuf(digest, path, data) => BufferExactly(env, policy, cur, digest, path, data);
  }

  lemma FileExactly(policy: Option<RuntimePolicy>, digest: Digest, path: Name)
    ensures ValidateNg(policy, digest, path, Digests) == [] <==> FileAllowed(policy, digest, path)
  {
    if policy.Some? {
      ListedExactly(policy, digest, path, Digests, policy.value.digests);
    }
  }

  /** A line stays without failure exactly when it is allowed. */
  lemma LineAllowedExactly(env: Env, policy: Option<RuntimePolicy>, alg: HashAlg, cur: Cursor, line: string)
    requires Clean(cur) && Fits(policy, cur)
    ensures Clean(StepLine(env, policy, alg, cur, line)) <==> LineAllowed(env, policy, alg, cur.rings, cur.dm, line)
  {
    var parsed := env.parse(line, LogAlg(policy), alg);
    if line != "" && parsed.Parsed? {
      EntryExactly(env, policy, alg, cur, parsed.entry);
    }
  }

  lemma EntryExactly(env: Env, policy: Option<RuntimePolicy>, alg: HashAlg, cur: Cursor, e: Entry)
    requires Clean(cur) && Fits(policy, cur)
    ensures Clean(StepEntry(env, policy, alg, cur, e)) <==> EntryAllowed(env, policy, cur.rings, cur.dm, e)
  {
    HeadExactly(env, policy, e);
    var extended := cur.(pcr := env.crypto.hash(alg, cur.pcr + e.pcrTemplateHash),
                         events := cur.events + HeadEvents(env, LogHashAlg(policy), e).0);
    if DataCounts(env, policy, e) && e.pcr == "10" {
      ModeExactly(env, policy, extended, e.mode);
    }
  }

  /** Line `i` of a list is allowed with the keys and devices that the lines before it left. */
  ghost predicate AllowedAt(env: Env, policy: Option<RuntimePolicy>, alg: HashAlg, cur: Cursor, lines: seq<string>, i: nat)
    requires Fits(policy, cur) && i < |lines|
  {
    var c := Scan(env, policy, alg, cur, lines[..i]);
    c.Cursor? && LineAllowed(env, policy, alg, c.rings, c.dm, lines[i])
  }

  /** A list stays without failure exactly when each of its lines is allowed where it stands. */
  lemma {:induction false} ListAllowedExactly(env: Env, policy: Option<RuntimePolicy>, alg: HashAlg, cur: Cursor,
                                              lines: seq<string>)
    requires Clean(cur) && Fits(policy, cur)
    ensures Clean(Scan(env, policy, alg, cur, lines)) <==>
            forall i | 0 <= i < |lines| :: AllowedAt(env, policy, alg, cur, lines, i)
  {
    if lines != [] {
      var n: nat := |lines| - 1;
      var init := lines[..n];
      var before := Scan(env, policy, alg, cur, init);
      ListAllowedExactly(env, policy, alg, cur, init);
      forall i | 0 <= i < n
        ensures AllowedAt(env, policy, alg, cur, lines, i) <==> AllowedAt(env, policy, alg, cur, init, i)
      {
        assert init[..i] == lines[..i] && init[i] == lines[i];
      }
      StepKeepsEvents(env, policy, alg, before, lines[n]);
      if Clean(before) {
        LineAllowedExactly(env, policy, alg, before, lines[n]);
        assert AllowedAt(env, policy, alg, cur, lines, n) <==> Clean(Scan(env, policy, alg, cur, lines));
      } else {
        var i :| 0 <= i < n && !AllowedAt(env, policy, alg, cur, init, i);
        assert !AllowedAt(env, policy, alg, cur, lines, i);
      }
    }
  }

  /** In a list that stays without failure up to line `m`. */
  lemma AllowedInPrefix(env: Env, policy: Option<RuntimePolicy>, alg: HashAlg, cur: Cursor, lines: seq<string>, m: nat, j: nat)
    requires Fits(policy, cur) && j < m <= |lines| && Clean(Scan(env, policy, alg, cur, lines[..m]))
    ensures var c := Scan(env, policy, alg, cur, lines[..j]);
            Clean(c) && LineAllowed(env, policy, alg, c.rings, c.dm, lines[j])
  {
    var list := lines[..m];
    var c := Scan(env, policy, alg, cur, list[..j]);
    assert list[..j] == lines[..j] && list[j] == lines[j];
    CleanPrefix(env, policy, alg, cur, list, j);
    CleanPrefix(env, policy, alg, cur, list, j + 1);
    ScanNext(env, policy, alg, cur, list, j);
    LineAllowedExactly(env, policy, alg, c, list[j]);
  }

  // What a line does

  /** The entry brings this key for this ring. */
  ghost predicate Brings(env: Env, policy: Option<RuntimePolicy>, e: Entry, name: string, key: PubKey, keyid: Option<nat>) {
    && DataCounts(env, policy, e) && e.mode.ImaBuf? && name == e.mode.path.name
    && env.crypto.keyFromData(e.mode.data) == Key(key, keyid)
    && !IgnoredRing(policy, e.mode.path) && KeyAllowed(policy, e.mode.digest, e.mode.path)
  }

  /** A line teaches exactly the key it brings for a ring that is not ignored, if that key is allowed there. */
  lemma LessonExactly(env: Env, policy: Option<RuntimePolicy>, alg: HashAlg, line: string,
                      name: string, key: PubKey, keyid: Option<nat>)
    ensures LessonOf(env, policy, alg, line) == Some((name, key, keyid)) <==>
            line != "" && (var parsed := env.parse(line, LogAlg(policy), alg);
                           parsed.Parsed? && Brings(env, policy, parsed.entry, name, key, keyid))
  {
    var parsed := env.parse(line, LogAlg(policy), alg);
    if line != "" && parsed.Parsed? {
      HeadExactly(env, policy, parsed.entry);
      var mode := parsed.entry.mode;
      if mode.ImaBuf? && policy.Some? {
        ListedExactly(policy, mode.digest, mode.path, KeyringLists, policy.value.keyrings);
      }
    }
  }

  /** The device event a line carries, if it does. */
  ghost predicate Drives(env: Env, policy: Option<RuntimePolicy>, e: Entry) {
    DataCounts(env, policy, e) && e.mode.ImaBuf? && IsDeviceEvent(env.crypto, policy, e.mode.path, e.mode.data)
  }

  lemma EntryDevices(env: Env, policy: Option<RuntimePolicy>, alg: HashAlg, cur: Cursor, e: Entry)
    requires Clean(cur) && Fits(policy, cur) && Clean(StepEntry(env, policy, alg, cur, e))
    ensures var r := StepEntry(env, policy, alg, cur, e);
            && (!Drives(env, policy, e) ==> r.dm == cur.dm)
            && (Drives(env, policy, e) ==>
                  && r.dm.Some? && env.dm.parse(e.mode.path.name, e.mode.data).EventOf?
                  && DM.Step(env.dm, policy.value.dm.value, cur.dm.value,
                             env.dm.parse(e.mode.path.name, e.mode.data).event, e.mode.digest)
                     == DM.Outcome(r.dm.value, []))
  {
    HeadExactly(env, policy, e);
    if Drives(env, policy, e) {
      var x := DM.Recorded(e.mode.path.name, e.mode.digest, e.mode.data);
      DM.CleanEntry(env.crypto, env.dm, policy.value.dm.value, cur.dm.value, x);
    }
  }

  /** An allowed line extends the PCR, teaches its key and drives the devices by its event, and does nothing else. */
  lemma AllowedLineEffect(env: Env, policy: Option<RuntimePolicy>, alg: HashAlg, cur: Cursor, line: string)
    requires Clean(cur) && Fits(policy, cur) && line != "" && LineAllowed(env, policy, alg, cur.rings, cur.dm, line)
    ensures var e, r := env.parse(line, LogAlg(policy), alg).entry, StepLine(env, policy, alg, cur, line);
            && Clean(r)
            && r.pcr == env.crypto.hash(alg, cur.pcr + e.pcrTemplateHash)
            && r.rings == LearnLesson(env.crypto, cur.rings, LessonOf(env, policy, alg, line))
            && (!Drives(env, policy, e) ==> r.dm == cur.dm)
            && (Drives(env, policy, e) ==>
                  && r.dm.Some? && env.dm.parse(e.mode.path.name, e.mode.data).EventOf?
                  && DM.Step(env.dm, policy.value.dm.value, cur.dm.value,
                             env.dm.parse(e.mode.path.name, e.mode.data).event, e.mode.digest)
                     == DM.Outcome(r.dm.value, []))
  {
    LineAllowedExactly(env, policy, alg, cur, line);
    StepPcr(env, policy, alg, cur, line);
    StepLearns(env, policy, alg, cur, line);
    var e := env.parse(line, LogAlg(policy), alg).entry;
    HeadExactly(env, policy, e);
    EntryDevices(env, policy, alg, cur, e);
  }
}
