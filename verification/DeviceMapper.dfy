/** The device-mapper validator: a machine driven by the kernel's dm_* events in the IMA log. */
module DeviceMapper {
  import opened Bytes
  import opened Crypto
  import opened ImaAst

  datatype MatchOn = ByName | ByUuid

  datatype Device = Device(name: string, uuid: string)
  datatype Meta = Meta(device: Device, major: int, minor: int, minorCount: int, numTargets: int)
  datatype Target = Target(index: nat, attributes: Bytes)

  datatype Event =
    | Load(meta: Meta, targets: seq<Target>)
    | Resume(device: Device, tableHash: Digest)
    | Remove(active: Option<Device>)
    | Rename(device: Device, newName: string, newUuid: string)
    | Clear(cleared: Option<Device>)
    | Update(device: Device, target: Target)

  /** What the grammar makes of an entry: an event, a rejected text, or an exception of another kind. */
  datatype EventParse = EventOf(event: Event) | Rejected | ParseRaises

  datatype DmEnv = DmEnv(parse: (string, Bytes) -> EventParse, decodes: Bytes -> bool)

  /** One rule of the policy; attribute checks are predicates, target checks give the ids of the failures they add. */
  datatype Rule = Rule(
    name: string,
    matchesKey: string -> bool,
    nameOk: string -> bool, uuidOk: string -> bool, majorOk: int -> bool, minorOk: int -> bool,
    minorCountOk: int -> bool, numTargetsOk: int -> bool,
    numTargets: Option<int>,
    targetChecks: seq<Target -> seq<string>>,
    allowMultipleLoads: bool, resumeRequired: bool, allowClear: bool, allowRemoval: bool,
    validName: string -> bool, validUuid: string -> bool,
    required: bool)

  datatype Policies = Policies(matchOn: MatchOn, rules: seq<Rule>)

  datatype DeviceState = DeviceState(
    policyName: string, active: bool, validState: bool, activeTableHash: Digest, numTargets: int, allowMultipleLoads: bool)

  type Devices = map<string, DeviceState>

  /** The devices after an event and the ids of the failures it added; `Raises` is an exception that leaves the validator. */
  datatype Outcome = Outcome(devices: Devices, events: seq<string>) | Raises

  function KeyOf(m: MatchOn, d: Device): string {
    if m == ByName then d.name else d.uuid
  }

  function RuleNamed(rules: seq<Rule>, name: string): (r: Option<Rule>)
    ensures r.Some? ==> r.value in rules && r.value.name == name
  {
    if rules == [] then None else if rules[0].name == name then Some(rules[0]) else RuleNamed(rules[1..], name)
  }

  function FirstMatch(rules: seq<Rule>, key: string): (r: Option<Rule>)
    ensures r.Some? ==> r.value in rules && r.value.matchesKey(key)
    ensures r.None? ==> forall i | 0 <= i < |rules| :: !rules[i].matchesKey(key)
  {
    if rules == [] then None else if rules[0].matchesKey(key) then Some(rules[0]) else FirstMatch(rules[1..], key)
  }

  predicate MetaOk(rule: Rule, m: Meta) {
    && rule.nameOk(m.device.name) && rule.uuidOk(m.device.uuid) && rule.majorOk(m.major)
    && rule.minorOk(m.minor) && rule.minorCountOk(m.minorCount) && rule.numTargetsOk(m.numTargets)
  }

  /** Failures of the first `n` targets, each against its entry of the rule. */
  function TargetEvents(rule: Rule, targets: seq<Target>, n: nat): seq<string>
    requires n <= |targets| && n <= |rule.targetChecks|
  {
    if n == 0 then [] else TargetEvents(rule, targets, n - 1) + rule.targetChecks[n - 1](targets[n - 1])
  }

  function Min(a: nat, b: nat): nat {
    if a < b then a else b
  }

  function LoadStep(p: Policies, ds: Devices, e: Event, digest: Digest): Outcome
    requires e.Load?
  {
    var key, rule := KeyOf(p.matchOn, e.meta.device), FirstMatch(p.rules, KeyOf(p.matchOn, e.meta.device));
    if key in ds && !ds[key].allowMultipleLoads then Outcome(ds, ["multiple_table_loads"])
    else if rule.None? then Outcome(ds, ["no_matching_policy"])
    else if !MetaOk(rule.value, e.meta) then Outcome(ds, ["invalid_entry"])
    else if e.meta.numTargets != |e.targets| || rule.value.numTargets != Some(|e.targets|) then
      Outcome(ds, ["num_targets_mismatch"])
    else
      var state := DeviceState(rule.value.name, false, !rule.value.resumeRequired, digest, e.meta.numTargets,
                               rule.value.allowMultipleLoads);
      Outcome(ds[key := state], TargetEvents(rule.value, e.targets, Min(|e.targets|, |rule.value.targetChecks|)))
  }

  function ResumeStep(env: DmEnv, p: Policies, ds: Devices, e: Event): Outcome
    requires e.Resume?
  {
    var key := KeyOf(p.matchOn, e.device);
    if key !in ds then Outcome(ds, ["resume_before_table_load"])
    else if ds[key].active then Outcome(ds[key := ds[key].(validState := false)], ["already_active"])
    else if ds[key].activeTableHash != e.tableHash then
      if env.decodes(e.tableHash.hash) && env.decodes(ds[key].activeTableHash.hash) then
        Outcome(ds[key := ds[key].(validState := false)], ["active_table_mismatch"])
      else Raises
    else Outcome(ds[key := ds[key].(active := true, validState := true)], [])
  }

  function RemoveStep(p: Policies, ds: Devices, e: Event): Outcome
    requires e.Remove?
  {
    if e.active.None? then Raises
    else
      var key := KeyOf(p.matchOn, e.active.value);
      if key !in ds then Outcome(ds, ["remove_before_table_load"])
      else
        var rule := RuleNamed(p.rules, ds[key].policyName);
        if rule.None? then Raises
        else if !rule.value.allowRemoval then
          Outcome(ds[key := ds[key].(validState := false)], ["device_removed"])
        else Outcome(ds - {key}, [])
  }

  function ClearStep(p: Policies, ds: Devices, e: Event): Outcome
    requires e.Clear?
  {
    if e.cleared.None? then Raises
    else
      var key := KeyOf(p.matchOn, e.cleared.value);
      if key !in ds then Outcome(ds, ["clear_before_table_load"])
      else
        var rule := RuleNamed(p.rules, ds[key].policyName);
        if rule.None? then Raises
        else if !rule.value.allowClear then
          Outcome(ds[key := ds[key].(validState := false)], ["table_cleared"])
        else Outcome(ds, [])
  }

  function UpdateStep(p: Policies, ds: Devices, e: Event): Outcome
    requires e.Update?
  {
    var key := KeyOf(p.matchOn, e.device);
    if key !in ds then Outcome(ds, ["update_before_table_load"])
    else
      var rule := RuleNamed(p.rules, ds[key].policyName);
      if rule.None? || e.target.index >= |rule.value.targetChecks| then Raises
      else Outcome(ds, rule.value.targetChecks[e.target.index](e.target))
  }

  /** Moves the device, whichever attribute matches devices, to the new *name*. */
  function Moved(ds: Devices, key: string, newName: string): Devices
    requires key in ds
  {
    (ds - {key})[newName := ds[key]]
  }

  function RenameStep(p: Policies, ds: Devices, e: Event): Outcome
    requires e.Rename?
  {
    var key := KeyOf(p.matchOn, e.device);
    if key !in ds then Outcome(ds, ["rename_before_table_load"])
    else
      var rule := RuleNamed(p.rules, ds[key].policyName);
      if rule.None? then Raises
      else
        var badName := e.device.name != e.newName && !rule.value.validName(e.newName);
        var badUuid := e.device.uuid != e.newUuid && !rule.value.validUuid(e.newUuid);
        var state := if badName || badUuid then ds[key].(validState := false) else ds[key];
        var moves := if p.matchOn == ByName then e.device.name != e.newName && !badName
                     else e.device.uuid != e.newUuid && !badUuid;
        var marked := ds[key := state];
        Outcome(if moves then Moved(marked, key, e.newName) else marked,
                (if badName then ["new_name_invalid"] else []) + (if badUuid then ["new_uuid_invalid"] else []))
  }

  function Step(env: DmEnv, p: Policies, ds: Devices, e: Event, digest: Digest): Outcome {
    match e
    case Load(_, _) => LoadStep(p, ds, e, digest)
    case Resume(_, _) => ResumeStep(env, p, ds, e)
    case Remove(_) => RemoveStep(p, ds, e)
    case Rename(_, _, _) => RenameStep(p, ds, e)
    case Clear(_) => ClearStep(p, ds, e)
    case Update(_, _) => UpdateStep(p, ds, e)
  }

  function HashNamed(name: string): Option<HashAlg> {
    if name == "sha1" then Some(Sha1)
    else if name == "sha256" then Some(Sha256)
    else if name == "sha384" then Some(Sha384)
    else if name == "sha512" then Some(Sha512)
    else if name == "sm3_256" then Some(Sm3_256)
    else None
  }

  /** One log entry: the buffer is parsed as the event its name announces and compared with the digest of the entry. */
  function ValidateEntry(c: Crypto, env: DmEnv, p: Policies, ds: Devices, digest: Digest, name: string,
                         data: Bytes): Outcome {
    match env.parse(name, data)
    case Rejected => Outcome(ds, ["parsing_failed"])
    case ParseRaises => Raises
    case EventOf(event) =>
      var alg := HashNamed(digest.algorithm);
      if alg.None? then Raises
      else
        match Step(env, p, ds, event, digest)
        case Raises => Raises
        case Outcome(ds', events) =>
          Outcome(ds', (if digest.hash != c.hash(alg.value, data) then ["invalid_data"] else []) + events)
  }

  // Which entries leave the validator by an exception

  /** A device named by the event is in use and the rule it was loaded under is not in the policy. */
  predicate RuleIsGone(p: Policies, ds: Devices, key: string) {
    key in ds && RuleNamed(p.rules, ds[key].policyName).None?
  }

  predicate EventRaises(env: DmEnv, p: Policies, ds: Devices, e: Event) {
    match e
    case Load(_, _) => false
    case Resume(d, tableHash) =>
      var key := KeyOf(p.matchOn, d);
      && key in ds && !ds[key].active && ds[key].activeTableHash != tableHash
      && (!env.decodes(tableHash.hash) || !env.decodes(ds[key].activeTableHash.hash))
    case Remove(active) => active.None? || RuleIsGone(p, ds, KeyOf(p.matchOn, active.value))
    case Rename(d, _, _) => RuleIsGone(p, ds, KeyOf(p.matchOn, d))
    case Clear(cleared) => cleared.None? || RuleIsGone(p, ds, KeyOf(p.matchOn, cleared.value))
    case Update(d, target) =>
      var key := KeyOf(p.matchOn, d);
      RuleIsGone(p, ds, key)
      || (key in ds && target.index >= |RuleNamed(p.rules, ds[key].policyName).value.targetChecks|)
  }

  predicate DeviceEntryRaises(env: DmEnv, p: Policies, ds: Devices, digest: Digest, name: string, data: Bytes) {
    match env.parse(name, data)
    case Rejected => false
    case ParseRaises => true
    case EventOf(event) => HashNamed(digest.algorithm).None? || EventRaises(env, p, ds, event)
  }

  /** An unknown digest algorithm, metadata that is missing, a rule that is gone, a target without a check, or a digest
      that cannot be shown: nothing else makes an entry raise. */
  lemma ValidateRaisesExactly(c: Crypto, env: DmEnv, p: Policies, ds: Devices, digest: Digest, name: string, data: Bytes)
    ensures ValidateEntry(c, env, p, ds, digest, name, data).Raises? <==> DeviceEntryRaises(env, p, ds, digest, name, data)
  {
  }

  // What an event that adds no failure is

  /** Rule `i` is the first whose key pattern matches. */
  ghost predicate FirstToMatch(p: Policies, key: string, i: nat) {
    && i < |p.rules| && p.rules[i].matchesKey(key)
    && forall j | 0 <= j < i :: !p.rules[j].matchesKey(key)
  }

  /** Rule `i` is the first of that name. */
  ghost predicate FirstNamed(p: Policies, name: string, i: nat) {
    && i < |p.rules| && p.rules[i].name == name
    && forall j | 0 <= j < i :: p.rules[j].name != name
  }

  /** Every attribute, the number of targets, and each target that the rule has a check for. */
  ghost predicate TableFits(rule: Rule, m: Meta, targets: seq<Target>) {
    && rule.nameOk(m.device.name) && rule.uuidOk(m.device.uuid)
    && rule.majorOk(m.major) && rule.minorOk(m.minor) && rule.minorCountOk(m.minorCount)
    && rule.numTargetsOk(m.numTargets) && m.numTargets == |targets| && rule.numTargets == Some(|targets|)
    && forall j | 0 <= j < |targets| && j < |rule.targetChecks| :: rule.targetChecks[j](targets[j]) == []
  }

  /** The device is in use, and rule `i` is the one it was loaded under. */
  ghost predicate RuledBy(p: Policies, ds: Devices, d: Device, i: nat) {
    var key := KeyOf(p.matchOn, d);
    key in ds && FirstNamed(p, ds[key].policyName, i)
  }

  ghost predicate EventAllowed(p: Policies, ds: Devices, e: Event) {
    match e
    case Load(m, targets) =>
      var key := KeyOf(p.matchOn, m.device);
      && (key in ds ==> ds[key].allowMultipleLoads)
      && exists i: nat :: FirstToMatch(p, key, i) && TableFits(p.rules[i], m, targets)
    case Resume(d, tableHash) =>
      var key := KeyOf(p.matchOn, d);
      key in ds && !ds[key].active && ds[key].activeTableHash == tableHash
    case Remove(active) => active.Some? && exists i: nat :: RuledBy(p, ds, active.value, i) && p.rules[i].allowRemoval
    case Clear(cleared) => cleared.Some? && exists i: nat :: RuledBy(p, ds, cleared.value, i) && p.rules[i].allowClear
    case Update(d, target) =>
      exists i: nat :: RuledBy(p, ds, d, i) && target.index < |p.rules[i].targetChecks|
                       && p.rules[i].targetChecks[target.index](target) == []
    case Rename(d, newName, newUuid) =>
      exists i: nat :: RuledBy(p, ds, d, i) && (d.name != newName ==> p.rules[i].validName(newName))
                       && (d.uuid != newUuid ==> p.rules[i].validUuid(newUuid))
  }

  lemma {:induction false} RuleNamedIsFirst(p: Policies, rules: seq<Rule>, name: string, n: nat)
    requires n <= |p.rules| && rules == p.rules[n..] && forall j | 0 <= j < n :: p.rules[j].name != name
    ensures RuleNamed(rules, name).Some? ==>
              exists i: nat :: FirstNamed(p, name, i) && p.rules[i] == RuleNamed(rules, name).value
    ensures RuleNamed(rules, name).None? ==> forall i: nat :: !FirstNamed(p, name, i)
    decreases |rules|
  {
    if rules != [] {
      assert rules[0] == p.rules[n];
      if rules[0].name == name {
        assert FirstNamed(p, name, n);
      } else {
        assert rules[1..] == p.rules[n + 1..];
        RuleNamedIsFirst(p, rules[1..], name, n + 1);
      }
    }
  }

  lemma {:induction false} FirstMatchIsFirst(p: Policies, rules: seq<Rule>, key: string, n: nat)
    requires n <= |p.rules| && rules == p.rules[n..] && forall j | 0 <= j < n :: !p.rules[j].matchesKey(key)
    ensures FirstMatch(rules, key).Some? ==>
              exists i: nat :: FirstToMatch(p, key, i) && p.rules[i] == FirstMatch(rules, key).value
    ensures FirstMatch(rules, key).None? ==> forall i: nat :: !FirstToMatch(p, key, i)
    decreases |rules|
  {
    if rules != [] {
      assert rules[0] == p.rules[n];
      if rules[0].matchesKey(key) {
        assert FirstToMatch(p, key, n);
      } else {
        assert rules[1..] == p.rules[n + 1..];
        FirstMatchIsFirst(p, rules[1..], key, n + 1);
      }
    }
  }

  /** The rule found by its name is the one the device is ruled by. */
  lemma RuledByExactly(p: Policies, ds: Devices, d: Device, i: nat)
    requires KeyOf(p.matchOn, d) in ds
    ensures var rule := RuleNamed(p.rules, ds[KeyOf(p.matchOn, d)].policyName);
            && (RuledBy(p, ds, d, i) ==> rule == Some(p.rules[i]))
            && (rule.Some? ==> exists j: nat :: RuledBy(p, ds, d, j))
  {
    var name := ds[KeyOf(p.matchOn, d)].policyName;
    assert p.rules[0..] == p.rules;
    RuleNamedIsFirst(p, p.rules, name, 0);
    if RuleNamed(p.rules, name).Some? {
      var j: nat :| FirstNamed(p, name, j) && p.rules[j] == RuleNamed(p.rules, name).value;
      assert RuledBy(p, ds, d, j);
      assert FirstNamed(p, name, i) ==> i == j;
    }
  }

  lemma RuledByOne(p: Policies, ds: Devices, d: Device)
    requires KeyOf(p.matchOn, d) in ds
    ensures forall i: nat :: RuledBy(p, ds, d, i) ==> RuleNamed(p.rules, ds[KeyOf(p.matchOn, d)].policyName) == Some(p.rules[i])
    ensures RuleNamed(p.rules, ds[KeyOf(p.matchOn, d)].policyName).Some? ==> exists j: nat :: RuledBy(p, ds, d, j)
  {
    forall i: nat
      ensures RuledBy(p, ds, d, i) ==> RuleNamed(p.rules, ds[KeyOf(p.matchOn, d)].policyName) == Some(p.rules[i])
    {
      RuledByExactly(p, ds, d, i);
    }
    RuledByExactly(p, ds, d, 0);
  }

  lemma {:induction false} NoTargetEvents(rule: Rule, targets: seq<Target>, n: nat)
    requires n <= |targets| && n <= |rule.targetChecks|
    ensures TargetEvents(rule, targets, n) == [] <==> forall j | 0 <= j < n :: rule.targetChecks[j](targets[j]) == []
  {
    if n > 0 {
      NoTargetEvents(rule, targets, n - 1);
    }
  }

  lemma LoadAllowedExactly(p: Policies, ds: Devices, m: Meta, targets: seq<Target>, digest: Digest)
    ensures LoadStep(p, ds, Load(m, targets), digest).events == [] <==> EventAllowed(p, ds, Load(m, targets))
  {
    var key := KeyOf(p.matchOn, m.device);
    var rule := FirstMatch(p.rules, key);
    assert p.rules[0..] == p.rules;
    FirstMatchIsFirst(p, p.rules, key, 0);
    if rule.Some? {
      NoTargetEvents(rule.value, targets, Min(|targets|, |rule.value.targetChecks|));
      var j: nat :| FirstToMatch(p, key, j) && p.rules[j] == rule.value;
      if i: nat :| FirstToMatch(p, key, i) && TableFits(p.rules[i], m, targets) {
        assert i == j;
      }
    }
  }

  /** An event adds no failure exactly when the devices in use and the rules allow it. */
  lemma StepAllowedExactly(env: DmEnv, p: Policies, ds: Devices, e: Event, digest: Digest)
    ensures var o := Step(env, p, ds, e, digest);
            o.Outcome? && o.events == [] <==> EventAllowed(p, ds, e)
  {
    match e
    case Load(m, targets) => LoadAllowedExactly(p, ds, m, targets, digest);
    case Resume(d, tableHash) =>
    case Remove(active) => if active.Some? && KeyOf(p.matchOn, active.value) in ds { RuledByOne(p, ds, active.value); }
    case Clear(cleared) => if cleared.Some? && KeyOf(p.matchOn, cleared.value) in ds { RuledByOne(p, ds, cleared.value); }
    case Update(d, target) => if KeyOf(p.matchOn, d) in ds { RuledByOne(p, ds, d); }
    case Rename(d, newName, newUuid) => if KeyOf(p.matchOn, d) in ds { RuledByOne(p, ds, d); }
  }

  /** The entry's text is an event, its digest is the hash of that text, and the event is allowed. */
  ghost predicate EntryAllowed(c: Crypto, env: DmEnv, p: Policies, ds: Devices, digest: Digest, name: string, data: Bytes) {
    && env.parse(name, data).EventOf? && HashNamed(digest.algorithm).Some?
    && c.hash(HashNamed(digest.algorithm).value, data) == digest.hash
    && EventAllowed(p, ds, env.parse(name, data).event)
  }

  lemma EntryAllowedExactly(c: Crypto, env: DmEnv, p: Policies, ds: Devices, digest: Digest, name: string, data: Bytes)
    ensures var o := ValidateEntry(c, env, p, ds, digest, name, data);
            o.Outcome? && o.events == [] <==> EntryAllowed(c, env, p, ds, digest, name, data)
  {
    if env.parse(name, data).EventOf? {
      StepAllowedExactly(env, p, ds, env.parse(name, data).event, digest);
    }
  }

  class DmIMAValidator {
    const policies: Policies
    const env: DmEnv
    var devices: Devices

    constructor (env: DmEnv, policies: Policies)
      ensures this.policies == policies && this.env == env && devices == map[]
    {
      this.policies, this.env, devices := policies, env, map[];
    }

    ghost predicate Is(o: Outcome, events: seq<string>, raised: bool)
      reads this
    {
      if raised then o == Raises else o == Outcome(devices, events)
    }

    method ValidateTableLoad(e: Event, digest: Digest) returns (events: seq<string>, raised: bool)
      requires e.Load?
      modifies this
      ensures Is(LoadStep(policies, old(devices), e, digest), events, raised)
    {
      events, raised := [], false;
      var key := KeyOf(policies.matchOn, e.meta.device);
      if key in devices && !devices[key].allowMultipleLoads {
        return ["multiple_table_loads"], false;
      }
      var used := FirstMatch(policies.rules, key);
      if used.None? {
        return ["no_matching_policy"], false;
      }
      if !MetaOk(used.value, e.meta) {
        return ["invalid_entry"], false;
      }
      if e.meta.numTargets != |e.targets| || used.value.numTargets != Some(|e.targets|) {
        return ["num_targets_mismatch"], false;
      }
      var n := Min(|e.targets|, |used.value.targetChecks|);
      for i := 0 to n
        invariant events == TargetEvents(used.value, e.targets, i)
      {
        events := events + used.value.targetChecks[i](e.targets[i]);
      }
      devices := devices[key := DeviceState(used.value.name, false, !used.value.resumeRequired, digest,
                                            e.meta.numTargets, used.value.allowMultipleLoads)];
    }

    method ValidateDeviceResume(e: Event) returns (events: seq<string>, raised: bool)
      requires e.Resume?
      modifies this
      ensures Is(ResumeStep(env, policies, old(devices), e), events, raised)
    {
      var key := KeyOf(policies.matchOn, e.device);
      if key !in devices {
        return ["resume_before_table_load"], false;
      }
      var state := devices[key];
      if state.active {
        devices := devices[key := state.(validState := false)];
        return ["already_active"], false;
      }
      if state.activeTableHash != e.tableHash {
        if !env.decodes(e.tableHash.hash) || !env.decodes(state.activeTableHash.hash) {
          return [], true;
        }
        devices := devices[key := state.(validState := false)];
        return ["active_table_mismatch"], false;
      }
      devices := devices[key := state.(active := true, validState := true)];
      return [], false;
    }

    method ValidateDeviceRemove(e: Event) returns (events: seq<string>, raised: bool)
      requires e.Remove?
      modifies this
      ensures Is(RemoveStep(policies, old(devices), e), events, raised)
    {
      if e.active.None? {
        return [], true;
      }
      var key := KeyOf(policies.matchOn, e.active.value);
      if key !in devices {
        return ["remove_before_table_load"], false;
      }
      var rule := RuleNamed(policies.rules, devices[key].policyName);
      if rule.None? {
        return [], true;
      }
      if !rule.value.allowRemoval {
        devices := devices[key := devices[key].(validState := false)];
        return ["device_removed"], false;
      }
      devices := devices - {key};
      return [], false;
    }

    method ValidateTableClear(e: Event) returns (events: seq<string>, raised: bool)
      requires e.Clear?
      modifies this
      ensures Is(ClearStep(policies, old(devices), e), events, raised)
    {
      if e.cleared.None? {
        return [], true;
      }
      var key := KeyOf(policies.matchOn, e.cleared.value);
      if key !in devices {
        return ["clear_before_table_load"], false;
      }
      var rule := RuleNamed(policies.rules, devices[key].policyName);
      if rule.None? {
        return [], true;
      }
      if !rule.value.allowClear {
        devices := devices[key := devices[key].(validState := false)];
        return ["table_cleared"], false;
      }
      return [], false;
    }

    method ValidateTargetUpdate(e: Event) returns (events: seq<string>, raised: bool)
      requires e.Update?
      modifies this
      ensures Is(UpdateStep(policies, old(devices), e), events, raised)
    {
      var key := KeyOf(policies.matchOn, e.device);
      if key !in devices {
        return ["update_before_table_load"], false;
      }
      var rule := RuleNamed(policies.rules, devices[key].policyName);
      if rule.None? || e.target.index >= |rule.value.targetChecks| {
        return [], true;
      }
      return rule.value.targetChecks[e.target.index](e.target), false;
    }

    method ValidateDeviceRename(e: Event) returns (events: seq<string>, raised: bool)
      requires e.Rename?
      modifies this
      ensures Is(RenameStep(policies, old(devices), e), events, raised)
    {
      events, raised := [], false;
      var key := KeyOf(policies.matchOn, e.device);
      if key !in devices {
        return ["rename_before_table_load"], false;
      }
      var rule := RuleNamed(policies.rules, devices[key].policyName);
      if rule.None? {
        return [], true;
      }
      var at := key;  // where the device is filed now
      if e.device.name != e.newName {
        if !rule.value.validName(e.newName) {
          events := events + ["new_name_invalid"];
          devices := devices[at := devices[at].(validState := false)];
        } else if policies.matchOn == ByName {
          devices, at := Moved(devices, at, e.newName), e.newName;
        }
      }
      if e.device.uuid != e.newUuid {
        if !rule.value.validUuid(e.newUuid) {
          events := events + ["new_uuid_invalid"];
          devices := devices[at := devices[at].(validState := false)];
        } else if policies.matchOn == ByUuid {
          devices, at := Moved(devices, at, e.newName), e.newName;
        }
      }
    }

    method Validate(c: Crypto, digest: Digest, name: string, data: Bytes) returns (events: seq<string>, raised: bool)
      modifies this
      ensures Is(ValidateEntry(c, env, policies, old(devices), digest, name, data), events, raised)
    {
      var parsed := env.parse(name, data);
      if parsed.Rejected? {
        return ["parsing_failed"], false;
      }
      if parsed.ParseRaises? {
        return [], true;
      }
      var alg := HashNamed(digest.algorithm);
      if alg.None? {
        return [], true;
      }
      match parsed.event {
        case Load(_, _) => events, raised := ValidateTableLoad(parsed.event, digest);
        case Resume(_, _) => events, raised := ValidateDeviceResume(parsed.event);
        case Remove(_) => events, raised := ValidateDeviceRemove(parsed.event);
        case Rename(_, _, _) => events, raised := ValidateDeviceRename(parsed.event);
        case Clear(_) => events, raised := ValidateTableClear(parsed.event);
        case Update(_, _) => events, raised := ValidateTargetUpdate(parsed.event);
      }
      if digest.hash != c.hash(alg.value, data) {
        events := ["invalid_data"] + events;
      }
    }

    /** No failure exactly when every device is valid and every required rule is used by a valid device. */
    method Invalid() returns (events: seq<string>)
      ensures events == [] <==>
              (forall k | k in devices :: devices[k].validState)
              && forall i | 0 <= i < |policies.rules| && policies.rules[i].required ::
                   exists k | k in devices :: devices[k].validState && devices[k].policyName == policies.rules[i].name
    {
      events := [];
      var used: set<string> := {};
      var todo := devices.Keys;
      while todo != {}
        invariant todo <= devices.Keys
        invariant events == [] <==> forall k | k in devices.Keys - todo :: devices[k].validState
        invariant forall n :: n in used <==>
                  exists k | k in devices.Keys - todo :: devices[k].validState && devices[k].policyName == n
        decreases todo
      {
        var name :| name in todo;
        assert devices.Keys - (todo - {name}) == (devices.Keys - todo) + {name};
        if !devices[name].validState {
          events := events + ["device_invalid_state"];
        } else {
          used := used + {devices[name].policyName};
        }
        todo := todo - {name};
      }
      assert devices.Keys - todo == devices.Keys;
      for i := 0 to |policies.rules|
        invariant events == [] <==>
                  (forall k | k in devices :: devices[k].validState)
                  && forall j | 0 <= j < i && policies.rules[j].required :: policies.rules[j].name in used
      {
        if policies.rules[i].required && policies.rules[i].name !in used {
          events := events + ["required_policy_not_in_use"];
        }
      }
    }
  }

  // Traces, with devices matched by name

  datatype Logged = Logged(event: Event, digest: Digest)

  /** The devices after a run in which no event failed; renames go to names not in use. */
  ghost function CleanRun(env: DmEnv, p: Policies, log: seq<Logged>): Option<Devices> {
    if log == [] then Some(map[])
    else
      var before, last := CleanRun(env, p, log[..|log| - 1]), log[|log| - 1];
      if before.None? then None
      else if Renames(last.event) && last.event.newName in before.value then None
      else
        match Step(env, p, before.value, last.event, last.digest)
        case Raises => None
        case Outcome(ds, events) => if events == [] then Some(ds) else None
  }

  predicate Renames(e: Event) {
    e.Rename? && e.device.name != e.newName
  }

  /** The name, before `e`, of the device called `key` after it. */
  function NameBefore(e: Event, key: string): string {
    if Renames(e) && e.newName == key then e.device.name else key
  }

  /** The name, after the first `i` events, of the device called `key` at the end of the log. */
  function NameAt(log: seq<Logged>, key: string, i: nat): string
    requires i <= |log|
    decreases |log| - i
  {
    if i == |log| then key else NameBefore(log[i].event, NameAt(log, key, i + 1))
  }

  /** Event `i` loads the table of the device called `key` at the end. */
  ghost predicate Loads(log: seq<Logged>, key: string, i: nat) {
    i < |log| && log[i].event.Load? && log[i].event.meta.device.name == NameAt(log, key, i + 1)
  }

  /** Event `i` resumes that device. */
  ghost predicate Resumes(log: seq<Logged>, key: string, i: nat) {
    i < |log| && log[i].event.Resume? && log[i].event.device.name == NameAt(log, key, i + 1)
  }

  /** Event `j` resumes that device, after event `i`, with the hash of the table loaded there. */
  ghost predicate ResumedFrom(log: seq<Logged>, key: string, i: nat, j: nat) {
    i < j && Resumes(log, key, j) && log[j].event.tableHash == log[i].digest
  }

  /** Event `i` removes that device or takes its name away. */
  ghost predicate Ends(log: seq<Logged>, key: string, i: nat) {
    && i < |log|
    && var name, e := NameAt(log, key, i + 1), log[i].event;
       (e.Remove? && e.active.Some? && e.active.value.name == name) || (Renames(e) && e.device.name == name)
  }

  ghost predicate LatestLoad(log: seq<Logged>, key: string, i: nat) {
    && Loads(log, key, i)
    && (forall j: nat | i < j < |log| :: !Loads(log, key, j))
    && (forall j: nat | i < j < |log| :: !Ends(log, key, j))
  }

  /** What the log says about one device. */
  ghost predicate Told(p: Policies, log: seq<Logged>, key: string, s: DeviceState, i: nat) {
    && LatestLoad(log, key, i)
    && s.activeTableHash == log[i].digest
    && (s.active <==> exists j: nat :: ResumedFrom(log, key, i, j))
    && s.numTargets == log[i].event.meta.numTargets
    && var rule := FirstMatch(p.rules, log[i].event.meta.device.name);
       && rule.Some? && s.policyName == rule.value.name && s.allowMultipleLoads == rule.value.allowMultipleLoads
       && (s.validState <==> s.active || !rule.value.resumeRequired)
  }

  lemma {:induction false} NameAtSnoc(log: seq<Logged>, x: Logged, key: string, i: nat)
    requires i <= |log|
    ensures NameAt(log + [x], key, i) == NameAt(log, NameBefore(x.event, key), i)
    decreases |log| - i
  {
    if i < |log| {
      NameAtSnoc(log, x, key, i + 1);
      assert (log + [x])[i] == log[i];
    }
  }

  /** Facts about earlier events move from the shorter log to the longer one under the device's earlier name. */
  lemma EarlierEvents(log: seq<Logged>, x: Logged, key: string, i: nat)
    requires i < |log|
    ensures var prior := NameBefore(x.event, key);
            && (Loads(log + [x], key, i) <==> Loads(log, prior, i))
            && (Ends(log + [x], key, i) <==> Ends(log, prior, i))
            && (Resumes(log + [x], key, i) <==> Resumes(log, prior, i))
  {
    NameAtSnoc(log, x, key, i + 1);
    assert (log + [x])[i] == log[i];
  }

  /** An event that neither loads, resumes nor ends the device leaves what the log says about it. */
  lemma ToldStays(p: Policies, log: seq<Logged>, x: Logged, key: string, s: DeviceState, i: nat)
    requires Told(p, log, NameBefore(x.event, key), s, i)
    requires !Loads(log + [x], key, |log|) && !Ends(log + [x], key, |log|)
    requires !Resumes(log + [x], key, |log|)
    ensures Told(p, log + [x], key, s, i)
  {
    var prior, log' := NameBefore(x.event, key), log + [x];
    forall j: nat | j < |log|
      ensures Loads(log', key, j) <==> Loads(log, prior, j)
      ensures Ends(log', key, j) <==> Ends(log, prior, j)
      ensures ResumedFrom(log', key, i, j) <==> ResumedFrom(log, prior, i, j)
    {
      EarlierEvents(log, x, key, j);
    }
    assert log'[i] == log[i];
    assert !ResumedFrom(log', key, i, |log|);
    if s.active {
      var j: nat :| ResumedFrom(log, prior, i, j);
      assert ResumedFrom(log', key, i, j);
    }
  }

  /** A load starts a new story. */
  lemma ToldByLoad(p: Policies, log: seq<Logged>, x: Logged, s: DeviceState)
    requires x.event.Load?
    requires var rule := FirstMatch(p.rules, x.event.meta.device.name);
             && rule.Some? && s.policyName == rule.value.name && s.validState == !rule.value.resumeRequired
             && s.allowMultipleLoads == rule.value.allowMultipleLoads
    requires !s.active && s.activeTableHash == x.digest && s.numTargets == x.event.meta.numTargets
    ensures Told(p, log + [x], x.event.meta.device.name, s, |log|)
  {
    assert (log + [x])[|log|] == x;
  }

  /** A resume with the hash of the latest load activates the device. */
  lemma ToldByResume(p: Policies, log: seq<Logged>, x: Logged, s: DeviceState, i: nat)
    requires x.event.Resume? && Told(p, log, x.event.device.name, s, i) && s.activeTableHash == x.event.tableHash
    ensures Told(p, log + [x], x.event.device.name, s.(active := true, validState := true), i)
  {
    var key, log' := x.event.device.name, log + [x];
    forall j: nat | j < |log|
      ensures Loads(log', key, j) <==> Loads(log, key, j)
      ensures Ends(log', key, j) <==> Ends(log, key, j)
    {
      EarlierEvents(log, x, key, j);
    }
    assert log'[i] == log[i] && log'[|log|] == x;
    assert ResumedFrom(log', key, i, |log|);
  }

  /** One clean step, seen from a device that is there after it. */
  lemma CleanStep(env: DmEnv, p: Policies, ds: Devices, x: Logged, key: string)
    requires p.matchOn == ByName && !(Renames(x.event) && x.event.newName in ds)
    requires var o := Step(env, p, ds, x.event, x.digest);
             o.Outcome? && o.events == [] && key in o.devices
    ensures var s, prior, e := Step(env, p, ds, x.event, x.digest).devices[key], NameBefore(x.event, key), x.event;
            if e.Load? && e.meta.device.name == key then
              && !s.active && s.activeTableHash == x.digest && s.numTargets == e.meta.numTargets
              && var rule := FirstMatch(p.rules, key);
                 && rule.Some? && s.policyName == rule.value.name && s.validState == !rule.value.resumeRequired
                 && s.allowMultipleLoads == rule.value.allowMultipleLoads
            else
              && prior in ds
              && !(e.Remove? && e.active.Some? && e.active.value.name == key)
              && !(Renames(e) && e.device.name == key)
              && if e.Resume? && e.device.name == key then
                   ds[prior].activeTableHash == e.tableHash && s == ds[prior].(active := true, validState := true)
                 else s == ds[prior]
  {
  }

  /** After a clean run every device is exactly what the events, followed through renames, say about it. */
  lemma {:induction false} EventTrace(env: DmEnv, p: Policies, log: seq<Logged>, key: string)
    requires p.matchOn == ByName
    requires CleanRun(env, p, log).Some? && key in CleanRun(env, p, log).value
    ensures exists i: nat :: Told(p, log, key, CleanRun(env, p, log).value[key], i)
  {
    var init, x := log[..|log| - 1], log[|log| - 1];
    assert log == init + [x];
    var before, s := CleanRun(env, p, init).value, CleanRun(env, p, log).value[key];
    var prior, e := NameBefore(x.event, key), x.event;
    CleanStep(env, p, before, x, key);
    if e.Load? && e.meta.device.name == key {
      ToldByLoad(p, init, x, s);
      assert Told(p, log, key, s, |init|);
    } else {
      EventTrace(env, p, init, prior);
      var i: nat :| Told(p, init, prior, before[prior], i);
      if e.Resume? && e.device.name == key {
        ToldByResume(p, init, x, before[prior], i);
      } else {
        ToldStays(p, init, x, key, s, i);
      }
      assert Told(p, log, key, s, i);
    }
  }

  /** A device that a clean step neither removes nor renames away is still there. */
  lemma CleanStepKeeps(env: DmEnv, p: Policies, ds: Devices, x: Logged, key: string)
    requires p.matchOn == ByName && NameBefore(x.event, key) in ds
    requires !(x.event.Remove? && x.event.active.Some? && x.event.active.value.name == key)
    requires !(Renames(x.event) && x.event.device.name == key)
    requires Step(env, p, ds, x.event, x.digest).Outcome? && Step(env, p, ds, x.event, x.digest).events == []
    ensures key in Step(env, p, ds, x.event, x.digest).devices
  {
  }

  lemma CleanStepLoads(env: DmEnv, p: Policies, ds: Devices, x: Logged)
    requires p.matchOn == ByName && x.event.Load?
    requires Step(env, p, ds, x.event, x.digest).Outcome? && Step(env, p, ds, x.event, x.digest).events == []
    ensures x.event.meta.device.name in Step(env, p, ds, x.event, x.digest).devices
  {
  }

  /** A name is in use after a clean run exactly when the events load it and nothing ends that. */
  lemma {:induction false} NamesInUse(env: DmEnv, p: Policies, log: seq<Logged>, key: string)
    requires p.matchOn == ByName && CleanRun(env, p, log).Some?
    ensures key in CleanRun(env, p, log).value <==> exists i: nat :: LatestLoad(log, key, i)
  {
    if key in CleanRun(env, p, log).value {
      EventTrace(env, p, log, key);
    }
    if exists i: nat :: LatestLoad(log, key, i) {
      var i: nat :| LatestLoad(log, key, i);
      var init, x := log[..|log| - 1], log[|log| - 1];
      assert log == init + [x];
      var before := CleanRun(env, p, init).value;
      if i == |init| {
        CleanStepLoads(env, p, before, x);
      } else {
        LatestLoadBefore(init, x, key, i);
        NamesInUse(env, p, init, NameBefore(x.event, key));
        assert !Ends(log, key, |init|);
        CleanStepKeeps(env, p, before, x, key);
      }
    }
  }

  lemma LatestLoadBefore(log: seq<Logged>, x: Logged, key: string, i: nat)
    requires LatestLoad(log + [x], key, i) && i < |log|
    ensures LatestLoad(log, NameBefore(x.event, key), i)
  {
    forall j: nat | j < |log|
      ensures Loads(log + [x], key, j) <==> Loads(log, NameBefore(x.event, key), j)
      ensures Ends(log + [x], key, j) <==> Ends(log, NameBefore(x.event, key), j)
    {
      EarlierEvents(log, x, key, j);
    }
  }

  // Traces of entries

  /** An entry of the log: the event's name, the digest, and the text that was hashed. */
  datatype Recorded = Recorded(name: string, digest: Digest, data: Bytes)

  /** The devices after entries that the validator finds nothing wrong with; renames go to names not in use. */
  ghost function CleanEntries(c: Crypto, env: DmEnv, p: Policies, log: seq<Recorded>): Option<Devices> {
    if log == [] then Some(map[])
    else
      var before, last := CleanEntries(c, env, p, log[..|log| - 1]), log[|log| - 1];
      if before.None? then None
      else if TakesName(env, before.value, last) then None
      else
        match ValidateEntry(c, env, p, before.value, last.digest, last.name, last.data)
        case Raises => None
        case Outcome(ds, events) => if events == [] then Some(ds) else None
  }

  /** The entry renames a device to a name in use. */
  predicate TakesName(env: DmEnv, ds: Devices, x: Recorded) {
    var parsed := env.parse(x.name, x.data);
    parsed.EventOf? && Renames(parsed.event) && parsed.event.newName in ds
  }

  /** The text is an event and hashes to the digest. */
  ghost predicate Bound(c: Crypto, env: DmEnv, x: Recorded) {
    && env.parse(x.name, x.data).EventOf? && HashNamed(x.digest.algorithm).Some?
    && c.hash(HashNamed(x.digest.algorithm).value, x.data) == x.digest.hash
  }

  ghost predicate AllEvents(env: DmEnv, log: seq<Recorded>) {
    forall i | 0 <= i < |log| :: env.parse(log[i].name, log[i].data).EventOf?
  }

  ghost function EventsOf(env: DmEnv, log: seq<Recorded>): (r: seq<Logged>)
    requires AllEvents(env, log)
    ensures |r| == |log|
  {
    seq(|log|, i requires 0 <= i < |log| => Logged(env.parse(log[i].name, log[i].data).event, log[i].digest))
  }

  /** A clean entry is bound to its digest, and does what its event does. */
  lemma CleanEntry(c: Crypto, env: DmEnv, p: Policies, ds: Devices, x: Recorded)
    requires var o := ValidateEntry(c, env, p, ds, x.digest, x.name, x.data); o.Outcome? && o.events == []
    ensures Bound(c, env, x)
    ensures Step(env, p, ds, env.parse(x.name, x.data).event, x.digest)
            == ValidateEntry(c, env, p, ds, x.digest, x.name, x.data)
  {
    var o := ValidateEntry(c, env, p, ds, x.digest, x.name, x.data);
    var event := env.parse(x.name, x.data).event;
    match Step(env, p, ds, event, x.digest)
    case Outcome(ds', events) =>
      assert o.events == (if x.digest.hash != c.hash(HashNamed(x.digest.algorithm).value, x.data)
                          then ["invalid_data"] else []) + events;
  }

  lemma {:induction false} CleanEntriesBound(c: Crypto, env: DmEnv, p: Policies, log: seq<Recorded>)
    requires CleanEntries(c, env, p, log).Some?
    ensures forall i | 0 <= i < |log| :: Bound(c, env, log[i])
  {
    if log != [] {
      var init, x := log[..|log| - 1], log[|log| - 1];
      CleanEntriesBound(c, env, p, init);
      CleanEntry(c, env, p, CleanEntries(c, env, p, init).value, x);
      assert forall i | 0 <= i < |init| :: log[i] == init[i];
    }
  }

  /** Every entry of a clean run is bound to its digest, and the run is that of the events. */
  lemma {:induction false} EntriesAreEvents(c: Crypto, env: DmEnv, p: Policies, log: seq<Recorded>)
    requires CleanEntries(c, env, p, log).Some?
    ensures forall i | 0 <= i < |log| :: Bound(c, env, log[i])
    ensures AllEvents(env, log)
            && CleanRun(env, p, EventsOf(env, log)) == CleanEntries(c, env, p, log)
  {
    CleanEntriesBound(c, env, p, log);
    if log != [] {
      var init, x := log[..|log| - 1], log[|log| - 1];
      EntriesAreEvents(c, env, p, init);
      var es := EventsOf(env, log);
      assert es[..|es| - 1] == EventsOf(env, init);
      CleanEntry(c, env, p, CleanEntries(c, env, p, init).value, x);
    }
  }

  /**
   * After entries without failure every one of them has the digest of its own text, and every device is exactly what
   * they, followed through renames, say about it.
   */
  lemma DeviceTrace(c: Crypto, env: DmEnv, p: Policies, log: seq<Recorded>, key: string)
    requires p.matchOn == ByName
    requires CleanEntries(c, env, p, log).Some? && key in CleanEntries(c, env, p, log).value
    ensures forall i | 0 <= i < |log| :: Bound(c, env, log[i])
    ensures AllEvents(env, log)
            && (exists i: nat :: Told(p, EventsOf(env, log), key, CleanEntries(c, env, p, log).value[key], i))
  {
    EntriesAreEvents(c, env, p, log);
    EventTrace(env, p, EventsOf(env, log), key);
  }

  /** A name is in use after such entries exactly when they load it and nothing ends that. */
  lemma DevicesInUse(c: Crypto, env: DmEnv, p: Policies, log: seq<Recorded>, key: string)
    requires p.matchOn == ByName && CleanEntries(c, env, p, log).Some?
    ensures forall i | 0 <= i < |log| :: Bound(c, env, log[i])
    ensures AllEvents(env, log)
            && (key in CleanEntries(c, env, p, log).value <==> exists i: nat :: LatestLoad(EventsOf(env, log), key, i))
  {
    EntriesAreEvents(c, env, p, log);
    NamesInUse(env, p, EventsOf(env, log), key);
  }

  /** A refused resume, removal or clearing of a device in use marks it invalid and touches nothing else. */
  lemma RefusalMarks(env: DmEnv, p: Policies, ds: Devices, e: Event, digest: Digest, key: string)
    requires e.Resume? || (e.Remove? && e.active.Some?) || (e.Clear? && e.cleared.Some?)
    requires key == KeyOf(p.matchOn, if e.Resume? then e.device else if e.Remove? then e.active.value else e.cleared.value)
    requires Step(env, p, ds, e, digest).Outcome? && Step(env, p, ds, e, digest).events != [] && key in ds
    ensures var ds' := Step(env, p, ds, e, digest).devices;
            && ds'.Keys == ds.Keys && !ds'[key].validState && ds'[key].(validState := ds[key].validState) == ds[key]
            && forall k | k in ds && k != key :: ds'[k] == ds[k]
  {
  }

  /**
   * A renamed device is filed under its new name. Whether it, or a device in its place, is found under its new key is
   * decided by the names: always when names match devices, and otherwise when the uuid stays, is the new name, or is taken.
   */
  lemma RenamedIsFound(p: Policies, ds: Devices, d: Device, newName: string, newUuid: string)
    requires var o := RenameStep(p, ds, Rename(d, newName, newUuid)); o.Outcome? && o.events == []
    ensures var o, key := RenameStep(p, ds, Rename(d, newName, newUuid)), KeyOf(p.matchOn, Device(newName, newUuid));
            && (key in o.devices <==> p.matchOn == ByName || newUuid == d.uuid || newUuid == newName || newUuid in ds)
            && (p.matchOn == ByName || newUuid == d.uuid || newUuid == newName ==> o.devices[key] == ds[KeyOf(p.matchOn, d)])
            && (p.matchOn == ByUuid && newUuid != d.uuid ==> newName in o.devices && o.devices[newName] == ds[d.uuid])
  {
  }
}
