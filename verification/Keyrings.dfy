/** IMA keyrings: the keys learned from the log, their JSON form and signature lookup. */
module Keyrings {
  import opened Bytes
  import opened Crypto
  import opened OrderedDict

  type Ring = Dict<nat, PubKey>
  type Rings = Dict<string, Ring>

  const TENANT := "tenant_keyring"

  // One keyring

  /** The id a key is filed under: none, or a zero one, is computed from the key. */
  function KeyIdFor(c: Crypto, key: PubKey, keyid: Option<nat>): nat {
    if keyid.None? || keyid.value == 0 then c.keyId(key) else keyid.value
  }

  function AddToRing(c: Crypto, ring: Ring, key: PubKey, keyid: Option<nat>): Ring {
    Put(ring, KeyIdFor(c, key, keyid), key)
  }

  /** The two parallel lists a keyring is stored as. */
  datatype RingJson = RingJson(pubkeys: seq<Bytes>, keyids: seq<nat>)

  function Ids(ring: Ring): (r: seq<nat>)
    ensures |r| == |ring|
  {
    seq(|ring|, i requires 0 <= i < |ring| => ring[i].0)
  }

  /** Keys that cannot be serialized are left out of the list. */
  function Ders(c: Crypto, ring: Ring): (r: seq<Bytes>)
    ensures |r| <= |ring|
  {
    if ring == [] then []
    else
      var init, der := Ders(c, ring[..|ring| - 1]), c.toDer(ring[|ring| - 1].1);
      if der.Some? then init + [der.value] else init
  }

  function LoadOne(c: Crypto, ring: Ring, der: Bytes, keyid: Option<nat>): Ring {
    var key := c.fromDer(der);
    if key.Some? then AddToRing(c, ring, key.value, keyid) else ring
  }

  /** The ring after the first `n` keys of the stored list. */
  function LoadPrefix(c: Crypto, j: RingJson, n: nat): Ring
    requires n <= |j.pubkeys|
  {
    if n == 0 then []
    else LoadOne(c, LoadPrefix(c, j, n - 1), j.pubkeys[n - 1], if n - 1 < |j.keyids| then Some(j.keyids[n - 1]) else None)
  }

  function RingToJson(c: Crypto, ring: Ring): RingJson {
    RingJson(Ders(c, ring), Ids(ring))
  }

  function RingFromJson(c: Crypto, j: RingJson): Ring {
    LoadPrefix(c, j, |j.pubkeys|)
  }

  method SaveRing(c: Crypto, ring: Ring) returns (j: RingJson)
    ensures j == RingToJson(c, ring)
  {
    var lst: seq<Bytes> := [];
    for i := 0 to |ring|
      invariant lst == Ders(c, ring[..i])
    {
      assert ring[..i + 1][..i] == ring[..i];
      var der := c.toDer(ring[i].1);
      if der.Some? {
        lst := lst + [der.value];
      }
    }
    assert ring[..|ring|] == ring;
    j := RingJson(lst, seq(|ring|, i requires 0 <= i < |ring| => ring[i].0));
  }

  method LoadRing(c: Crypto, j: RingJson) returns (ring: Ring)
    ensures ring == RingFromJson(c, j)
  {
    ring := [];
    for i := 0 to |j.pubkeys|
      invariant ring == LoadPrefix(c, j, i)
    {
      var keyid := if i < |j.keyids| then Some(j.keyids[i]) else None;
      var key := c.fromDer(j.pubkeys[i]);
      if key.Some? {
        ring := AddToRing(c, ring, key.value, keyid);
      }
    }
  }

  ghost predicate Serializable(c: Crypto, ring: Ring) {
    forall i | 0 <= i < |ring| :: c.toDer(ring[i].1).Some?
  }

  /** What every ring filled through `AddToRing` satisfies. */
  ghost predicate ValidRing(c: Crypto, ring: Ring) {
    && UniqueKeys(ring)
    && forall i | 0 <= i < |ring| :: ring[i].0 == 0 ==> c.keyId(ring[i].1) == 0
  }

  lemma AddKeepsValidRing(c: Crypto, ring: Ring, key: PubKey, keyid: Option<nat>)
    requires ValidRing(c, ring)
    ensures ValidRing(c, AddToRing(c, ring, key, keyid))
  {
    var id := KeyIdFor(c, key, keyid);
    PutKeys(ring, id, key);
    var r := Put(ring, id, key);
    forall i | 0 <= i < |r| && r[i].0 == 0
      ensures c.keyId(r[i].1) == 0
    {
      assert r[i] in r;
    }
  }

  lemma {:induction false} DersOfSerializable(c: Crypto, ring: Ring)
    ensures Serializable(c, ring) <==> |Ders(c, ring)| == |ring|
    ensures Serializable(c, ring) ==>
              forall i | 0 <= i < |ring| :: Ders(c, ring)[i] == c.toDer(ring[i].1).value
  {
    if ring != [] {
      var init := ring[..|ring| - 1];
      DersOfSerializable(c, init);
      assert ring == init + [ring[|ring| - 1]];
      assert Serializable(c, ring) ==> Serializable(c, init) by {
        assert forall i | 0 <= i < |init| :: init[i] == ring[i];
      }
    }
  }

  lemma {:induction false} LoadPrefixIs(c: Crypto, ring: Ring, n: nat)
    requires ValidRing(c, ring) && Serializable(c, ring) && DerLaw(c) && n <= |ring|
    requires |Ders(c, ring)| == |ring|
    ensures LoadPrefix(c, RingToJson(c, ring), n) == ring[..n]
  {
    if n > 0 {
      LoadPrefixIs(c, ring, n - 1);
      DersOfSerializable(c, ring);
      var id, key := ring[n - 1].0, ring[n - 1].1;
      assert KeyIdFor(c, key, Some(id)) == id;
      assert !HasKey(ring[..n - 1], id);
      PutNew(ring[..n - 1], id, key);
      assert ring[..n] == ring[..n - 1] + [ring[n - 1]];
    }
  }

  lemma {:induction false} LoadPrefixSize(c: Crypto, j: RingJson, n: nat)
    requires n <= |j.pubkeys|
    ensures UniqueKeys(LoadPrefix(c, j, n)) && |LoadPrefix(c, j, n)| <= n
  {
    if n > 0 {
      LoadPrefixSize(c, j, n - 1);
      var key := c.fromDer(j.pubkeys[n - 1]);
      if key.Some? {
        var keyid := if n - 1 < |j.keyids| then Some(j.keyids[n - 1]) else None;
        PutKeys(LoadPrefix(c, j, n - 1), KeyIdFor(c, key.value, keyid), key.value);
      }
    }
  }

  /** A keyring survives being stored exactly when every key could be serialized. */
  lemma RingRoundTrip(c: Crypto, ring: Ring)
    requires ValidRing(c, ring) && DerLaw(c)
    ensures RingFromJson(c, RingToJson(c, ring)) == ring <==> Serializable(c, ring)
  {
    DersOfSerializable(c, ring);
    if Serializable(c, ring) {
      LoadPrefixIs(c, ring, |ring|);
      assert ring[..|ring|] == ring;
    } else {
      LoadPrefixSize(c, RingToJson(c, ring), |Ders(c, ring)|);
    }
  }

  /** One key that cannot be serialized shifts the ids: the key after it comes back under its predecessor's id. */
  lemma UnserializableShiftsIds(c: Crypto, lost: PubKey, key: PubKey, i: nat, j: nat)
    requires DerLaw(c) && c.toDer(lost).None? && c.toDer(key).Some? && i != j && i != 0
    ensures RingFromJson(c, RingToJson(c, [(i, lost), (j, key)])) == [(i, key)]
  {
    var ring: Ring := [(i, lost), (j, key)];
    assert ring[..1] == [(i, lost)] && ring[..1][..0] == [];
    assert Ders(c, ring[..1]) == [];
    assert Ders(c, ring) == [c.toDer(key).value];
    assert LoadPrefix(c, RingToJson(c, ring), 1) == LoadOne(c, [], c.toDer(key).value, Some(i));
  }

  // All keyrings

  function RingNamed(rings: Rings, name: string): Ring {
    var r := Get(rings, name);
    if r.Some? then r.value else []
  }

  function AddKey(c: Crypto, rings: Rings, name: string, key: PubKey, keyid: Option<nat>): Rings {
    Put(rings, name, AddToRing(c, RingNamed(rings, name), key, keyid))
  }

  /** The new key is filed in its ring, under its certificate's id unless that is missing or 0; nothing else changes. */
  lemma AddKeyExactly(c: Crypto, rings: Rings, name: string, key: PubKey, keyid: Option<nat>, ring: string, id: nat)
    ensures Get(RingNamed(AddKey(c, rings, name, key, keyid), ring), id) ==
            if ring == name && (if keyid.Some? && keyid.value > 0 then id == keyid.value else id == c.keyId(key))
            then Some(key) else Get(RingNamed(rings, ring), id)
  {
    GetPut(rings, name, AddToRing(c, RingNamed(rings, name), key, keyid), ring);
    GetPut(RingNamed(rings, name), KeyIdFor(c, key, keyid), key, id);
  }

  function SetTenant(rings: Rings, tenant: Option<Ring>): Rings {
    if tenant.Some? then Put(rings, TENANT, tenant.value) else Remove(rings, TENANT)
  }

  function RingsToJson(c: Crypto, rings: Rings): Dict<string, RingJson> {
    if rings == [] then []
    else
      var init, last := RingsToJson(c, rings[..|rings| - 1]), rings[|rings| - 1];
      if last.0 == TENANT then init else init + [(last.0, RingToJson(c, last.1))]
  }

  function RingsFromJson(c: Crypto, j: Dict<string, RingJson>): Rings {
    if j == [] then []
    else Put(RingsFromJson(c, j[..|j| - 1]), j[|j| - 1].0, RingFromJson(c, j[|j| - 1].1))
  }

  ghost predicate ValidRings(c: Crypto, rings: Rings) {
    UniqueKeys(rings) && forall i | 0 <= i < |rings| :: ValidRing(c, rings[i].1)
  }

  /** Learned keys can be stored; the tenant's ring is not. */
  ghost predicate LearnedSerializable(c: Crypto, rings: Rings) {
    forall i | 0 <= i < |rings| && rings[i].0 != TENANT :: Serializable(c, rings[i].1)
  }

  /** All keyrings but the tenant's survive being stored, in their order. */
  lemma {:induction false} RingsRoundTrip(c: Crypto, rings: Rings)
    requires ValidRings(c, rings) && LearnedSerializable(c, rings) && DerLaw(c)
    ensures RingsFromJson(c, RingsToJson(c, rings)) == Remove(rings, TENANT)
  {
    if rings != [] {
      var init, last := rings[..|rings| - 1], rings[|rings| - 1];
      RingsRoundTrip(c, init);
      assert rings == init + [last];
      RemoveSplit(init, [last], TENANT);
      assert Remove([last], TENANT) == if last.0 == TENANT then [] else [last];
      if last.0 != TENANT {
        var j := RingsToJson(c, rings);
        assert j[..|j| - 1] == RingsToJson(c, init);
        RingRoundTrip(c, last.1);
        RemoveKeys(init, TENANT);
        forall i | 0 <= i < |Remove(init, TENANT)|
          ensures Remove(init, TENANT)[i].0 != last.0
        {
          var e := Remove(init, TENANT)[i];
          assert e in init;
          var k :| 0 <= k < |init| && init[k] == e;
          assert rings[k] == e;
        }
        PutNew(Remove(init, TENANT), last.0, last.1);
      }
    }
  }

  lemma AddKeepsValidRings(c: Crypto, rings: Rings, name: string, key: PubKey, keyid: Option<nat>)
    requires ValidRings(c, rings)
    ensures ValidRings(c, AddKey(c, rings, name, key, keyid))
  {
    GetSome(rings, name);
    AddKeepsValidRing(c, RingNamed(rings, name), key, keyid);
    var ring := AddToRing(c, RingNamed(rings, name), key, keyid);
    PutKeys(rings, name, ring);
    var r := Put(rings, name, ring);
    forall i | 0 <= i < |r|
      ensures ValidRing(c, r[i].1)
    {
      assert r[i] in r;
    }
  }

  lemma TenantKeepsValidRings(c: Crypto, rings: Rings, tenant: Option<Ring>)
    requires ValidRings(c, rings) && (tenant.Some? ==> ValidRing(c, tenant.value))
    ensures ValidRings(c, SetTenant(rings, tenant))
  {
    if tenant.Some? {
      PutKeys(rings, TENANT, tenant.value);
      var r := Put(rings, TENANT, tenant.value);
      forall i | 0 <= i < |r|
        ensures ValidRing(c, r[i].1)
      {
        assert r[i] in r;
      }
    } else {
      RemoveKeys(rings, TENANT);
      var r := Remove(rings, TENANT);
      forall i | 0 <= i < |r|
        ensures ValidRing(c, r[i].1)
      {
        assert r[i] in rings;
      }
    }
  }

  class ImaKeyrings {
    var keyrings: Rings

    constructor ()
      ensures keyrings == []
    {
      keyrings := [];
    }

    method AddPubkeyToKeyring(c: Crypto, pubkey: PubKey, keyringName: string, keyid: Option<nat>)
      modifies this
      ensures keyrings == AddKey(c, old(keyrings), keyringName, pubkey, keyid)
    {
      var keyring := Get(keyrings, keyringName);
      if keyring == None {
        keyring := Some([]);
      }
      keyrings := Put(keyrings, keyringName, AddToRing(c, keyring.value, pubkey, keyid));
    }

    method SetTenantKeyring(tenant: Option<Ring>)
      modifies this
      ensures keyrings == SetTenant(old(keyrings), tenant)
    {
      if tenant.Some? {
        keyrings := Put(keyrings, TENANT, tenant.value);
      } else {
        keyrings := Remove(keyrings, TENANT);
      }
    }

    method ToJson(c: Crypto) returns (obj: Dict<string, RingJson>)
      ensures obj == RingsToJson(c, keyrings)
    {
      obj := [];
      for i := 0 to |keyrings|
        invariant obj == RingsToJson(c, keyrings[..i])
      {
        assert keyrings[..i + 1][..i] == keyrings[..i];
        if keyrings[i].0 != TENANT {
          var j := SaveRing(c, keyrings[i].1);
          obj := obj + [(keyrings[i].0, j)];
        }
      }
      assert keyrings[..|keyrings|] == keyrings;
    }

    static method FromJson(c: Crypto, obj: Dict<string, RingJson>) returns (rings: ImaKeyrings)
      ensures fresh(rings) && rings.keyrings == RingsFromJson(c, obj)
    {
      rings := new ImaKeyrings();
      for i := 0 to |obj|
        invariant rings.keyrings == RingsFromJson(c, obj[..i])
      {
        assert obj[..i + 1][..i] == obj[..i];
        var ring := LoadRing(c, obj[i].1);
        rings.keyrings := Put(rings.keyrings, obj[i].0, ring);
      }
      assert obj[..|obj|] == obj;
    }
  }

  // Signature verification

  /** The first keyring, in insertion order, that has the id. */
  function FindKey(rings: Rings, id: nat): Option<PubKey> {
    if rings == [] then None
    else
      var key := Get(rings[0].1, id);
      if key.Some? then key else FindKey(rings[1..], id)
  }

  /** The key a ring has under the id, in the first ring that has it. */
  ghost predicate KnownAs(rings: Rings, id: nat, key: PubKey) {
    exists i: nat :: i < |rings| && Get(rings[i].1, id) == Some(key) && forall j | 0 <= j < i :: !HasKey(rings[j].1, id)
  }

  lemma {:induction false} FindKeyIsFirst(rings: Rings, id: nat)
    ensures FindKey(rings, id).Some? <==> exists key :: KnownAs(rings, id, key)
    ensures forall key :: KnownAs(rings, id, key) <==> FindKey(rings, id) == Some(key)
  {
    if rings != [] {
      var rest := rings[1..];
      FindKeyIsFirst(rest, id);
      GetSome(rings[0].1, id);
      forall key
        ensures KnownAs(rings, id, key) <==> FindKey(rings, id) == Some(key)
      {
        if Get(rings[0].1, id).Some? {
          KnownInFirst(rings, id, key);
        } else {
          KnownBehindFirst(rings, id, key);
        }
      }
    }
  }

  lemma KnownInFirst(rings: Rings, id: nat, key: PubKey)
    requires rings != [] && HasKey(rings[0].1, id)
    ensures KnownAs(rings, id, key) <==> Get(rings[0].1, id) == Some(key)
  {
    if Get(rings[0].1, id) == Some(key) {
      var i: nat := 0;
      assert Get(rings[i].1, id) == Some(key);
    }
  }

  lemma KnownBehindFirst(rings: Rings, id: nat, key: PubKey)
    requires rings != [] && !HasKey(rings[0].1, id)
    ensures KnownAs(rings, id, key) <==> KnownAs(rings[1..], id, key)
  {
    var rest := rings[1..];
    GetSome(rings[0].1, id);
    if KnownAs(rings, id, key) {
      var i: nat :| i < |rings| && Get(rings[i].1, id) == Some(key) && forall j | 0 <= j < i :: !HasKey(rings[j].1, id);
      assert rest[i - 1] == rings[i];
      assert forall j | 0 <= j < i - 1 :: rest[j] == rings[j + 1];
    }
    if KnownAs(rest, id, key) {
      var i: nat :| i < |rest| && Get(rest[i].1, id) == Some(key) && forall j | 0 <= j < i :: !HasKey(rest[j].1, id);
      assert rings[i + 1] == rest[i];
      forall j | 0 <= j < i + 1
        ensures !HasKey(rings[j].1, id)
      {
        assert j > 0 ==> rings[j] == rest[j - 1];
      }
    }
  }

  /** The kernel's hash ids that file signatures may use. */
  function HashName(id: nat): Option<string> {
    if id == 1 then Some("md5")
    else if id == 2 then Some("sha1")
    else if id == 4 then Some("sha256")
    else if id == 5 then Some("sha384")
    else if id == 6 then Some("sha512")
    else if id == 7 then Some("sha224")
    else if id == 18 then Some("streebog256")
    else if id == 19 then Some("streebog512")
    else None
  }

  /** The part of the check that does not depend on the keys: type 3 or 5, version 2, length, and the hash. */
  predicate UsableSignature(signature: Bytes, algorithm: string) {
    && |signature| >= 9
    && (signature[0] == 3 || signature[0] == 5)
    && signature[1] == 2
    && FromBE(signature[7..9]) == |signature| - 9
    && HashName(signature[2]) == Some(algorithm)
  }

  /** The id of the key a usable signature names. */
  function SignerId(signature: Bytes, algorithm: string): nat
    requires UsableSignature(signature, algorithm)
  {
    FromBE(signature[3..7])
  }

  /** Only a key that is found is tried, and only then can the check raise. */
  function DigsigVerify(c: Crypto, rings: Rings, signature: Bytes, filehash: Bytes, algorithm: string): SigCheck {
    if !UsableSignature(signature, algorithm) then Forged
    else
      var key := FindKey(rings, SignerId(signature, algorithm));
      if key.None? then Forged else c.sigVerify(key.value, signature[9..], filehash, algorithm)
  }

  // Keys without colliding ids

  /** Every key sits under the id `keyOf` gives to it alone. */
  ghost predicate Coherent(rings: Rings, keyOf: nat -> PubKey) {
    forall i, j {:trigger rings[i].1[j]} | 0 <= i < |rings| && 0 <= j < |rings[i].1| :: rings[i].1[j].1 == keyOf(rings[i].1[j].0)
  }

  ghost predicate CoherentRing(ring: Ring, keyOf: nat -> PubKey) {
    forall j | 0 <= j < |ring| :: ring[j].1 == keyOf(ring[j].0)
  }

  /** Every id one side knows, the other side knows. */
  ghost predicate Covers(more: Rings, less: Rings) {
    forall id: nat :: FindKey(less, id).Some? ==> FindKey(more, id).Some?
  }

  lemma {:induction false} CoherentFind(rings: Rings, keyOf: nat -> PubKey, id: nat)
    requires Coherent(rings, keyOf)
    ensures FindKey(rings, id).Some? ==> FindKey(rings, id).value == keyOf(id)
  {
    if rings != [] {
      GetSome(rings[0].1, id);
      if Get(rings[0].1, id).Some? {
        var j :| 0 <= j < |rings[0].1| && rings[0].1[j] == (id, Get(rings[0].1, id).value);
        assert rings[0].1[j].1 == keyOf(rings[0].1[j].0);
      }
      assert Coherent(rings[1..], keyOf) by {
        assert forall i | 0 <= i < |rings[1..]| :: rings[1..][i] == rings[i + 1];
      }
      CoherentFind(rings[1..], keyOf, id);
    }
  }

  /** With more keys and no colliding ids no signature is lost, and a check that raised still raises. */
  lemma VerifyMonotone(c: Crypto, more: Rings, less: Rings, keyOf: nat -> PubKey,
                       signature: Bytes, filehash: Bytes, algorithm: string)
    requires Covers(more, less) && Coherent(more, keyOf) && Coherent(less, keyOf)
    ensures DigsigVerify(c, less, signature, filehash, algorithm) != Forged ==>
              DigsigVerify(c, more, signature, filehash, algorithm) == DigsigVerify(c, less, signature, filehash, algorithm)
  {
    if UsableSignature(signature, algorithm) {
      var id := SignerId(signature, algorithm);
      CoherentFind(more, keyOf, id);
      CoherentFind(less, keyOf, id);
    }
  }

  lemma {:induction false} FindAfterPut(rings: Rings, name: string, ring: Ring, id: nat)
    ensures Get(ring, id).Some? ==> FindKey(Put(rings, name, ring), id).Some?
    ensures FindKey(Put(rings, name, ring), id).Some? ==> Get(ring, id).Some? || FindKey(rings, id).Some?
    ensures FindKey(rings, id).Some? ==>
              FindKey(Put(rings, name, ring), id).Some? || Get(RingNamed(rings, name), id).Some?
  {
    if rings == [] {
      assert [(name, ring)][1..] == [];
    } else {
      FindAfterPut(rings[1..], name, ring, id);
      assert rings[0].0 != name ==> Put(rings, name, ring)[1..] == Put(rings[1..], name, ring);
      assert rings[0].0 == name ==> Put(rings, name, ring)[1..] == rings[1..];
    }
  }

  lemma {:induction false} FindAfterRemove(rings: Rings, name: string, id: nat)
    ensures FindKey(Remove(rings, name), id).Some? ==> FindKey(rings, id).Some?
  {
    if rings != [] {
      FindAfterRemove(rings[1..], name, id);
      assert rings[0].0 != name ==> Remove(rings, name)[1..] == Remove(rings[1..], name);
    }
  }

  lemma {:induction false} FindNamed(rings: Rings, name: string, id: nat)
    ensures Get(RingNamed(rings, name), id).Some? ==> FindKey(rings, id).Some?
  {
    if rings != [] {
      FindNamed(rings[1..], name, id);
    }
  }

  /** Learning a key adds its id and loses none. */
  lemma FindAfterAdd(c: Crypto, rings: Rings, name: string, key: PubKey, keyid: Option<nat>, id: nat)
    ensures FindKey(AddKey(c, rings, name, key, keyid), id).Some? <==>
            FindKey(rings, id).Some? || id == KeyIdFor(c, key, keyid)
  {
    var ring := RingNamed(rings, name);
    var ring' := AddToRing(c, ring, key, keyid);
    GetPut(ring, KeyIdFor(c, key, keyid), key, id);
    FindAfterPut(rings, name, ring', id);
    FindNamed(rings, name, id);
  }

  lemma AddCovers(c: Crypto, more: Rings, less: Rings, name: string, key: PubKey, keyid: Option<nat>)
    requires Covers(more, less)
    ensures Covers(AddKey(c, more, name, key, keyid), AddKey(c, less, name, key, keyid))
  {
    forall id: nat | FindKey(AddKey(c, less, name, key, keyid), id).Some?
      ensures FindKey(AddKey(c, more, name, key, keyid), id).Some?
    {
      FindAfterAdd(c, more, name, key, keyid, id);
      FindAfterAdd(c, less, name, key, keyid, id);
    }
  }

  /** Renewing the tenant's ring on the smaller side brings nothing the larger side, having it already, lacks. */
  lemma TenantCovers(more: Rings, less: Rings, tenant: Option<Ring>)
    requires Covers(more, less)
    requires tenant.Some? ==> forall id: nat :: Get(tenant.value, id).Some? ==> FindKey(more, id).Some?
    ensures Covers(more, SetTenant(less, tenant))
  {
    forall id: nat | FindKey(SetTenant(less, tenant), id).Some?
      ensures FindKey(more, id).Some?
    {
      if tenant.Some? {
        FindAfterPut(less, TENANT, tenant.value, id);
      } else {
        FindAfterRemove(less, TENANT, id);
      }
    }
  }

  lemma {:induction false} PutCoherent(rings: Rings, name: string, ring: Ring, keyOf: nat -> PubKey)
    requires Coherent(rings, keyOf) && CoherentRing(ring, keyOf)
    ensures Coherent(Put(rings, name, ring), keyOf)
  {
    if rings != [] {
      assert forall i | 0 <= i < |rings[1..]| :: rings[1..][i] == rings[i + 1];
      PutCoherent(rings[1..], name, ring, keyOf);
      assert CoherentRing(rings[0].1, keyOf);
    }
  }

  lemma {:induction false} RemoveCoherent(rings: Rings, name: string, keyOf: nat -> PubKey)
    requires Coherent(rings, keyOf)
    ensures Coherent(Remove(rings, name), keyOf)
  {
    if rings != [] {
      assert forall i | 0 <= i < |rings[1..]| :: rings[1..][i] == rings[i + 1];
      RemoveCoherent(rings[1..], name, keyOf);
      assert CoherentRing(rings[0].1, keyOf);
    }
  }

  lemma {:induction false} AddToRingCoherent(ring: Ring, id: nat, key: PubKey, keyOf: nat -> PubKey)
    requires CoherentRing(ring, keyOf) && key == keyOf(id)
    ensures CoherentRing(Put(ring, id, key), keyOf)
  {
    if ring != [] {
      assert forall i | 0 <= i < |ring[1..]| :: ring[1..][i] == ring[i + 1];
      AddToRingCoherent(ring[1..], id, key, keyOf);
    }
  }

  lemma AddCoherent(c: Crypto, rings: Rings, name: string, key: PubKey, keyid: Option<nat>, keyOf: nat -> PubKey)
    requires Coherent(rings, keyOf) && key == keyOf(KeyIdFor(c, key, keyid))
    ensures Coherent(AddKey(c, rings, name, key, keyid), keyOf)
  {
    var ring := RingNamed(rings, name);
    GetSome(rings, name);
    assert CoherentRing(ring, keyOf);
    AddToRingCoherent(ring, KeyIdFor(c, key, keyid), key, keyOf);
    PutCoherent(rings, name, AddToRing(c, ring, key, keyid), keyOf);
  }

  lemma TenantCoherent(rings: Rings, tenant: Option<Ring>, keyOf: nat -> PubKey)
    requires Coherent(rings, keyOf) && (tenant.Some? ==> CoherentRing(tenant.value, keyOf))
    ensures Coherent(SetTenant(rings, tenant), keyOf)
  {
    if tenant.Some? {
      PutCoherent(rings, TENANT, tenant.value, keyOf);
    } else {
      RemoveCoherent(rings, TENANT, keyOf);
    }
  }

  // What a renewal of the tenant's ring keeps

  /** All rings but the tenant's. */
  function Learned(rings: Rings): Rings {
    Remove(rings, TENANT)
  }

  lemma LearnedAfterAdd(c: Crypto, rings: Rings, name: string, key: PubKey, keyid: Option<nat>)
    ensures Learned(AddKey(c, rings, name, key, keyid)) ==
            if name == TENANT then Learned(rings) else AddKey(c, Learned(rings), name, key, keyid)
  {
    RemovePut(rings, name, AddToRing(c, RingNamed(rings, name), key, keyid), TENANT);
    GetRemove(rings, TENANT, name);
  }

  /** A renewal keeps exactly the ids of the learned rings besides the tenant's own: what was taught into its ring is lost. */
  lemma RenewedKeys(rings: Rings, tenant: Option<Ring>, id: nat)
    requires UniqueKeys(rings)
    ensures Learned(SetTenant(rings, tenant)) == Learned(rings)
    ensures FindKey(SetTenant(rings, tenant), id).Some? <==>
            FindKey(Learned(rings), id).Some? || (tenant.Some? && Get(tenant.value, id).Some?)
  {
    RemoveTwice(rings, TENANT);
    if tenant.Some? {
      RemovePut(rings, TENANT, tenant.value, TENANT);
      FindWithTenant(rings, tenant.value, id);
    }
  }

  lemma {:induction false} FindWithTenant(rings: Rings, ring: Ring, id: nat)
    requires UniqueKeys(rings)
    ensures FindKey(Put(rings, TENANT, ring), id).Some? <==> FindKey(Learned(rings), id).Some? || Get(ring, id).Some?
  {
    if rings == [] {
      assert [(TENANT, ring)][1..] == [];
    } else {
      var rest := rings[1..];
      assert forall i | 0 <= i < |rest| :: rest[i] == rings[i + 1];
      if rings[0].0 == TENANT {
        RemoveAbsent(rest, TENANT);
        assert Put(rings, TENANT, ring)[1..] == rest;
      } else {
        FindWithTenant(rest, ring, id);
        assert Put(rings, TENANT, ring)[1..] == Put(rest, TENANT, ring);
        assert Learned(rings)[1..] == Learned(rest);
      }
    }
  }
}
