/** The blob of quoted PCR values that tpm2-tools writes from memory, and the digest over its values. */
module PcrBlob {
  import opened Bytes

  const HASH_COUNT := 16
  const HASH_IDS: set<nat> := {0x0004, 0x000B, 0x000C, 0x000D}

  // Parsing as functions; None is an exception

  function ReadLE(b: Bytes, o: nat, k: nat): (r: Option<nat>)
    ensures r.Some? <==> o + k <= |b|
  {
    if o + k <= |b| then Some(FromLE(b[o..o + k])) else None
  }

  datatype Selection = Selection(hashAlg: nat, select: nat)

  /** One selection, whatever its size an aligned eight bytes. */
  function ReadSelection(b: Bytes, o: nat): Option<Selection> {
    var hashAlg := ReadLE(b, o, 2);
    if o + 3 > |b| || b[o + 2] !in {0, 3} then None
    else if b[o + 2] == 0 then Some(Selection(hashAlg.value, 0))
    else
      var select := ReadLE(b, o + 3, 3);
      if select.None? then None else Some(Selection(hashAlg.value, select.value))
  }

  /** The dictionary after `n` selections. */
  function ReadSelections(b: Bytes, n: nat): Option<map<nat, nat>> {
    if n == 0 then Some(map[])
    else
      var before, s := ReadSelections(b, n - 1), ReadSelection(b, 4 + 8 * (n - 1));
      if before.None? || s.None? then None else Some(before.value[s.value.hashAlg := s.value.select])
  }

  /** The values among the first `j` slots of a list at `o`; a slot that is empty has none. */
  function ReadSlots(b: Bytes, o: nat, j: nat): Option<seq<Bytes>> {
    if j == 0 then Some([])
    else
      var at := o + 66 * (j - 1);
      var before, size := ReadSlots(b, o, j - 1), ReadLE(b, at, 2);
      if before.None? || size.None? then None
      else if size.value == 0 then before
      else
        var value := Take(b, at + 2, size.value);
        if value.None? then None else Some(before.value + [value.value])
  }

  /** The values in the first `i` lists. */
  function ReadLists(b: Bytes, i: nat): Option<seq<Bytes>> {
    if i == 0 then Some([])
    else
      var o := 136 + 532 * (i - 1);
      var before, values := ReadLists(b, i - 1), ReadSlots(b, o + 4, 8);
      if before.None? || o + 4 > |b| || values.None? then None else Some(before.value + values.value)
  }

  datatype Blob = Blob(selectCount: nat, selections: map<nat, nat>, values: seq<Bytes>)

  function ReadBlob(b: Bytes): Option<Blob> {
    var selectCount, selections, count := ReadLE(b, 0, 4), ReadSelections(b, HASH_COUNT), ReadLE(b, 132, 4);
    if selections.None? || count.None? then None
    else
      var values := ReadLists(b, count.value);
      if values.None? || |b| != 136 + 532 * count.value then None
      else Some(Blob(selectCount.value, selections.value, values.value))
  }

  // Parsing, offset by offset

  method GetPcrsFromBlob(b: Bytes) returns (r: Option<Blob>)
    ensures r == ReadBlob(b)
  {
    var selectCount := ReadLE(b, 0, 4);
    if selectCount.None? {
      return None;
    }
    var o := 4;
    var selections := map[];
    for n := 0 to HASH_COUNT
      invariant o == 4 + 8 * n && ReadSelections(b, n) == Some(selections)
    {
      var s := ReadSelection(b, o);
      if s.None? {
        NoSelections(b, n + 1, HASH_COUNT);
        return None;
      }
      selections := selections[s.value.hashAlg := s.value.select];
      o := o + 3 + 3 + 2;
    }
    var count := ReadLE(b, o, 4);
    if count.None? {
      return None;
    }
    o := o + 4;
    var values := GetLists(b, count.value);
    if values.None? || 136 + 532 * count.value != |b| {
      return None;
    }
    return Some(Blob(selectCount.value, selections, values.value));
  }

  method GetLists(b: Bytes, count: nat) returns (r: Option<seq<Bytes>>)
    ensures r == ReadLists(b, count)
  {
    var o, values: seq<Bytes> := 136, [];
    for i := 0 to count
      invariant o == 136 + 532 * i && ReadLists(b, i) == Some(values)
    {
      if o + 4 > |b| {
        NoLists(b, i + 1, count);
        return None;
      }
      o := o + 4;
      var slots := GetSlots(b, o);
      if slots.None? {
        NoLists(b, i + 1, count);
        return None;
      }
      values := values + slots.value;
      o := o + 8 * (2 + 64);
    }
    return Some(values);
  }

  method GetSlots(b: Bytes, start: nat) returns (r: Option<seq<Bytes>>)
    ensures r == ReadSlots(b, start, 8)
  {
    var o, values: seq<Bytes> := start, [];
    for j := 0 to 8
      invariant o == start + 66 * j && ReadSlots(b, start, j) == Some(values)
    {
      var size := ReadLE(b, o, 2);
      if size.None? {
        NoSlots(b, start, j + 1, 8);
        return None;
      }
      o := o + 2;
      if size.value != 0 {
        var value := Take(b, o, size.value);
        if value.None? {
          NoSlots(b, start, j + 1, 8);
          return None;
        }
        values := values + [value.value];
      }
      o := o + 64;
    }
    return Some(values);
  }

  lemma {:induction false} NoSelections(b: Bytes, n: nat, m: nat)
    requires n <= m && ReadSelections(b, n).None?
    ensures ReadSelections(b, m).None?
  {
    if n < m {
      NoSelections(b, n, m - 1);
    }
  }

  lemma {:induction false} NoLists(b: Bytes, n: nat, m: nat)
    requires n <= m && ReadLists(b, n).None?
    ensures ReadLists(b, m).None?
  {
    if n < m {
      NoLists(b, n, m - 1);
    }
  }

  lemma {:induction false} NoSlots(b: Bytes, o: nat, n: nat, m: nat)
    requires n <= m && ReadSlots(b, o, n).None?
    ensures ReadSlots(b, o, m).None?
  {
    if n < m {
      NoSlots(b, o, n, m - 1);
    }
  }

  // What a blob that parses looks like

  /** A digest in its slot; what fills the slot up is of no interest. */
  ghost predicate SlotHolds(b: Bytes, o: nat, d: Bytes) {
    |d| < 0x1_0000 && ReadLE(b, o, 2) == Some(|d|) && At(b, o + 2, d)
  }

  ghost predicate SlotsHold(b: Bytes, o: nat, ds: seq<Bytes>) {
    forall j | 0 <= j < |ds| :: SlotHolds(b, o + 66 * j, ds[j])
  }

  ghost predicate ListsHold(b: Bytes, lists: seq<seq<Bytes>>) {
    forall i | 0 <= i < |lists| ::
      |lists[i]| == 8 && 136 + 532 * i + 4 <= |b| && SlotsHold(b, 136 + 532 * i + 4, lists[i])
  }

  ghost predicate SelectionsHold(b: Bytes, ss: seq<Selection>) {
    forall n | 0 <= n < |ss| ::
      && ReadLE(b, 4 + 8 * n, 2) == Some(ss[n].hashAlg) && 4 + 8 * n + 3 <= |b|
      && (if ss[n].select == 0 then b[4 + 8 * n + 2] == 0 || (b[4 + 8 * n + 2] == 3 && ReadLE(b, 4 + 8 * n + 3, 3) == Some(0))
          else b[4 + 8 * n + 2] == 3 && ReadLE(b, 4 + 8 * n + 3, 3) == Some(ss[n].select))
  }

  function NonEmpty(ds: seq<Bytes>): seq<Bytes> {
    if ds == [] then []
    else NonEmpty(ds[..|ds| - 1]) + (if ds[|ds| - 1] == [] then [] else [ds[|ds| - 1]])
  }

  function AllNonEmpty(lists: seq<seq<Bytes>>): seq<Bytes> {
    if lists == [] then [] else AllNonEmpty(lists[..|lists| - 1]) + NonEmpty(lists[|lists| - 1])
  }

  function SelectionMap(ss: seq<Selection>): map<nat, nat> {
    if ss == [] then map[] else SelectionMap(ss[..|ss| - 1])[ss[|ss| - 1].hashAlg := ss[|ss| - 1].select]
  }

  ghost predicate BlobHolds(b: Bytes, selectCount: nat, ss: seq<Selection>, lists: seq<seq<Bytes>>) {
    && |b| == 136 + 532 * |lists| && |ss| == HASH_COUNT
    && ReadLE(b, 0, 4) == Some(selectCount) && SelectionsHold(b, ss)
    && ReadLE(b, 132, 4) == Some(|lists|) && ListsHold(b, lists)
  }

  lemma SlotStep(b: Bytes, o: nat, j: nat, at: nat, d: Bytes)
    requires at == o + 66 * j && SlotHolds(b, at, d) && ReadSlots(b, o, j).Some?
    ensures ReadSlots(b, o, j + 1) == Some(ReadSlots(b, o, j).value + (if d == [] then [] else [d]))
  {
    var before := ReadSlots(b, o, j).value;
    assert before + [] == before;
    if d != [] {
      assert Take(b, at + 2, |d|) == Some(d);
    }
  }

  lemma {:induction false} SlotsReadBack(b: Bytes, o: nat, ds: seq<Bytes>)
    requires SlotsHold(b, o, ds)
    ensures ReadSlots(b, o, |ds|) == Some(NonEmpty(ds))
  {
    if ds != [] {
      var last := |ds| - 1;
      SlotsReadBack(b, o, ds[..last]);
      SlotStep(b, o, last, o + 66 * last, ds[last]);
    }
  }

  lemma {:induction false} ListsReadBack(b: Bytes, lists: seq<seq<Bytes>>)
    requires ListsHold(b, lists)
    ensures ReadLists(b, |lists|) == Some(AllNonEmpty(lists))
  {
    if lists != [] {
      var last := |lists| - 1;
      ListsReadBack(b, lists[..last]);
      SlotsReadBack(b, 136 + 532 * last + 4, lists[last]);
    }
  }

  lemma {:induction false} SelectionsReadBack(b: Bytes, ss: seq<Selection>)
    requires SelectionsHold(b, ss)
    ensures ReadSelections(b, |ss|) == Some(SelectionMap(ss))
  {
    if ss != [] {
      SelectionsReadBack(b, ss[..|ss| - 1]);
    }
  }

  /** A blob in the layout of the tools is read back: its selections, and its nonempty digests in order. */
  lemma BlobReadBack(b: Bytes, selectCount: nat, ss: seq<Selection>, lists: seq<seq<Bytes>>)
    requires BlobHolds(b, selectCount, ss, lists)
    ensures ReadBlob(b) == Some(Blob(selectCount, SelectionMap(ss), AllNonEmpty(lists)))
  {
    SelectionsReadBack(b, ss);
    ListsReadBack(b, lists);
  }

  lemma SlotContents(b: Bytes, o: nat, j: nat, at: nat) returns (d: Bytes)
    requires at == o + 66 * j && ReadSlots(b, o, j + 1).Some?
    ensures SlotHolds(b, at, d)
  {
    Pow256Values();
    var size := ReadLE(b, at, 2).value;
    d := if size == 0 then [] else Take(b, at + 2, size).value;
  }

  lemma {:induction false} SlotsWereWritten(b: Bytes, o: nat, j: nat) returns (ds: seq<Bytes>)
    requires ReadSlots(b, o, j).Some?
    ensures |ds| == j && SlotsHold(b, o, ds) && ReadSlots(b, o, j) == Some(NonEmpty(ds))
  {
    if j == 0 {
      ds := [];
    } else {
      var init := SlotsWereWritten(b, o, j - 1);
      var at := o + 66 * (j - 1);
      var d := SlotContents(b, o, j - 1, at);
      ds := init + [d];
      SlotStep(b, o, j - 1, at, d);
      assert ds[..j - 1] == init;
    }
  }

  lemma {:induction false} ListsWereWritten(b: Bytes, i: nat) returns (lists: seq<seq<Bytes>>)
    requires ReadLists(b, i).Some?
    ensures |lists| == i && ListsHold(b, lists) && ReadLists(b, i) == Some(AllNonEmpty(lists))
  {
    if i == 0 {
      lists := [];
    } else {
      var init := ListsWereWritten(b, i - 1);
      var last := SlotsWereWritten(b, 136 + 532 * (i - 1) + 4, 8);
      lists := init + [last];
      assert lists[..i - 1] == init;
    }
  }

  lemma {:induction false} SelectionsWereWritten(b: Bytes, n: nat) returns (ss: seq<Selection>)
    requires ReadSelections(b, n).Some?
    ensures |ss| == n && SelectionsHold(b, ss) && ReadSelections(b, n) == Some(SelectionMap(ss))
  {
    if n == 0 {
      ss := [];
    } else {
      var init := SelectionsWereWritten(b, n - 1);
      ss := init + [ReadSelection(b, 4 + 8 * (n - 1)).value];
      assert ss[..n - 1] == init;
    }
  }

  /**
   * And nothing else parses: a blob that does has 136 bytes and 532 for each list it announces, and its values are
   * the nonempty digests of the slots, in order.
   */
  lemma BlobWasWritten(b: Bytes) returns (ss: seq<Selection>, lists: seq<seq<Bytes>>)
    requires ReadBlob(b).Some?
    ensures BlobHolds(b, ReadBlob(b).value.selectCount, ss, lists)
    ensures ReadBlob(b).value.selections == SelectionMap(ss) && ReadBlob(b).value.values == AllNonEmpty(lists)
  {
    ss := SelectionsWereWritten(b, HASH_COUNT);
    lists := ListsWereWritten(b, ReadLE(b, 132, 4).value);
  }

  // The digest over the values of a bank

  /** `select & (1 << i) != 0` */
  predicate Bit(select: nat, i: nat) {
    select / Pow2(i) % 2 == 1
  }

  /** The number of set bits below bit `i`. */
  function BitsBelowCount(select: nat, i: nat): (r: nat)
    ensures r <= i
  {
    if i == 0 then 0 else BitsBelowCount(select, i - 1) + (if Bit(select, i - 1) then 1 else 0)
  }

  function PcrCount(select: nat): nat {
    BitsBelowCount(select, 24)
  }

  lemma {:induction false} CountGrows(select: nat, i: nat, j: nat)
    requires i <= j
    ensures BitsBelowCount(select, i) <= BitsBelowCount(select, j)
    ensures i < j && Bit(select, i) ==> BitsBelowCount(select, i) < BitsBelowCount(select, j)
  {
    if i < j {
      CountGrows(select, i, j - 1);
    }
  }

  function Concat(values: seq<Bytes>): Bytes {
    if values == [] then [] else Concat(values[..|values| - 1]) + values[|values| - 1]
  }

  /** The value of PCR `i` in the last round: as many before it as there are set bits below. */
  function ValueOf(select: nat, values: seq<Bytes>, i: nat): Bytes
    requires PcrCount(select) <= |values| && i < 24 && Bit(select, i)
  {
    CountGrows(select, i, 24);
    values[|values| - PcrCount(select) + BitsBelowCount(select, i)]
  }

  function LastRound(select: nat, values: seq<Bytes>): map<nat, string>
    requires PcrCount(select) <= |values|
  {
    map i: nat | i < 24 && Bit(select, i) :: i := ToHex(ValueOf(select, values, i))
  }

  lemma AtLeastOnce(count: nat, k: nat)
    ensures (count + 1) * k == count * k + k
  {
  }

  function HashedBank(count: nat, select: nat, values: seq<Bytes>): Option<(Bytes, map<nat, string>)>
    requires count > 0
  {
    if |values| != count * PcrCount(select) then None
    else
      AtLeastOnce(count - 1, PcrCount(select));
      Some((Concat(values), LastRound(select, values)))
  }

  /** What is hashed, and the dictionary of values; None is an exception. */
  function HashBanks(hashAlg: nat, blob: Blob): Option<(Bytes, map<nat, string>)> {
    if hashAlg !in HASH_IDS then None
    else if blob.selectCount == 0 then if blob.values == [] then Some(([], map[])) else None
    else if hashAlg !in blob.selections then None
    else HashedBank(blob.selectCount, blob.selections[hashAlg], blob.values)
  }

  /** The entries of the bits below `i` are those of the round that began at `start`. */
  ghost predicate DictOf(select: nat, values: seq<Bytes>, start: nat, i: nat, dict: map<nat, string>) {
    forall j: nat | j < i && Bit(select, j) ::
      && j in dict && start + BitsBelowCount(select, j) < |values|
      && dict[j] == ToHex(values[start + BitsBelowCount(select, j)])
  }

  lemma OneMore(select: nat, values: seq<Bytes>, start: nat, i: nat, dict: map<nat, string>, idx: nat)
    requires idx == start + BitsBelowCount(select, i) && idx < |values| && Bit(select, i)
    requires DictOf(select, values[..idx], start, i, dict)
    ensures DictOf(select, values[..idx + 1], start, i + 1, dict[i := ToHex(values[idx])])
    ensures Concat(values[..idx + 1]) == Concat(values[..idx]) + values[idx]
  {
    assert values[..idx + 1][..idx] == values[..idx];
    var dict', more := dict[i := ToHex(values[idx])], values[..idx + 1];
    forall j: nat | j < i + 1 && Bit(select, j)
      ensures j in dict' && start + BitsBelowCount(select, j) < |more| && dict'[j] == ToHex(more[start + BitsBelowCount(select, j)])
    {
      if j < i {
        assert values[..idx][start + BitsBelowCount(select, j)] == more[start + BitsBelowCount(select, j)];
      }
    }
  }

  lemma DictIsLastRound(select: nat, values: seq<Bytes>, start: nat, dict: map<nat, string>)
    requires start + PcrCount(select) == |values| && DictOf(select, values, start, 24, dict)
    requires forall j | j in dict :: j < 24 && Bit(select, j)
    ensures dict == LastRound(select, values)
  {
    var last := LastRound(select, values);
    forall j: nat | j < 24 && Bit(select, j) ensures j in dict && dict[j] == last[j] {
      assert last[j] == ToHex(ValueOf(select, values, j));
    }
    assert dict.Keys == last.Keys;
  }

  method HashPcrBanks(hashAlg: nat, blob: Blob) returns (r: Option<(Bytes, map<nat, string>)>)
    ensures r == HashBanks(hashAlg, blob)
  {
    if hashAlg !in HASH_IDS {
      return None;
    }
    if blob.selectCount == 0 {
      return if blob.values == [] then Some(([], map[])) else None;
    }
    if hashAlg !in blob.selections {
      return None;
    }
    r := HashRounds(blob.selectCount, blob.selections[hashAlg], blob.values);
  }

  method HashRounds(count: nat, select: nat, values: seq<Bytes>) returns (r: Option<(Bytes, map<nat, string>)>)
    requires count > 0
    ensures r == HashedBank(count, select, values)
  {
    ghost var k := PcrCount(select);
    var idx, input: Bytes, dict: map<nat, string> := 0, [], map[];
    for c := 0 to count
      invariant idx == c * k && idx <= |values| && input == Concat(values[..idx])
      invariant c > 0 ==> k <= idx && dict == LastRound(select, values[..idx])
      invariant c == 0 ==> dict == map[]
    {
      var round := HashRound(select, values, idx, input, dict);
      AtLeastOnce(c, k);
      if round.None? {
        TimesGrows(c + 1, count, k);
        return None;
      }
      idx, input, dict := round.value.0, round.value.1, round.value.2;
    }
    if idx != |values| {
      return None;
    }
    assert values[..idx] == values;
    return Some((input, dict));
  }

  lemma TimesGrows(c: nat, d: nat, k: nat)
    requires c <= d
    ensures c * k <= d * k
  {
  }

  /** One round over the 24 bits: the next values are hashed and replace those of the round before. */
  method HashRound(select: nat, values: seq<Bytes>, start: nat, hashed: Bytes, before: map<nat, string>)
    returns (r: Option<(nat, Bytes, map<nat, string>)>)
    requires start <= |values| && hashed == Concat(values[..start])
    requires forall j | j in before :: j < 24 && Bit(select, j)
    ensures r.None? <==> start + PcrCount(select) > |values|
    ensures r.Some? ==>
              && r.value.0 == start + PcrCount(select)
              && r.value.1 == Concat(values[..r.value.0])
              && r.value.2 == LastRound(select, values[..r.value.0])
  {
    var idx: nat, input, dict := start, hashed, before;
    for i := 0 to 24
      invariant idx == start + BitsBelowCount(select, i) && idx <= |values|
      invariant input == Concat(values[..idx])
      invariant DictOf(select, values[..idx], start, i, dict)
      invariant forall j | j in dict :: j < 24 && Bit(select, j)
    {
      if Bit(select, i) {
        assert BitsBelowCount(select, i + 1) == BitsBelowCount(select, i) + 1;
        if idx >= |values| {
          CountGrows(select, i, 24);
          return None;
        }
        OneMore(select, values, start, i, dict, idx);
        input := input + values[idx];
        dict := dict[i := ToHex(values[idx])];
        idx := idx + 1;
      }
    }
    DictIsLastRound(select, values[..idx], start, dict);
    r := Some((idx, input, dict));
  }

  function BitsBelow(select: nat, i: nat): set<nat> {
    set j: nat | j < i && Bit(select, j)
  }

  /** The rank of a bit is the number of set bits below it. */
  lemma {:induction false} RankCounts(select: nat, i: nat)
    ensures |BitsBelow(select, i)| == BitsBelowCount(select, i)
  {
    if i == 0 {
      assert BitsBelow(select, 0) == {};
    } else {
      RankCounts(select, i - 1);
      if Bit(select, i - 1) {
        assert BitsBelow(select, i) == BitsBelow(select, i - 1) + {i - 1};
      } else {
        assert BitsBelow(select, i) == BitsBelow(select, i - 1);
      }
    }
  }

  /** A bank is hashed exactly when there are as many values as rounds times selected PCRs. */
  lemma BankMeaning(count: nat, select: nat, values: seq<Bytes>)
    requires count > 0
    ensures HashedBank(count, select, values).Some? <==> |values| == count * |BitsBelow(select, 24)|
  {
    RankCounts(select, 24);
    assert PcrCount(select) == |BitsBelow(select, 24)|;
  }

  /** The dictionary is about the selected PCRs. */
  lemma LastRoundKeys(select: nat, values: seq<Bytes>)
    requires PcrCount(select) <= |values|
    ensures LastRound(select, values).Keys == BitsBelow(select, 24)
  {
  }

  /** Every selected PCR has, of the last round's values, the one of its rank; with one round, of all values. */
  lemma LastRoundRanks(select: nat, values: seq<Bytes>, i: nat)
    requires PcrCount(select) <= |values| && i in BitsBelow(select, 24)
    ensures i in LastRound(select, values)
    ensures var at := |values| - |BitsBelow(select, 24)| + |BitsBelow(select, i)|;
            0 <= at < |values| && LastRound(select, values)[i] == ToHex(values[at])
  {
    RankCounts(select, 24);
    RankCounts(select, i);
    CountGrows(select, i, 24);
    assert ValueOf(select, values, i) == values[|values| - PcrCount(select) + BitsBelowCount(select, i)];
  }
}
