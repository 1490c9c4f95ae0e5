/** TPM structures: the attested quote and RSA public areas. */
module TpmObjects {
  import opened Bytes
  import opened AgentStates

  const GENERATED_VALUE := 0xFF544347
  const ST_ATTEST_QUOTE := 0x8018
  const ALG_NULL := 0x0010
  const ALG_RSA := 0x0001
  const ALG_ECC := 0x0023

  // Writing, after the TPM 2.0 Library, Part 2, sections 10.5, 10.6, 10.9.7, 10.11.1 and 10.12

  datatype Selection = Selection(hashAlg: nat, select: Bytes)

  datatype Attest = Attest(
    name: Bytes, extraData: Bytes, clock: ClockInfo, firmware: Bytes, selections: seq<Selection>, pcrDigest: Bytes)

  function Sized(b: Bytes): Bytes
    requires |b| < 0x1_0000
  {
    BE2(|b|) + b
  }

  predicate SelectionFits(s: Selection) {
    s.hashAlg < 0x1_0000 && |s.select| < 0x100
  }

  function EncodeSelection(s: Selection): Bytes
    requires SelectionFits(s)
  {
    BE2(s.hashAlg) + ([|s.select|] + s.select)
  }

  function EncodeSelections(ss: seq<Selection>): Bytes
    requires forall s | s in ss :: SelectionFits(s)
  {
    if ss == [] then [] else EncodeSelections(ss[..|ss| - 1]) + EncodeSelection(ss[|ss| - 1])
  }

  predicate ClockFits(c: ClockInfo) {
    && 0 <= c.clock < 0x1_0000_0000_0000_0000 && 0 <= c.resetCount < 0x1_0000_0000
    && 0 <= c.restartCount < 0x1_0000_0000 && 0 <= c.safe < 0x100
  }

  function EncodeClock(c: ClockInfo): (r: Bytes)
    requires ClockFits(c)
    ensures |r| == 17
  {
    BE8(c.clock) + (BE4(c.resetCount) + (BE4(c.restartCount) + [c.safe]))
  }

  predicate Fits(a: Attest) {
    && |a.name| < 0x1_0000 && |a.extraData| < 0x1_0000 && |a.pcrDigest| < 0x1_0000
    && ClockFits(a.clock) && |a.firmware| == 8
    && |a.selections| < 0x1_0000_0000 && forall s | s in a.selections :: SelectionFits(s)
  }

  function EncodeQuoteInfo(ss: seq<Selection>, pcrDigest: Bytes): Bytes
    requires |ss| < 0x1_0000_0000 && (forall s | s in ss :: SelectionFits(s)) && |pcrDigest| < 0x1_0000
  {
    BE4(|ss|) + (EncodeSelections(ss) + Sized(pcrDigest))
  }

  function Tagged(magic: nat, typ: nat, body: Bytes): Bytes
    requires magic < 0x1_0000_0000 && typ < 0x1_0000
  {
    BE4(magic) + (BE2(typ) + body)
  }

  function EncodeAttested(a: Attest): Bytes
    requires Fits(a)
  {
    EncodeClock(a.clock) + (a.firmware + EncodeQuoteInfo(a.selections, a.pcrDigest))
  }

  function EncodeAttest(a: Attest): Bytes
    requires Fits(a)
  {
    Tagged(GENERATED_VALUE, ST_ATTEST_QUOTE, Sized(a.name) + (Sized(a.extraData) + EncodeAttested(a)))
  }

  // Reading, as functions

  datatype Error = StructError | BadMagic | BadType | ValueError

  datatype Result<+T> = Ok(value: T) | Err(error: Error)

  datatype AttestInfo = AttestInfo(clockInfo: ClockInfo, extraData: Bytes, pcrDigest: Bytes)

  /** Length and contents at `o`. */
  function SizedAt(b: Bytes, o: nat): (r: Option<Bytes>)
    ensures r.Some? ==> o + 2 + |r.value| <= |b| && |r.value| < 0x1_0000
  {
    var size := ReadBE(b, o, 2);
    if size.None? then None
    else
      ReadBound(b, o, 2);
      Take(b, o + 2, size.value)
  }

  function ReadSelection(c: Bytes): (r: Option<Selection>)
    ensures r.Some? ==> SelectionFits(r.value) && 3 + |r.value.select| <= |c|
  {
    var hashAlg := ReadBE(c, 0, 2);
    if |c| < 3 then None
    else
      ReadBound(c, 0, 2);
      var select := Take(c, 3, c[2]);
      if select.None? then None else Some(Selection(hashAlg.value, select.value))
  }

  function SelectionEnd(o: nat, s: Selection): nat {
    o + 3 + |s.select|
  }

  /** The dictionary of selections after `count` of them, and the offset behind. */
  function ReadSelections(b: Bytes, count: nat): Option<(map<nat, Bytes>, nat)> {
    if count == 0 then Some((map[], 4))
    else
      var before := ReadSelections(b, count - 1);
      if before.None? then None
      else
        var s := ReadSelection(DropAt(b, before.value.1));
        if s.None? then None
        else Some((before.value.0[s.value.hashAlg := s.value.select], SelectionEnd(before.value.1, s.value)))
  }

  function ReadPcrSelections(b: Bytes): Option<(map<nat, Bytes>, nat)> {
    var count := ReadBE(b, 0, 4);
    if count.None? then None else ReadSelections(b, count.value)
  }

  function ReadQuoteInfo(b: Bytes): Option<Bytes> {
    var selections := ReadPcrSelections(b);
    if selections.None? then None else SizedAt(b, selections.value.1)
  }

  function ReadClock(c: Bytes): (r: Option<ClockInfo>)
    ensures r.Some? <==> |c| == 17
    ensures r.Some? ==> ClockFits(r.value)
  {
    Pow256Values();
    if |c| != 17 then None
    else
      FromBEBound(c[..8]);
      FromBEBound(c[8..12]);
      FromBEBound(c[12..16]);
      Some(ClockInfo(FromBE(c[..8]), FromBE(c[8..12]), FromBE(c[12..16]), c[16]))
  }

  /** Magic, type and the offset behind the name. */
  function ReadHeader(b: Bytes): Result<nat> {
    var magic, typ, nameSize := ReadBE(b, 0, 4), ReadBE(b, 4, 2), ReadBE(b, 6, 2);
    if typ.None? then Err(StructError)
    else if magic.value != GENERATED_VALUE then Err(BadMagic)
    else if typ.value != ST_ATTEST_QUOTE then Err(BadType)
    else if nameSize.None? then Err(StructError)
    else Ok(8 + nameSize.value)
  }

  function SizedEnd(o: nat, s: Bytes): nat {
    o + 2 + |s|
  }

  /** What follows the name. */
  function ReadNamed(b: Bytes, o: nat): Result<AttestInfo> {
    var extraData := SizedAt(b, o);
    if extraData.None? then Err(StructError)
    else ReadAttested(extraData.value, DropAt(b, SizedEnd(o, extraData.value)))
  }

  function ReadAttest(b: Bytes): Result<AttestInfo> {
    var header := ReadHeader(b);
    if header.Err? then Err(header.error) else ReadNamed(b, header.value)
  }

  /** Clock, firmware version and quote. */
  function ReadAttested(extraData: Bytes, b: Bytes): Result<AttestInfo> {
    var clock := ReadClock(KeepTo(b, 17));
    if clock.None? then Err(StructError)
    else
      var digest := ReadQuoteInfo(DropAt(b, 25));
      if digest.None? then Err(StructError) else Ok(AttestInfo(clock.value, extraData, digest.value))
  }

  // Reading, offset by offset

  method UnmarshalTpmlPcrSelection(b: Bytes) returns (r: Option<(map<nat, Bytes>, nat)>)
    ensures r == ReadPcrSelections(b)
  {
    var count := ReadBE(b, 0, 4);
    if count.None? {
      return None;
    }
    r := UnmarshalEach(b, count.value);
  }

  method UnmarshalEach(b: Bytes, count: nat) returns (r: Option<(map<nat, Bytes>, nat)>)
    ensures r == ReadSelections(b, count)
  {
    var o, selections: map<nat, Bytes> := 4, map[];
    for i := 0 to count
      invariant ReadSelections(b, i) == Some((selections, o))
    {
      var s := ReadSelection(DropAt(b, o));
      if s.None? {
        NoSelections(b, i + 1, count);
        return None;
      }
      selections := selections[s.value.hashAlg := s.value.select];
      o := SelectionEnd(o, s.value);
    }
    return Some((selections, o));
  }

  lemma {:induction false} NoSelections(b: Bytes, i: nat, count: nat)
    requires i <= count && ReadSelections(b, i).None?
    ensures ReadSelections(b, count).None?
  {
    if i < count {
      NoSelections(b, i, count - 1);
    }
  }

  method UnmarshalTpmsQuoteInfo(b: Bytes) returns (pcrDigest: Option<Bytes>)
    ensures pcrDigest == ReadQuoteInfo(b)
  {
    var selections := UnmarshalTpmlPcrSelection(b);
    if selections.None? {
      return None;
    }
    var o := selections.value.1;
    var size := ReadBE(b, o, 2);
    if size.None? {
      return None;
    }
    o := o + 2;
    pcrDigest := Take(b, o, size.value);
  }

  method UnmarshalTpmsAttest(b: Bytes) returns (r: Result<AttestInfo>)
    ensures r == ReadAttest(b)
  {
    var magic, typ := ReadBE(b, 0, 4), ReadBE(b, 4, 2);
    if magic.None? || typ.None? {
      return Err(StructError);
    }
    if magic.value != GENERATED_VALUE {
      return Err(BadMagic);
    }
    if typ.value != ST_ATTEST_QUOTE {
      return Err(BadType);
    }
    var o := 6;
    var size := ReadBE(b, o, 2);
    if size.None? {
      return Err(StructError);
    }
    o := o + 2 + size.value;
    assert ReadHeader(b) == Ok(o);
    r := UnmarshalNamed(b, o);
  }

  method UnmarshalNamed(b: Bytes, start: nat) returns (r: Result<AttestInfo>)
    ensures r == ReadNamed(b, start)
  {
    var extraData := SizedAt(b, start);
    if extraData.None? {
      return Err(StructError);
    }
    var o := SizedEnd(start, extraData.value);
    r := UnmarshalAttested(b, o, extraData.value);
  }

  method UnmarshalAttested(b: Bytes, start: nat, extraData: Bytes) returns (r: Result<AttestInfo>)
    ensures r == ReadAttested(extraData, DropAt(b, start))
  {
    var o := start;
    var clock := ReadClock(KeepTo(DropAt(b, o), 17));
    if clock.None? {
      return Err(StructError);
    }
    o := o + 17;
    o := o + 8;
    var digest := UnmarshalTpmsQuoteInfo(DropAt(b, o));
    assert DropAt(b, o) == DropAt(DropAt(b, start), 25);
    if digest.None? {
      return Err(StructError);
    }
    return Ok(AttestInfo(clock.value, extraData, digest.value));
  }

  // Reading what was written

  lemma SizedRoundTrip(b: Bytes, o: nat, s: Bytes)
    requires |s| < 0x1_0000
    ensures At(b, o, Sized(s)) <==> SizedAt(b, o) == Some(s)
  {
    Pow256Values();
    ReadIsWritten(b, o, 2, |s|);
    if At(b, o, Sized(s)) {
      AtParts(b, o, BE2(|s|), s);
    }
    if SizedAt(b, o) == Some(s) {
      AtJoined(b, o, BE2(|s|), s);
    }
  }

  lemma SelectionRoundTrip(b: Bytes, o: nat, s: Selection)
    requires SelectionFits(s)
    ensures o <= |b| && ReadSelection(DropAt(b, o)) == Some(s) <==> At(b, o, EncodeSelection(s))
  {
    Pow256Values();
    if o <= |b| {
      var c := b[o..];
      ReadIsWritten(c, 0, 2, s.hashAlg);
      var tail := [|s.select|] + s.select;
      if At(b, o, EncodeSelection(s)) {
        assert c[..|EncodeSelection(s)|] == b[o..o + |EncodeSelection(s)|];
        AtParts(c, 0, BE2(s.hashAlg), tail);
        AtParts(c, 2, [|s.select|], s.select);
        assert c[2..3] == [|s.select|];
      }
      if ReadSelection(c) == Some(s) {
        assert c[2..3] == [|s.select|];
        AtJoined(c, 2, [|s.select|], s.select);
        AtJoined(c, 0, BE2(s.hashAlg), tail);
        assert c[..|EncodeSelection(s)|] == b[o..o + |EncodeSelection(s)|];
      }
    }
  }

  function LastOfEach(ss: seq<Selection>): map<nat, Bytes> {
    if ss == [] then map[] else LastOfEach(ss[..|ss| - 1])[ss[|ss| - 1].hashAlg := ss[|ss| - 1].select]
  }

  /** The dictionary keeps the last selection of every hash. */
  lemma {:induction false} LastOfEachMeaning(ss: seq<Selection>, i: nat)
    requires i < |ss|
    ensures ss[i].hashAlg in LastOfEach(ss)
    ensures (forall j | i < j < |ss| :: ss[j].hashAlg != ss[i].hashAlg) ==> LastOfEach(ss)[ss[i].hashAlg] == ss[i].select
  {
    if i < |ss| - 1 {
      LastOfEachMeaning(ss[..|ss| - 1], i);
    }
  }

  lemma LastSelection(b: Bytes, ss: seq<Selection>, init: seq<Selection>, last: Selection)
    requires (forall s | s in ss :: SelectionFits(s)) && ss != [] && init == ss[..|ss| - 1] && last == ss[|ss| - 1]
    requires At(b, 4, EncodeSelections(ss))
    ensures SelectionFits(last) && forall s | s in init :: SelectionFits(s)
    ensures At(b, 4, EncodeSelections(init)) && At(b, 4 + |EncodeSelections(init)|, EncodeSelection(last))
    ensures |EncodeSelections(ss)| == |EncodeSelections(init)| + |EncodeSelection(last)|
  {
    assert last in ss;
    AtParts(b, 4, EncodeSelections(init), EncodeSelection(last));
  }

  lemma {:induction false} SelectionsDecode(b: Bytes, ss: seq<Selection>)
    requires (forall s | s in ss :: SelectionFits(s)) && At(b, 4, EncodeSelections(ss))
    ensures ReadSelections(b, |ss|) == Some((LastOfEach(ss), 4 + |EncodeSelections(ss)|))
    decreases |ss|
  {
    if ss != [] {
      var init, last := ss[..|ss| - 1], ss[|ss| - 1];
      var o: nat, o': nat := 4 + |EncodeSelections(init)|, 4 + |EncodeSelections(ss)|;
      LastSelection(b, ss, init, last);
      SelectionsDecode(b, init);
      SelectionStep(b, |init|, |ss|, LastOfEach(init), o, o', last);
    }
  }

  lemma SelectionStep(b: Bytes, count: nat, next: nat, m: map<nat, Bytes>, o: nat, o': nat, s: Selection)
    requires ReadSelections(b, count) == Some((m, o)) && SelectionFits(s) && At(b, o, EncodeSelection(s))
    requires next == count + 1 && o' == o + |EncodeSelection(s)|
    ensures ReadSelections(b, next) == Some((m[s.hashAlg := s.select], o'))
  {
    SelectionRoundTrip(b, o, s);
    assert SelectionEnd(o, s) == o';
  }

  /** Nothing but written selections is read. */
  lemma {:induction false} SelectionsWereWritten(b: Bytes, count: nat) returns (ss: seq<Selection>)
    requires |b| >= 4 && ReadSelections(b, count).Some?
    ensures |ss| == count && (forall s | s in ss :: SelectionFits(s)) && At(b, 4, EncodeSelections(ss))
    ensures ReadSelections(b, count).value.1 == 4 + |EncodeSelections(ss)|
  {
    if count == 0 {
      ss := [];
    } else {
      var init := SelectionsWereWritten(b, count - 1);
      var o := 4 + |EncodeSelections(init)|;
      var last := ReadSelection(DropAt(b, o)).value;
      ss := init + [last];
      assert ss[..|ss| - 1] == init;
      SelectionRoundTrip(b, o, last);
      AtJoined(b, 4, EncodeSelections(init), EncodeSelection(last));
    }
  }

  lemma QuoteInfoDecodes(b: Bytes, ss: seq<Selection>, pcrDigest: Bytes)
    requires |ss| < 0x1_0000_0000 && (forall s | s in ss :: SelectionFits(s)) && |pcrDigest| < 0x1_0000
    requires At(b, 0, EncodeQuoteInfo(ss, pcrDigest))
    ensures ReadQuoteInfo(b) == Some(pcrDigest) && ReadPcrSelections(b).value.0 == LastOfEach(ss)
  {
    Pow256Values();
    AtParts(b, 0, BE4(|ss|), EncodeSelections(ss) + Sized(pcrDigest));
    ReadIsWritten(b, 0, 4, |ss|);
    AtParts(b, 4, EncodeSelections(ss), Sized(pcrDigest));
    SelectionsDecode(b, ss);
    SizedRoundTrip(b, 4 + |EncodeSelections(ss)|, pcrDigest);
  }

  lemma QuoteInfoWasWritten(b: Bytes) returns (ss: seq<Selection>)
    requires ReadQuoteInfo(b).Some?
    ensures |ss| < 0x1_0000_0000 && (forall s | s in ss :: SelectionFits(s)) && |ReadQuoteInfo(b).value| < 0x1_0000
    ensures At(b, 0, EncodeQuoteInfo(ss, ReadQuoteInfo(b).value))
  {
    var count, digest := ReadBE(b, 0, 4).value, ReadQuoteInfo(b).value;
    ReadBound(b, 0, 4);
    ss := SelectionsWereWritten(b, count);
    QuoteInfoParts(b, ss, digest, 4 + |EncodeSelections(ss)|);
  }

  lemma QuoteInfoParts(b: Bytes, ss: seq<Selection>, digest: Bytes, o: nat)
    requires |ss| < 0x1_0000_0000 && (forall s | s in ss :: SelectionFits(s)) && |digest| < 0x1_0000
    requires ReadBE(b, 0, 4) == Some(|ss|) && At(b, 4, EncodeSelections(ss)) && o == 4 + |EncodeSelections(ss)|
    requires SizedAt(b, o) == Some(digest)
    ensures At(b, 0, EncodeQuoteInfo(ss, digest))
  {
    Pow256Values();
    ReadIsWritten(b, 0, 4, |ss|);
    SizedRoundTrip(b, o, digest);
    AtJoined(b, 4, EncodeSelections(ss), Sized(digest));
    AtJoined(b, 0, BE4(|ss|), EncodeSelections(ss) + Sized(digest));
  }

  lemma ClockSlices(c: ClockInfo)
    requires ClockFits(c)
    ensures var e := EncodeClock(c);
            e[..8] == BE8(c.clock) && e[8..12] == BE4(c.resetCount) && e[12..16] == BE4(c.restartCount) && e[16] == c.safe
  {
  }

  lemma ClockIsWritten(r: Bytes, c: ClockInfo)
    requires |r| == 17 && ClockFits(c)
    ensures r == EncodeClock(c) <==> ReadClock(r) == Some(c)
  {
    Pow256Values();
    ClockSlices(c);
    BERoundTrip(c.clock, 8);
    BERoundTrip(c.resetCount, 4);
    BERoundTrip(c.restartCount, 4);
    BEUnique(r[..8]);
    BEUnique(r[8..12]);
    BEUnique(r[12..16]);
    assert r == r[..8] + (r[8..12] + (r[12..16] + [r[16]]));
  }

  lemma ClockRoundTrip(b: Bytes, o: nat, c: ClockInfo)
    requires ClockFits(c)
    ensures At(b, o, EncodeClock(c)) <==> ReadClock(KeepTo(DropAt(b, o), 17)) == Some(c)
  {
    if o + 17 <= |b| {
      assert KeepTo(DropAt(b, o), 17) == b[o..o + 17];
      ClockIsWritten(b[o..o + 17], c);
    }
  }

  lemma DropKeeps(b: Bytes, o: nat, s: Bytes)
    requires o <= |b|
    ensures At(b, o, s) <==> At(DropAt(b, o), 0, s)
  {
    if o + |s| <= |b| {
      assert b[o..][..|s|] == b[o..o + |s|];
    }
  }

  lemma AttestedDecodes(b: Bytes, a: Attest)
    requires Fits(a) && At(b, 0, EncodeAttested(a))
    ensures ReadAttested(a.extraData, b) == Ok(AttestInfo(a.clock, a.extraData, a.pcrDigest))
  {
    var quote := EncodeQuoteInfo(a.selections, a.pcrDigest);
    AtParts(b, 0, EncodeClock(a.clock), a.firmware + quote);
    AtParts(b, 17, a.firmware, quote);
    ClockRoundTrip(b, 0, a.clock);
    DropKeeps(b, 25, quote);
    QuoteInfoDecodes(DropAt(b, 25), a.selections, a.pcrDigest);
  }

  lemma TaggedParts(b: Bytes, magic: nat, typ: nat, body: Bytes)
    requires magic < 0x1_0000_0000 && typ < 0x1_0000
    ensures At(b, 0, Tagged(magic, typ, body)) <==> ReadBE(b, 0, 4) == Some(magic) && ReadBE(b, 4, 2) == Some(typ) && At(b, 6, body)
  {
    Pow256Values();
    ReadIsWritten(b, 0, 4, magic);
    ReadIsWritten(b, 4, 2, typ);
    if At(b, 0, Tagged(magic, typ, body)) {
      AtParts(b, 0, BE4(magic), BE2(typ) + body);
      AtParts(b, 4, BE2(typ), body);
    }
    if At(b, 0, BE4(magic)) && At(b, 4, BE2(typ)) && At(b, 6, body) {
      AtJoined(b, 4, BE2(typ), body);
      AtJoined(b, 0, BE4(magic), BE2(typ) + body);
    }
  }

  lemma SizedParts(b: Bytes, o: nat, s: Bytes, rest: Bytes)
    requires |s| < 0x1_0000
    ensures At(b, o, Sized(s) + rest) <==> SizedAt(b, o) == Some(s) && At(b, o + 2 + |s|, rest)
  {
    SizedRoundTrip(b, o, s);
    if At(b, o, Sized(s) + rest) {
      AtParts(b, o, Sized(s), rest);
    }
    if At(b, o, Sized(s)) && At(b, o + 2 + |s|, rest) {
      AtJoined(b, o, Sized(s), rest);
    }
  }

  /** Where the parts of an attestation stand. */
  lemma AttestParts(b: Bytes, a: Attest, o: nat, o': nat)
    requires Fits(a) && o == 8 + |a.name| && o' == o + 2 + |a.extraData|
    ensures At(b, 0, EncodeAttest(a)) <==>
              && ReadBE(b, 0, 4) == Some(GENERATED_VALUE) && ReadBE(b, 4, 2) == Some(ST_ATTEST_QUOTE)
              && SizedAt(b, 6) == Some(a.name) && SizedAt(b, o) == Some(a.extraData) && At(b, o', EncodeAttested(a))
  {
    var attested := EncodeAttested(a);
    TaggedParts(b, GENERATED_VALUE, ST_ATTEST_QUOTE, Sized(a.name) + (Sized(a.extraData) + attested));
    SizedParts(b, 6, a.name, Sized(a.extraData) + attested);
    SizedParts(b, o, a.extraData, attested);
  }

  lemma ReadAttestIs(b: Bytes, name: Bytes, extraData: Bytes, o: nat, o': nat)
    requires ReadHeader(b) == Ok(o) && SizedAt(b, o) == Some(extraData) && o' == SizedEnd(o, extraData)
    ensures ReadAttest(b) == ReadAttested(extraData, DropAt(b, o'))
  {
    assert ReadAttest(b) == ReadNamed(b, o);
  }

  lemma HeaderParts(b: Bytes, o: nat)
    ensures ReadHeader(b) == Ok(o) <==>
              && ReadBE(b, 0, 4) == Some(GENERATED_VALUE) && ReadBE(b, 4, 2) == Some(ST_ATTEST_QUOTE)
              && ReadBE(b, 6, 2).Some? && o == 8 + ReadBE(b, 6, 2).value
  {
  }

  lemma AttestedAt(b: Bytes, o: nat, a: Attest)
    requires Fits(a) && At(b, o, EncodeAttested(a))
    ensures ReadAttested(a.extraData, DropAt(b, o)) == Ok(AttestInfo(a.clock, a.extraData, a.pcrDigest))
  {
    DropKeeps(b, o, EncodeAttested(a));
    AttestedDecodes(DropAt(b, o), a);
  }

  lemma AttestAt(b: Bytes, a: Attest)
    requires Fits(a) && At(b, 0, EncodeAttest(a))
    ensures ReadAttest(b) == Ok(AttestInfo(a.clock, a.extraData, a.pcrDigest))
  {
    var o := 8 + |a.name|;
    var o' := SizedEnd(o, a.extraData);
    AttestParts(b, a, o, o');
    HeaderParts(b, o);
    AttestedAt(b, o', a);
    ReadAttestIs(b, a.name, a.extraData, o, o');
  }

  /** Whatever follows it, an attestation is read back: the nonce, the clock and the PCR digest. */
  lemma AttestDecodes(a: Attest, junk: Bytes)
    requires Fits(a)
    ensures ReadAttest(EncodeAttest(a) + junk) == Ok(AttestInfo(a.clock, a.extraData, a.pcrDigest))
  {
    var e := EncodeAttest(a);
    assert (e + junk)[..|e|] == e;
    AttestAt(e + junk, a);
  }

  lemma AttestedWasWritten(b: Bytes, name: Bytes, extraData: Bytes) returns (a: Attest)
    requires |name| < 0x1_0000 && |extraData| < 0x1_0000 && ReadAttested(extraData, b).Ok?
    ensures Fits(a) && a.name == name && a.extraData == extraData && At(b, 0, EncodeAttested(a))
    ensures ReadAttested(extraData, b) == Ok(AttestInfo(a.clock, extraData, a.pcrDigest))
  {
    var info, q := ReadAttested(extraData, b).value, DropAt(b, 25);
    ClockRoundTrip(b, 0, info.clockInfo);
    var ss := QuoteInfoWasWritten(q);
    a := Attest(name, extraData, info.clockInfo, b[17..25], ss, info.pcrDigest);
    var quote := EncodeQuoteInfo(ss, info.pcrDigest);
    DropKeeps(b, 25, quote);
    AtJoined(b, 17, a.firmware, quote);
    AtJoined(b, 0, EncodeClock(a.clock), a.firmware + quote);
  }

  lemma HeaderWasWritten(b: Bytes) returns (name: Bytes, extraData: Bytes, o: nat, o': nat)
    requires ReadAttest(b).Ok?
    ensures ReadBE(b, 0, 4) == Some(GENERATED_VALUE) && ReadBE(b, 4, 2) == Some(ST_ATTEST_QUOTE)
    ensures SizedAt(b, 6) == Some(name) && o == 8 + |name|
    ensures SizedAt(b, o) == Some(extraData) && o' == o + 2 + |extraData| <= |b|
    ensures ReadAttest(b) == ReadAttested(extraData, DropAt(b, o'))
  {
    o := ReadHeader(b).value;
    HeaderParts(b, o);
    extraData := SizedAt(b, o).value;
    name := SizedAt(b, 6).value;
    o' := SizedEnd(o, extraData);
    ReadAttestIs(b, name, extraData, o, o');
  }

  /** And nothing else is read: what parses is a written attestation with something behind it. */
  lemma AttestWasWritten(b: Bytes) returns (a: Attest, junk: Bytes)
    requires ReadAttest(b).Ok?
    ensures Fits(a) && b == EncodeAttest(a) + junk
    ensures ReadAttest(b) == Ok(AttestInfo(a.clock, a.extraData, a.pcrDigest))
  {
    var name, extraData, o, o' := HeaderWasWritten(b);
    a := AttestedWasWritten(DropAt(b, o'), name, extraData);
    DropKeeps(b, o', EncodeAttested(a));
    AttestParts(b, a, o, o');
    junk := Behind(b, EncodeAttest(a));
  }

  lemma Behind(b: Bytes, s: Bytes) returns (junk: Bytes)
    requires At(b, 0, s)
    ensures b == s + junk
  {
    junk := b[|s|..];
    assert b == b[0..|s|] + junk;
  }
}
