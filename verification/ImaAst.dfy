/** IMA measurement list lines: the ASCII parser and the template bytes a PCR is extended with. */
module ImaAst {
  import opened Bytes
  import opened Crypto

  const TCG_EVENT_NAME_LEN_MAX := 255
  const SHA_DIGEST_LEN := 20
  const MD5_DIGEST_LEN := 16
  const COLON: byte := 58

  datatype Digest = Digest(hash: Bytes, algorithm: string, legacy: bool)
  datatype Name = Name(name: string, legacy: bool)
  datatype Mode =
    | Ima(digest: Digest, path: Name)
    | ImaNg(digest: Digest, path: Name)
    | ImaSig(digest: Digest, path: Name, signature: Option<Bytes>)
    | ImaBuf(digest: Digest, path: Name, data: Bytes)

  datatype Entry = Entry(pcr: string, imaTemplateHash: Bytes, pcrTemplateHash: Bytes, mode: Mode, bytes: Bytes)

  /** `EntryRaises` is any exception other than the parser's own error. */
  datatype Parsed = Parsed(entry: Entry) | ParserError | EntryRaises

  // Template bytes; None is `struct.error`

  /** A little-endian 32-bit length and the data. */
  function LengthPrefixed(b: Bytes): (r: Option<Bytes>)
    ensures r.Some? <==> |b| < 0x1_0000_0000
  {
    Pow256Values();
    if |b| < 0x1_0000_0000 then Some(ToLE(|b|, 4) + b) else None
  }

  /** The packed width is the number of characters, so a longer encoding is cut. */
  function PackedName(s: string): (r: Bytes)
    ensures |r| == |s|
  {
    KeepTo(Utf8(s), |s|)
  }

  function DigestBody(d: Digest): Bytes {
    PackedName(d.algorithm) + [COLON, 0] + d.hash
  }

  function DigestStruct(d: Digest): Option<Bytes> {
    if d.legacy then Some(d.hash) else LengthPrefixed(DigestBody(d))
  }

  function NameStruct(n: Name): Option<Bytes> {
    var name := Utf8(n.name);
    if n.legacy then
      if |name| <= TCG_EVENT_NAME_LEN_MAX then Some(name + [0] + Zeros(TCG_EVENT_NAME_LEN_MAX - |name|)) else None
    else LengthPrefixed(name + [0])
  }

  /** The template's third field, where it has one: a missing signature is packed like empty data. */
  function Extra(m: Mode): Option<Bytes> {
    match m
    case Ima(_, _) => None
    case ImaNg(_, _) => None
    case ImaSig(_, _, signature) => if signature.Some? then signature else Some([])
    case ImaBuf(_, _, data) => Some(data)
  }

  /** The packed third field, nothing where the template has none. */
  function ExtraStruct(m: Mode): Option<Bytes> {
    if Extra(m).Some? then LengthPrefixed(Extra(m).value) else Some([])
  }

  function ModeBytes(m: Mode): Option<Bytes> {
    var digest, name := DigestStruct(m.digest), NameStruct(m.path);
    var extra := ExtraStruct(m);
    if digest.Some? && name.Some? && extra.Some? then Some(digest.value + name.value + extra.value) else None
  }

  // Parsing

  /** Index of the first `c` in `s`, or |s|. */
  function IndexOf(s: string, c: char): (i: nat)
    ensures i <= |s| && (i < |s| ==> s[i] == c) && c !in s[..i]
    ensures i == |s| <==> c !in s
  {
    if s == "" then 0 else if s[0] == c then 0
    else
      assert s == [s[0]] + s[1..];
      var i := IndexOf(s[1..], c);
      assert s[..1 + i] == [s[0]] + s[1..][..i];
      1 + i
  }

  /** `s.split(c, maxsplit)` */
  function Split(s: string, c: char, maxsplit: nat): (r: seq<string>)
    ensures 1 <= |r| <= maxsplit + 1
  {
    var i := IndexOf(s, c);
    if maxsplit == 0 || i == |s| then [s] else [s[..i]] + Split(s[i + 1..], c, maxsplit - 1)
  }

  function ParseDigest(s: string, legacy: bool): Option<Digest> {
    var tokens := Split(s, ':', |s|);
    if |tokens| == 1 then
      var hash := FromHex(tokens[0]);
      if hash.None? then None
      else if |hash.value| == SHA_DIGEST_LEN then Some(Digest(hash.value, "sha1", legacy))
      else if |hash.value| == MD5_DIGEST_LEN then Some(Digest(hash.value, "md5", legacy))
      else None
    else if |tokens| == 2 then
      var hash := FromHex(tokens[1]);
      if hash.None? then None else Some(Digest(hash.value, tokens[0], legacy))
    else None
  }

  /** A nine-byte header whose last two bytes are the length of what follows. */
  predicate WellFormedSignature(b: Bytes) {
    |b| >= 9 && 9 + FromBE(b[7..9]) == |b|
  }

  function ParseSignature(s: string): Option<Bytes> {
    var b := FromHex(s);
    if b.Some? && WellFormedSignature(b.value) then b else None
  }

  datatype Template = ImaT | ImaNgT | ImaSigT | ImaBufT

  function LookupTemplate(name: string): Option<Template> {
    if name == "ima" then Some(ImaT)
    else if name == "ima-ng" then Some(ImaNgT)
    else if name == "ima-sig" then Some(ImaSigT)
    else if name == "ima-buf" then Some(ImaBufT)
    else None
  }

  function ParseTwoFields(legacy: bool, tokens: seq<string>): Option<Mode> {
    if |tokens| != 2 then None
    else
      var digest, path := ParseDigest(tokens[0], legacy), Name(tokens[1], legacy);
      if digest.None? then None
      else if legacy then Some(Ima(digest.value, path)) else Some(ImaNg(digest.value, path))
  }

  function ParseThreeFields(signed: bool, tokens: seq<string>): Option<Mode> {
    if |tokens| != 3 then None
    else
      var digest, path := ParseDigest(tokens[0], false), Name(tokens[1], false);
      if digest.None? then None
      else if signed then Some(ImaSig(digest.value, path, ParseSignature(tokens[2])))
      else
        var buffer := FromHex(tokens[2]);
        if buffer.None? then None else Some(ImaBuf(digest.value, path, buffer.value))
  }

  function ParseMode(template: Template, data: string): Option<Mode> {
    match template
    case ImaT => ParseTwoFields(true, Split(data, ' ', 1))
    case ImaNgT => ParseTwoFields(false, Split(data, ' ', 1))
    case ImaSigT => ParseThreeFields(true, Split(data, ' ', 2))
    case ImaBufT => ParseThreeFields(false, Split(data, ' ', 2))
  }

  /** A start-value template hash marks a violation (time of measure, time of use), extended as all ones. */
  function MakeEntry(c: Crypto, pcr: string, templateHash: Bytes, mode: Mode, imaAlg: HashAlg, pcrAlg: HashAlg): Parsed {
    var bytes := ModeBytes(mode);
    if bytes.None? then EntryRaises
    else if templateHash == StartHash(imaAlg) then
      Parsed(Entry(pcr, FfHash(imaAlg), FfHash(pcrAlg), mode, bytes.value))
    else
      Parsed(Entry(pcr, templateHash, c.hash(pcrAlg, bytes.value), mode, bytes.value))
  }

  function ParseEntry(c: Crypto, line: string, imaAlg: HashAlg, pcrAlg: HashAlg): Parsed {
    var tokens := Split(line, ' ', 3);
    if |tokens| != 4 then ParserError
    else
      var templateHash, template := FromHex(tokens[1]), LookupTemplate(tokens[2]);
      if templateHash.None? || template.None? then ParserError
      else
        var mode := ParseMode(template.value, tokens[3]);
        if mode.None? then ParserError
        else MakeEntry(c, tokens[0], templateHash.value, mode.value, imaAlg, pcrAlg)
  }

  // Which lines raise

  /** A field is too long for its place in the template bytes. */
  predicate TooLong(m: Mode) {
    || (m.path.legacy && |Utf8(m.path.name)| > TCG_EVENT_NAME_LEN_MAX)
    || (!m.path.legacy && |Utf8(m.path.name)| + 1 >= 0x1_0000_0000)
    || (!m.digest.legacy && |m.digest.algorithm| + 2 + |m.digest.hash| >= 0x1_0000_0000)
    || (Extra(m).Some? && |Extra(m).value| >= 0x1_0000_0000)
  }

  /** The mode a line shows: four fields, a hexadecimal hash, a known template, and data that fit it. */
  function LineMode(line: string): Option<Mode> {
    var tokens := Split(line, ' ', 3);
    if |tokens| == 4 && FromHex(tokens[1]).Some? && LookupTemplate(tokens[2]).Some? then
      ParseMode(LookupTemplate(tokens[2]).value, tokens[3])
    else None
  }

  /** The parser's own error is given for a line without a mode, any other for one whose mode cannot be packed. */
  lemma ParserRaisesExactly(c: Crypto, line: string, imaAlg: HashAlg, pcrAlg: HashAlg)
    ensures ParseEntry(c, line, imaAlg, pcrAlg).EntryRaises? <==> LineMode(line).Some? && TooLong(LineMode(line).value)
    ensures ParseEntry(c, line, imaAlg, pcrAlg).ParserError? <==> LineMode(line).None?
  {
    if LineMode(line).Some? {
      PackedExactly(LineMode(line).value);
    }
  }

  lemma PackedExactly(m: Mode)
    ensures ModeBytes(m).None? <==> TooLong(m)
  {
  }

  // Template bytes determine the fields

  /** Modes whose fields carry their own length, with an algorithm name the parser can deliver. */
  predicate SelfDelimiting(m: Mode) {
    && !m.Ima? && !m.digest.legacy && !m.path.legacy
    && Ascii(m.digest.algorithm) && ':' !in m.digest.algorithm
  }

  /** What a relying party reads from an entry: algorithm, digest, path, and signature or buffer. */
  datatype Fields = Fields(algorithm: string, hash: Bytes, path: string, extra: Option<Bytes>)

  function FieldsOf(m: Mode): Fields {
    Fields(m.digest.algorithm, m.digest.hash, m.path.name, Extra(m))
  }

  lemma LengthPrefixUnique(a: Bytes, b: Bytes, x: Bytes, y: Bytes)
    requires LengthPrefixed(a).Some? && LengthPrefixed(b).Some?
    requires LengthPrefixed(a).value + x == LengthPrefixed(b).value + y
    ensures a == b && x == y
  {
    Pow256Values();
    var l, r := LengthPrefixed(a).value + x, LengthPrefixed(b).value + y;
    assert l[..4] == ToLE(|a|, 4) && r[..4] == ToLE(|b|, 4);
    LEInjective(|a|, |b|, 4);
    assert l[4..4 + |a|] == a && r[4..4 + |b|] == b;
    assert l[4 + |a|..] == x && r[4 + |b|..] == y;
  }

  function FirstIndex(b: Bytes, v: byte): nat {
    if b == [] then 0 else if b[0] == v then 0 else 1 + FirstIndex(b[1..], v)
  }

  lemma {:induction false} FirstIndexAt(a: Bytes, v: byte, x: Bytes)
    requires v !in a
    ensures FirstIndex(a + [v] + x, v) == |a|
  {
    if a != [] {
      assert (a + [v] + x)[1..] == a[1..] + [v] + x;
      FirstIndexAt(a[1..], v, x);
    }
  }

  lemma FirstColonUnique(a: Bytes, b: Bytes, x: Bytes, y: Bytes)
    requires a + [COLON, 0] + x == b + [COLON, 0] + y
    requires COLON !in a && COLON !in b
    ensures a == b && x == y
  {
    var l, r := a + [COLON, 0] + x, b + [COLON, 0] + y;
    assert l == a + [COLON] + ([0] + x) && r == b + [COLON] + ([0] + y);
    FirstIndexAt(a, COLON, [0] + x);
    FirstIndexAt(b, COLON, [0] + y);
    assert l[..|a|] == a && r[..|b|] == b;
    assert l[|a| + 2..] == x && r[|b| + 2..] == y;
  }

  lemma DigestBodyUnique(d: Digest, e: Digest)
    requires Ascii(d.algorithm) && ':' !in d.algorithm
    requires Ascii(e.algorithm) && ':' !in e.algorithm
    requires DigestBody(d) == DigestBody(e)
    ensures d.algorithm == e.algorithm && d.hash == e.hash
  {
    Utf8OfAscii(d.algorithm);
    Utf8OfAscii(e.algorithm);
    var a, b := Utf8(d.algorithm), Utf8(e.algorithm);
    assert forall i | 0 <= i < |a| :: d.algorithm[i] in d.algorithm;
    assert forall i | 0 <= i < |b| :: e.algorithm[i] in e.algorithm;
    assert DigestBody(d) == a + [COLON, 0] + d.hash && DigestBody(e) == b + [COLON, 0] + e.hash;
    FirstColonUnique(a, b, d.hash, e.hash);
    Utf8Injective(d.algorithm, e.algorithm);
  }

  lemma NullEnded(a: Bytes, b: Bytes)
    requires a + [0] == b + [0]
    ensures a == b
  {
    assert (a + [0])[..|a|] == a && (b + [0])[..|b|] == b;
  }

  lemma NameUnique(m: Name, n: Name, x: Bytes, y: Bytes)
    requires !m.legacy && !n.legacy && NameStruct(m).Some? && NameStruct(n).Some?
    requires NameStruct(m).value + x == NameStruct(n).value + y
    ensures m.name == n.name && x == y
  {
    LengthPrefixUnique(Utf8(m.name) + [0], Utf8(n.name) + [0], x, y);
    NullEnded(Utf8(m.name), Utf8(n.name));
    Utf8Injective(m.name, n.name);
  }

  lemma ExtraUnique(m: Mode, n: Mode)
    requires ExtraStruct(m).Some? && ExtraStruct(m) == ExtraStruct(n)
    ensures Extra(m) == Extra(n)
  {
    if Extra(m).Some? && Extra(n).Some? {
      LengthPrefixUnique(Extra(m).value, Extra(n).value, [], []);
    }
  }

  lemma ModeBytesParts(m: Mode)
    requires ModeBytes(m).Some?
    ensures DigestStruct(m.digest).Some? && NameStruct(m.path).Some? && ExtraStruct(m).Some?
    ensures ModeBytes(m).value == DigestStruct(m.digest).value + (NameStruct(m.path).value + ExtraStruct(m).value)
  {
  }

  /** Equal template bytes come from equal fields, and from nothing else. */
  lemma BytesDetermineFields(m: Mode, n: Mode)
    requires SelfDelimiting(m) && SelfDelimiting(n)
    requires ModeBytes(m).Some? && ModeBytes(n).Some?
    ensures ModeBytes(m) == ModeBytes(n) <==> FieldsOf(m) == FieldsOf(n)
  {
    if FieldsOf(m) == FieldsOf(n) {
      FieldsDetermineBytes(m, n);
    }
    if ModeBytes(m) == ModeBytes(n) {
      EqualBytesEqualFields(m, n);
    }
  }

  lemma FieldsDetermineBytes(m: Mode, n: Mode)
    requires SelfDelimiting(m) && SelfDelimiting(n)
    requires FieldsOf(m) == FieldsOf(n)
    ensures ModeBytes(m) == ModeBytes(n)
  {
    assert m.digest == n.digest && m.path == n.path;
    assert ExtraStruct(m) == ExtraStruct(n);
  }

  lemma EqualBytesEqualFields(m: Mode, n: Mode)
    requires SelfDelimiting(m) && SelfDelimiting(n)
    requires ModeBytes(m).Some? && ModeBytes(m) == ModeBytes(n)
    ensures FieldsOf(m) == FieldsOf(n)
  {
    ModeBytesParts(m);
    ModeBytesParts(n);
    var x, y := NameStruct(m.path).value, NameStruct(n.path).value;
    var u, v := ExtraStruct(m).value, ExtraStruct(n).value;
    LengthPrefixUnique(DigestBody(m.digest), DigestBody(n.digest), x + u, y + v);
    DigestBodyUnique(m.digest, n.digest);
    NameUnique(m.path, n.path, u, v);
    ExtraUnique(m, n);
  }

  /** The template name itself is not bound: a signature and a buffer with the same content extend alike. */
  lemma TemplateNameIsNotBound(d: Digest, path: Name, data: Bytes)
    ensures ModeBytes(ImaSig(d, path, Some(data))) == ModeBytes(ImaBuf(d, path, data))
    ensures ImaSig(d, path, Some(data)) != ImaBuf(d, path, data)
  {
  }

  // Which algorithm names are packed without loss

  /** Another character of the same block of 64. */
  function Neighbour(c: char): (d: char)
    requires c as int >= 0x80
    ensures d != c && d as int / 0x40 == c as int / 0x40
  {
    var n := c as int;
    if n % 0x40 == 0 then (n + 1) as char else (n - 1) as char
  }

  /** Only the last byte of a code tells the characters of a block apart. */
  lemma SameBlockSameLead(c: char, d: char)
    requires c as int / 0x40 == d as int / 0x40 && c as int >= 0x80
    ensures d as int >= 0x80 && EncodeChar(d)[0] == EncodeChar(c)[0]
  {
    var m, n := c as int, d as int;
    assert m / 0x1000 == m / 0x40 / 0x40 && n / 0x1000 == n / 0x40 / 0x40;
    assert m / 0x4_0000 == m / 0x40 / 0x1000 && n / 0x4_0000 == n / 0x40 / 0x1000;
  }

  lemma {:induction false} Utf8Snoc(s: string, c: char)
    ensures Utf8(s + [c]) == Utf8(s) + EncodeChar(c)
  {
    if s == "" {
      assert s + [c] == [c] && [c][1..] == "";
    } else {
      assert (s + [c])[1..] == s[1..] + [c];
      Utf8Snoc(s[1..], c);
    }
  }

  /** A name whose last character is cut off entirely. */
  lemma LastIsLost(init: string, c: char)
    requires |Utf8(init)| > |init|
    ensures PackedName(init + [c]) == Utf8(init)[..|init| + 1]
  {
    Utf8Snoc(init, c);
  }

  /** A name of which only the first byte of the last character is kept. */
  lemma LastIsCut(init: string, c: char)
    requires |Utf8(init)| == |init|
    ensures PackedName(init + [c]) == Utf8(init) + [EncodeChar(c)[0]]
  {
    Utf8Snoc(init, c);
  }

  /** The last character of a name beyond ASCII is cut or lost, so another name is packed alike. */
  lemma NonAsciiHasTwin(a: string) returns (b: string)
    requires !Ascii(a) && ':' !in a
    ensures b != a && ':' !in b && PackedName(b) == PackedName(a)
  {
    Utf8OfAscii(a);
    var init, c := a[..|a| - 1], a[|a| - 1];
    assert a == init + [c];
    Utf8Snoc(init, c);
    if |Utf8(init)| > |init| {
      var d := if c == 'a' then 'b' else 'a';
      LastIsLost(init, c);
      LastIsLost(init, d);
      b := init + [d];
      assert b[|init|] != a[|init|];
    } else {
      assert |EncodeChar(c)| > 1;
      var d := Neighbour(c);
      SameBlockSameLead(c, d);
      LastIsCut(init, c);
      LastIsCut(init, d);
      b := init + [d];
      assert b[|init|] != a[|init|];
    }
  }

  /** Bytes below 0x80 for as many characters as there are leave no room for a longer encoding. */
  lemma {:induction false} LowBytesAreAscii(s: string)
    requires forall i | 0 <= i < |s| :: Utf8(s)[i] < 0x80
    ensures Ascii(s)
  {
    if s != "" {
      var c, rest := s[0], s[1..];
      assert Utf8(s)[0] == EncodeChar(c)[0];
      assert EncodeChar(c) == [c as int];
      assert forall i | 0 <= i < |rest| :: Utf8(rest)[i] == Utf8(s)[i + 1];
      LowBytesAreAscii(rest);
      assert forall x | x in s :: x == c || x in rest;
    }
  }

  lemma AsciiHasNoTwin(a: string, b: string)
    requires Ascii(a) && PackedName(b) == PackedName(a)
    ensures a == b
  {
    Utf8OfAscii(a);
    assert forall i | 0 <= i < |a| :: a[i] in a;
    assert forall i | 0 <= i < |b| :: Utf8(b)[i] == PackedName(b)[i];
    LowBytesAreAscii(b);
    Utf8OfAscii(b);
    Utf8Injective(a, b);
  }

  /** An algorithm name can be told from its packed bytes exactly when it is ASCII. */
  lemma AsciiIsUnambiguous(a: string)
    requires ':' !in a
    ensures Ascii(a) <==> forall b: string :: ':' !in b && PackedName(b) == PackedName(a) ==> a == b
  {
    if Ascii(a) {
      forall b: string | ':' !in b && PackedName(b) == PackedName(a)
        ensures a == b
      {
        AsciiHasNoTwin(a, b);
      }
    } else {
      var b := NonAsciiHasTwin(a);
    }
  }

  lemma ParsedDigest(s: string, legacy: bool)
    requires ParseDigest(s, legacy).Some?
    ensures ':' !in ParseDigest(s, legacy).value.algorithm && ParseDigest(s, legacy).value.legacy == legacy
  {
  }

  /** What the parser delivers is free of colons and, but for the legacy template, carries its lengths. */
  lemma ParsedModeIsColonFree(template: Template, data: string)
    requires ParseMode(template, data).Some?
    ensures var m := ParseMode(template, data).value;
            && ':' !in m.digest.algorithm
            && (m.Ima? <==> template.ImaT?)
            && (m.digest.legacy <==> template.ImaT?) && (m.path.legacy <==> template.ImaT?)
  {
    var tokens := Split(data, ' ', if template.ImaT? || template.ImaNgT? then 1 else 2);
    ParsedDigest(tokens[0], template.ImaT?);
  }

  // The PCR as a fold over template hashes

  function PcrFold(c: Crypto, alg: HashAlg, start: Bytes, templates: seq<Bytes>): Bytes {
    if templates == [] then start
    else
      var init := templates[..|templates| - 1];
      c.hash(alg, PcrFold(c, alg, start, init) + templates[|templates| - 1])
  }

  lemma {:induction false} FoldSize(c: Crypto, alg: HashAlg, start: Bytes, ts: seq<Bytes>)
    requires HashHasSize(c, alg) && |start| == Size(alg)
    ensures |PcrFold(c, alg, start, ts)| == Size(alg)
  {
  }

  lemma {:induction false} FoldSplit(c: Crypto, alg: HashAlg, start: Bytes, ts: seq<Bytes>, us: seq<Bytes>)
    ensures PcrFold(c, alg, start, ts + us) == PcrFold(c, alg, PcrFold(c, alg, start, ts), us)
  {
    if us == [] {
      assert ts + us == ts;
    } else {
      FoldSplit(c, alg, start, ts, us[..|us| - 1]);
      assert (ts + us)[..|ts + us| - 1] == ts + us[..|us| - 1];
    }
  }

  /** What is hashed when a fold from `start` takes in template `k`. */
  function FoldInput(c: Crypto, alg: HashAlg, start: Bytes, ts: seq<Bytes>, k: nat): Bytes
    requires k < |ts|
  {
    PcrFold(c, alg, start, ts[..k]) + ts[k]
  }

  /** Two folds hash different inputs to the same value when each takes in its template `k`. */
  ghost predicate ClashAt(c: Crypto, alg: HashAlg, s: Bytes, ts: seq<Bytes>, t: Bytes, us: seq<Bytes>, k: nat) {
    && k < |ts| && k < |us|
    && FoldInput(c, alg, s, ts, k) != FoldInput(c, alg, t, us, k)
    && c.hash(alg, FoldInput(c, alg, s, ts, k)) == c.hash(alg, FoldInput(c, alg, t, us, k))
  }

  lemma FoldIsHash(c: Crypto, alg: HashAlg, start: Bytes, ts: seq<Bytes>, k: nat)
    requires k < |ts|
    ensures PcrFold(c, alg, start, ts[..k + 1]) == c.hash(alg, FoldInput(c, alg, start, ts, k))
  {
    assert ts[..k + 1][..k] == ts[..k];
  }

  lemma ClashBefore(c: Crypto, alg: HashAlg, s: Bytes, ts: seq<Bytes>, t: Bytes, us: seq<Bytes>, n: nat, k: nat)
    requires n <= |ts| && n <= |us| && ClashAt(c, alg, s, ts[..n], t, us[..n], k)
    ensures ClashAt(c, alg, s, ts, t, us, k)
  {
    assert ts[..n][..k] == ts[..k] && us[..n][..k] == us[..k];
  }

  /** Equally long folds that meet have met all along, or the hash maps two different inputs they show to one value. */
  lemma {:induction false} FoldInjective(c: Crypto, alg: HashAlg, s: Bytes, t: Bytes, ts: seq<Bytes>, us: seq<Bytes>)
    requires HashHasSize(c, alg) && |s| == |t| == Size(alg) && |ts| == |us|
    requires PcrFold(c, alg, s, ts) == PcrFold(c, alg, t, us)
    ensures (s == t && ts == us) || exists k: nat :: ClashAt(c, alg, s, ts, t, us, k)
    decreases |ts|
  {
    if ts != [] && !ClashAt(c, alg, s, ts, t, us, |ts| - 1) {
      var n := |ts| - 1;
      var p, q := PcrFold(c, alg, s, ts[..n]), PcrFold(c, alg, t, us[..n]);
      FoldSize(c, alg, s, ts[..n]);
      FoldSize(c, alg, t, us[..n]);
      assert (p + ts[n])[..|p|] == p && (q + us[n])[..|q|] == q;
      assert (p + ts[n])[|p|..] == ts[n] && (q + us[n])[|q|..] == us[n];
      FoldInjective(c, alg, s, t, ts[..n], us[..n]);
      if k: nat :| ClashAt(c, alg, s, ts[..n], t, us[..n], k) {
        ClashBefore(c, alg, s, ts, t, us, n, k);
      } else {
        assert ts == ts[..n] + [ts[n]] && us == us[..n] + [us[n]];
      }
    }
  }

  /**
   * What it takes for a fold to come back after `d` more templates: one of the first values is the start value
   * again, or two different inputs, `d` templates apart, have the same hash.
   */
  ghost predicate Recurs(c: Crypto, alg: HashAlg, ts: seq<Bytes>, i: nat, d: nat) {
    && 0 < d && i + d <= |ts|
    && (c.hash(alg, FoldInput(c, alg, StartHash(alg), ts, d - 1)) == StartHash(alg)
        || exists k: nat :: k < i && ClashApart(c, alg, ts, k, d))
  }

  ghost predicate ClashApart(c: Crypto, alg: HashAlg, ts: seq<Bytes>, k: nat, d: nat) {
    && k + d < |ts|
    && FoldInput(c, alg, StartHash(alg), ts, k) != FoldInput(c, alg, StartHash(alg), ts, k + d)
    && c.hash(alg, FoldInput(c, alg, StartHash(alg), ts, k)) == c.hash(alg, FoldInput(c, alg, StartHash(alg), ts, k + d))
  }

  lemma ClashIsApart(c: Crypto, alg: HashAlg, ts: seq<Bytes>, i: nat, d: nat, tail: seq<Bytes>, k: nat)
    requires i + d <= |ts| && tail == ts[d..i + d]
    requires ClashAt(c, alg, StartHash(alg), ts[..i], PcrFold(c, alg, StartHash(alg), ts[..d]), tail, k)
    ensures k < i && ClashApart(c, alg, ts, k, d)
  {
    assert ts[..i][..k] == ts[..k] && ts[..d] + tail[..k] == ts[..k + d];
    FoldSplit(c, alg, StartHash(alg), ts[..d], tail[..k]);
  }

  /** A PCR value comes back at another length only where the log itself shows a clash or a way back to the start. */
  lemma FoldNeverRepeats(c: Crypto, alg: HashAlg, ts: seq<Bytes>, i: nat, j: nat, d: nat)
    requires HashHasSize(c, alg) && i < j == i + d && j <= |ts|
    requires PcrFold(c, alg, StartHash(alg), ts[..i]) == PcrFold(c, alg, StartHash(alg), ts[..j])
    ensures Recurs(c, alg, ts, i, d)
  {
    var start, tail := StartHash(alg), ts[d..j];
    var head := PcrFold(c, alg, start, ts[..d]);
    assert ts[..j] == ts[..d] + tail;
    FoldSplit(c, alg, start, ts[..d], tail);
    FoldSize(c, alg, start, ts[..d]);
    FoldInjective(c, alg, start, head, ts[..i], tail);
    if k: nat :| ClashAt(c, alg, start, ts[..i], head, tail, k) {
      ClashIsApart(c, alg, ts, i, d, tail, k);
    } else {
      FoldIsHash(c, alg, start, ts, d - 1);
    }
  }

  /** The template hashes a list of entries extends the PCR with. */
  function TemplatesOf(es: seq<Entry>): (r: seq<Bytes>)
    ensures |r| == |es|
  {
    seq(|es|, i requires 0 <= i < |es| => es[i].pcrTemplateHash)
  }

  /** An entry as `ParseEntry` leaves it when it is no violation. */
  ghost predicate Hashed(c: Crypto, alg: HashAlg, e: Entry) {
    && ModeBytes(e.mode) == Some(e.bytes)
    && e.pcrTemplateHash == c.hash(alg, e.bytes)
    && SelfDelimiting(e.mode)
  }

  /** Every line that parses as a self-delimiting entry and is shown as no violation is such an entry. */
  lemma ParsedIsHashed(c: Crypto, line: string, imaAlg: HashAlg, pcrAlg: HashAlg)
    requires ParseEntry(c, line, imaAlg, pcrAlg).Parsed?
    requires var e := ParseEntry(c, line, imaAlg, pcrAlg).entry;
             e.imaTemplateHash != FfHash(imaAlg) && !e.mode.Ima? && Ascii(e.mode.digest.algorithm)
    ensures Hashed(c, pcrAlg, ParseEntry(c, line, imaAlg, pcrAlg).entry)
  {
    var tokens := Split(line, ' ', 3);
    ParsedModeIsColonFree(LookupTemplate(tokens[2]).value, tokens[3]);
  }

  /** Two logs bring down the hash: at entry `k` they show two different inputs, of the PCR or of a template, with one hash. */
  ghost predicate LogsClash(c: Crypto, alg: HashAlg, es: seq<Entry>, fs: seq<Entry>, k: nat) {
    && k < |es| && k < |fs|
    && (ClashAt(c, alg, StartHash(alg), TemplatesOf(es), StartHash(alg), TemplatesOf(fs), k)
        || (es[k].bytes != fs[k].bytes && c.hash(alg, es[k].bytes) == c.hash(alg, fs[k].bytes)))
  }

  /** Two equally long logs with the same PCR value agree on every field of every entry, or show two inputs that clash. */
  lemma LogBinding(c: Crypto, alg: HashAlg, es: seq<Entry>, fs: seq<Entry>)
    requires HashHasSize(c, alg) && |es| == |fs|
    requires forall i | 0 <= i < |es| :: Hashed(c, alg, es[i]) && Hashed(c, alg, fs[i])
    requires PcrFold(c, alg, StartHash(alg), TemplatesOf(es)) == PcrFold(c, alg, StartHash(alg), TemplatesOf(fs))
    ensures (forall i | 0 <= i < |es| :: FieldsOf(es[i].mode) == FieldsOf(fs[i].mode))
            || exists k: nat :: LogsClash(c, alg, es, fs, k)
  {
    var ts, us := TemplatesOf(es), TemplatesOf(fs);
    FoldInjective(c, alg, StartHash(alg), StartHash(alg), ts, us);
    if k: nat :| ClashAt(c, alg, StartHash(alg), ts, StartHash(alg), us, k) {
      assert LogsClash(c, alg, es, fs, k);
    } else {
      forall i | 0 <= i < |es|
        ensures FieldsOf(es[i].mode) == FieldsOf(fs[i].mode) || LogsClash(c, alg, es, fs, i)
      {
        SameTemplate(c, alg, es, fs, i);
      }
    }
  }

  lemma SameTemplate(c: Crypto, alg: HashAlg, es: seq<Entry>, fs: seq<Entry>, i: nat)
    requires i < |es| && i < |fs| && Hashed(c, alg, es[i]) && Hashed(c, alg, fs[i])
    requires TemplatesOf(es)[i] == TemplatesOf(fs)[i]
    ensures FieldsOf(es[i].mode) == FieldsOf(fs[i].mode) || LogsClash(c, alg, es, fs, i)
  {
    if es[i].bytes == fs[i].bytes {
      BytesDetermineFields(es[i].mode, fs[i].mode);
    }
  }

  // Writing a line and reading it back

  function TemplateOf(m: Mode): Template {
    match m
    case Ima(_, _) => ImaT
    case ImaNg(_, _) => ImaNgT
    case ImaSig(_, _, _) => ImaSigT
    case ImaBuf(_, _, _) => ImaBufT
  }

  function TemplateName(t: Template): (name: string)
    ensures ' ' !in name && LookupTemplate(name) == Some(t)
  {
    match t
    case ImaT => "ima"
    case ImaNgT => "ima-ng"
    case ImaSigT => "ima-sig"
    case ImaBufT => "ima-buf"
  }

  function DigestText(d: Digest): string {
    d.algorithm + ":" + ToHex(d.hash)
  }

  function SignatureText(signature: Option<Bytes>): string {
    if signature.Some? then ToHex(signature.value) else ""
  }

  /** The line the kernel shows for an entry: the list always names the algorithm of a d-ng digest. */
  function FormatMode(m: Mode): string {
    match m
    case Ima(digest, path) => DigestText(digest) + " " + path.name
    case ImaNg(digest, path) => DigestText(digest) + " " + path.name
    case ImaSig(digest, path, signature) => DigestText(digest) + " " + path.name + " " + SignatureText(signature)
    case ImaBuf(digest, path, data) => DigestText(digest) + " " + path.name + " " + ToHex(data)
  }

  function FormatLine(pcr: string, templateHash: Bytes, m: Mode): string {
    pcr + " " + ToHex(templateHash) + " " + TemplateName(TemplateOf(m)) + " " + FormatMode(m)
  }

  /** Entries a line can carry without ambiguity. */
  predicate Writable(m: Mode) {
    && (m.digest.legacy <==> m.Ima?) && (m.path.legacy <==> m.Ima?)
    && ':' !in m.digest.algorithm && ' ' !in m.digest.algorithm
    && (m.ImaSig? || m.ImaBuf? ==> ' ' !in m.path.name)
    && (m.ImaSig? && m.signature.Some? ==> WellFormedSignature(m.signature.value))
  }

  lemma {:induction false} IndexOfAt(head: string, c: char, tail: string)
    requires c !in head
    ensures IndexOf(head + [c] + tail, c) == |head|
  {
    if head != "" {
      assert (head + [c] + tail)[1..] == head[1..] + [c] + tail;
      IndexOfAt(head[1..], c, tail);
    }
  }

  lemma SplitAt(head: string, c: char, tail: string, maxsplit: nat)
    requires c !in head && maxsplit > 0
    ensures Split(head + [c] + tail, c, maxsplit) == [head] + Split(tail, c, maxsplit - 1)
  {
    var s := head + [c] + tail;
    IndexOfAt(head, c, tail);
    assert s[..|head|] == head && s[|head| + 1..] == tail;
  }

  lemma SplitNone(s: string, c: char, maxsplit: nat)
    requires c !in s
    ensures Split(s, c, maxsplit) == [s]
  {
  }

  lemma DigestRoundTrip(d: Digest)
    requires ':' !in d.algorithm && ' ' !in d.algorithm
    ensures ParseDigest(DigestText(d), d.legacy) == Some(d)
    ensures ' ' !in DigestText(d)
  {
    var s := DigestText(d);
    HexHasNoSeparator(d.hash);
    SplitAt(d.algorithm, ':', ToHex(d.hash), |s|);
    SplitNone(ToHex(d.hash), ':', |s| - 1);
    HexRoundTrip(d.hash);
  }

  lemma SignatureRoundTrip(signature: Option<Bytes>)
    requires signature.Some? ==> WellFormedSignature(signature.value)
    ensures ParseSignature(SignatureText(signature)) == signature
  {
    if signature.Some? {
      HexRoundTrip(signature.value);
    }
  }

  lemma SplitTwo(a: string, b: string)
    requires ' ' !in a
    ensures Split(a + " " + b, ' ', 1) == [a, b]
  {
    SplitAt(a, ' ', b, 1);
  }

  lemma SplitThree(a: string, b: string, d: string)
    requires ' ' !in a && ' ' !in b
    ensures Split(a + " " + b + " " + d, ' ', 2) == [a, b, d]
  {
    assert a + " " + b + " " + d == a + " " + (b + " " + d);
    SplitAt(a, ' ', b + " " + d, 2);
    SplitTwo(b, d);
  }

  lemma SplitFour(a: string, b: string, d: string, e: string)
    requires ' ' !in a && ' ' !in b && ' ' !in d
    ensures Split(a + " " + b + " " + d + " " + e, ' ', 3) == [a, b, d, e]
  {
    assert a + " " + b + " " + d + " " + e == a + " " + (b + " " + d + " " + e);
    SplitAt(a, ' ', b + " " + d + " " + e, 3);
    SplitThree(b, d, e);
  }

  lemma TwoFieldsRoundTrip(digest: Digest, path: Name)
    requires ':' !in digest.algorithm && ' ' !in digest.algorithm && digest.legacy == path.legacy
    ensures ParseTwoFields(digest.legacy, Split(DigestText(digest) + " " + path.name, ' ', 1)) ==
            Some(if digest.legacy then Ima(digest, path) else ImaNg(digest, path))
  {
    DigestRoundTrip(digest);
    SplitTwo(DigestText(digest), path.name);
  }

  lemma SignedRoundTrip(digest: Digest, path: Name, signature: Option<Bytes>)
    requires ':' !in digest.algorithm && ' ' !in digest.algorithm && ' ' !in path.name
    requires !digest.legacy && !path.legacy && (signature.Some? ==> WellFormedSignature(signature.value))
    ensures ParseThreeFields(true, Split(DigestText(digest) + " " + path.name + " " + SignatureText(signature), ' ', 2)) ==
            Some(ImaSig(digest, path, signature))
  {
    DigestRoundTrip(digest);
    SplitThree(DigestText(digest), path.name, SignatureText(signature));
    SignatureRoundTrip(signature);
  }

  lemma BufferRoundTrip(digest: Digest, path: Name, data: Bytes)
    requires ':' !in digest.algorithm && ' ' !in digest.algorithm && ' ' !in path.name
    requires !digest.legacy && !path.legacy
    ensures ParseThreeFields(false, Split(DigestText(digest) + " " + path.name + " " + ToHex(data), ' ', 2)) ==
            Some(ImaBuf(digest, path, data))
  {
    DigestRoundTrip(digest);
    SplitThree(DigestText(digest), path.name, ToHex(data));
    HexRoundTrip(data);
  }

  lemma ModeRoundTrip(m: Mode)
    requires Writable(m)
    ensures ParseMode(TemplateOf(m), FormatMode(m)) == Some(m)
  {
    match m
    case Ima(digest, path) => LegacyRoundTrip(digest, path);
    case ImaNg(digest, path) => NgRoundTrip(digest, path);
    case ImaSig(digest, path, signature) => SigRoundTrip(digest, path, signature);
    case ImaBuf(digest, path, data) => BufRoundTrip(digest, path, data);
  }

  lemma SigRoundTrip(digest: Digest, path: Name, signature: Option<Bytes>)
    requires Writable(ImaSig(digest, path, signature))
    ensures ParseMode(ImaSigT, FormatMode(ImaSig(digest, path, signature))) == Some(ImaSig(digest, path, signature))
  {
    SignedRoundTrip(digest, path, signature);
  }

  lemma BufRoundTrip(digest: Digest, path: Name, data: Bytes)
    requires Writable(ImaBuf(digest, path, data))
    ensures ParseMode(ImaBufT, FormatMode(ImaBuf(digest, path, data))) == Some(ImaBuf(digest, path, data))
  {
    BufferRoundTrip(digest, path, data);
  }

  lemma LegacyRoundTrip(digest: Digest, path: Name)
    requires Writable(Ima(digest, path))
    ensures ParseMode(ImaT, FormatMode(Ima(digest, path))) == Some(Ima(digest, path))
  {
    TwoFieldsRoundTrip(digest, path);
  }

  lemma NgRoundTrip(digest: Digest, path: Name)
    requires Writable(ImaNg(digest, path))
    ensures ParseMode(ImaNgT, FormatMode(ImaNg(digest, path))) == Some(ImaNg(digest, path))
  {
    TwoFieldsRoundTrip(digest, path);
  }

  /** A line that raises: the legacy template with a path longer than its field. */
  lemma LongPathRaises(c: Crypto, pcr: string, templateHash: Bytes, d: Digest, path: Name, imaAlg: HashAlg, pcrAlg: HashAlg)
    requires Writable(Ima(d, path)) && ' ' !in pcr && |path.name| > TCG_EVENT_NAME_LEN_MAX
    ensures ParseEntry(c, FormatLine(pcr, templateHash, Ima(d, path)), imaAlg, pcrAlg).EntryRaises?
  {
    var line := FormatLine(pcr, templateHash, Ima(d, path));
    LineShowsMode(pcr, templateHash, Ima(d, path));
    ParserRaisesExactly(c, line, imaAlg, pcrAlg);
  }

  lemma LineShowsMode(pcr: string, templateHash: Bytes, m: Mode)
    requires Writable(m) && ' ' !in pcr
    ensures LineMode(FormatLine(pcr, templateHash, m)) == Some(m)
  {
    HexHasNoSeparator(templateHash);
    HexRoundTrip(templateHash);
    ModeRoundTrip(m);
    SplitFour(pcr, ToHex(templateHash), TemplateName(TemplateOf(m)), FormatMode(m));
  }

  /** Parsing the line of an entry recovers PCR, mode and template hash; a violation's hashes become all ones. */
  lemma LineRoundTrip(c: Crypto, pcr: string, templateHash: Bytes, m: Mode, imaAlg: HashAlg, pcrAlg: HashAlg)
    requires Writable(m) && ' ' !in pcr && ModeBytes(m).Some?
    ensures var violation := templateHash == StartHash(imaAlg);
            ParseEntry(c, FormatLine(pcr, templateHash, m), imaAlg, pcrAlg) ==
            Parsed(Entry(pcr, if violation then FfHash(imaAlg) else templateHash,
                         if violation then FfHash(pcrAlg) else c.hash(pcrAlg, ModeBytes(m).value),
                         m, ModeBytes(m).value))
  {
    var body, hex := FormatMode(m), ToHex(templateHash);
    HexHasNoSeparator(templateHash);
    HexRoundTrip(templateHash);
    ModeRoundTrip(m);
    SplitFour(pcr, hex, TemplateName(TemplateOf(m)), body);
  }
}
