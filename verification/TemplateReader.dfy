/** A reader of IMA template data as the kernel lays it out, and that it finds the fields of what is hashed. */
module TemplateReader {
  import opened Bytes
  import opened Crypto
  import opened ImaAst

  // The reader

  /** A field and what follows it: four bytes of length, the least significant first, and as many bytes. */
  function ReadField(b: Bytes): Option<(Bytes, Bytes)> {
    if |b| < 4 then None
    else
      var n: int := b[0] + 0x100 * (b[1] as int) + 0x1_0000 * (b[2] as int) + 0x100_0000 * (b[3] as int);
      if |b| < 4 + n then None else Some((b[4..4 + n], b[4 + n..]))
  }

  /** Length of a character's code (RFC 3629), told by its first byte. */
  function CodeSize(lead: byte): nat {
    if lead < 0x80 then 1 else if lead < 0xE0 then 2 else if lead < 0xF0 then 3 else 4
  }

  /** `bytes.decode("utf-8")` of bytes that some text is encoded as. */
  function DecodeUtf8(b: Bytes): Option<string> {
    if b == [] then Some("")
    else
      var n := CodeSize(b[0]);
      if |b| < n then None
      else
        var point, rest := CodePoint(b[..n]), DecodeUtf8(b[n..]);
        if rest.None? || !(0 <= point < 0xD800 || 0xE000 <= point < 0x11_0000) then None
        else Some([point as char] + rest.value)
  }

  /** The name of the algorithm up to the first colon, the colon, NUL, and the hash. */
  function ReadDigest(b: Bytes): Option<(string, Bytes)> {
    var i := FirstIndex(b, 58);
    if |b| < i + 2 || b[i + 1] != 0 then None
    else
      var name := DecodeUtf8(b[..i]);
      if name.None? then None else Some((name.value, b[i + 2..]))
  }

  /** A path that ends with NUL. */
  function ReadPath(b: Bytes): Option<string> {
    if b == [] || b[|b| - 1] != 0 then None else DecodeUtf8(b[..|b| - 1])
  }

  /** Digest, path and, in templates that have one, a third field; nothing may be left over. */
  function ReadTemplate(b: Bytes, third: bool): Option<Fields> {
    var first := ReadField(b);
    if first.None? then None
    else
      var second := ReadField(first.value.1);
      if second.None? then None
      else
        var digest, path, rest := ReadDigest(first.value.0), ReadPath(second.value.0), second.value.1;
        if digest.None? || path.None? then None
        else if !third then
          if rest == [] then Some(Fields(digest.value.0, digest.value.1, path.value, None)) else None
        else
          var extra := ReadField(rest);
          if extra.None? || extra.value.1 != [] then None
          else Some(Fields(digest.value.0, digest.value.1, path.value, Some(extra.value.0)))
  }

  // It reads what is packed

  lemma LengthReads(n: nat)
    requires n < 0x1_0000_0000
    ensures n < Pow256(4)
    ensures var b := ToLE(n, 4);
            b[0] + 0x100 * (b[1] as int) + 0x1_0000 * (b[2] as int) + 0x100_0000 * (b[3] as int) == n
  {
    Pow256Values();
    var p, q: nat, r: nat := n / 256, n / 256 / 256, n / 256 / 256 / 256;
    assert Pow256(3) == 0x100_0000 && Pow256(0) == 1;
    assert ToLE(n, 4) == [n % 256] + ToLE(p, 3);
    assert ToLE(p, 3) == [p % 256] + ToLE(q, 2);
    assert ToLE(q, 2) == [q % 256] + ToLE(r, 1);
    assert ToLE(r, 1) == [r % 256] + ToLE(r / 256, 0);
    assert r < 256;
  }

  lemma FieldReads(b: Bytes, rest: Bytes)
    requires LengthPrefixed(b).Some?
    ensures ReadField(LengthPrefixed(b).value + rest) == Some((b, rest))
  {
    LengthReads(|b|);
    var head := ToLE(|b|, 4);
    var all := LengthPrefixed(b).value + rest;
    assert all == head + b + rest;
    assert all[..4] == head && forall i | 0 <= i < 4 :: all[i] == head[i];
    assert all[4..4 + |b|] == b && all[4 + |b|..] == rest;
  }

  lemma CodeSizeOf(c: char)
    ensures CodeSize(EncodeChar(c)[0]) == |EncodeChar(c)|
  {
  }

  lemma {:induction false} Utf8Reads(s: string)
    ensures DecodeUtf8(Utf8(s)) == Some(s)
  {
    if s != "" {
      var c, rest := s[0], s[1..];
      var code, b := EncodeChar(c), Utf8(s);
      CodeSizeOf(c);
      CodePointOf(c);
      Utf8Reads(rest);
      assert b == code + Utf8(rest);
      assert b[..|code|] == code && b[|code|..] == Utf8(rest);
      assert [c] + rest == s;
    }
  }

  lemma DigestReads(d: Digest)
    requires Ascii(d.algorithm) && ':' !in d.algorithm
    ensures ReadDigest(DigestBody(d)) == Some((d.algorithm, d.hash))
  {
    var name, b := Utf8(d.algorithm), DigestBody(d);
    Utf8OfAscii(d.algorithm);
    Utf8Reads(d.algorithm);
    assert forall i | 0 <= i < |name| :: d.algorithm[i] in d.algorithm;
    assert b == name + [COLON] + ([0] + d.hash);
    FirstIndexAt(name, COLON, [0] + d.hash);
    assert b[|name| + 1] == 0;
    assert b[..|name|] == name && b[|name| + 2..] == d.hash;
  }

  lemma PathReads(name: string)
    ensures ReadPath(Utf8(name) + [0]) == Some(name)
  {
    var b := Utf8(name) + [0];
    Utf8Reads(name);
    assert b[..|b| - 1] == Utf8(name);
  }

  /** What is read, field by field. */
  lemma ReadInOrder(b: Bytes, digest: Bytes, path: Bytes, b1: Bytes, b2: Bytes, f: Fields)
    requires ReadField(b) == Some((digest, b1)) && ReadField(b1) == Some((path, b2))
    requires ReadDigest(digest) == Some((f.algorithm, f.hash)) && ReadPath(path) == Some(f.path)
    requires if f.extra.Some? then ReadField(b2) == Some((f.extra.value, [])) else b2 == []
    ensures ReadTemplate(b, f.extra.Some?) == Some(f)
  {
  }

  lemma ExtraReads(m: Mode)
    requires ExtraStruct(m).Some?
    ensures if Extra(m).Some? then ReadField(ExtraStruct(m).value) == Some((Extra(m).value, [])) else ExtraStruct(m).value == []
  {
    if Extra(m).Some? {
      FieldReads(Extra(m).value, []);
      assert ExtraStruct(m).value + [] == ExtraStruct(m).value;
    }
  }

  /** Template data read as the kernel lays them out are the fields of the entry, and nothing is left over. */
  lemma TemplateReads(m: Mode)
    requires SelfDelimiting(m) && ModeBytes(m).Some?
    ensures ReadTemplate(ModeBytes(m).value, m.ImaSig? || m.ImaBuf?) == Some(FieldsOf(m))
  {
    ModeBytesParts(m);
    var digest, name := DigestBody(m.digest), Utf8(m.path.name) + [0];
    var path, extra := NameStruct(m.path).value, ExtraStruct(m).value;
    FieldReads(digest, path + extra);
    FieldReads(name, extra);
    DigestReads(m.digest);
    PathReads(m.path.name);
    ExtraReads(m);
    ReadInOrder(ModeBytes(m).value, digest, name, path + extra, extra, FieldsOf(m));
  }

  /** The legacy template has fixed widths: the hash, and the path filled up with NUL to 256 bytes. */
  lemma LegacyLayout(digest: Digest, path: Name)
    requires digest.legacy && path.legacy && ModeBytes(Ima(digest, path)).Some?
    ensures var b, n, name := ModeBytes(Ima(digest, path)).value, |digest.hash|, Utf8(path.name);
            && |b| == n + 256 && |name| < 256
            && b[..n] == digest.hash && b[n..n + |name|] == name
            && forall i | n + |name| <= i < |b| :: b[i] == 0
  {
  }

  /**
   * What an entry that is no violation extends the PCR with is the hash of data that a relying party reads the
   * entry's fields from.
   */
  lemma ParsedTemplateReads(c: Crypto, line: string, imaAlg: HashAlg, pcrAlg: HashAlg)
    requires ParseEntry(c, line, imaAlg, pcrAlg).Parsed?
    requires var e := ParseEntry(c, line, imaAlg, pcrAlg).entry;
             e.imaTemplateHash != FfHash(imaAlg) && !e.mode.Ima? && Ascii(e.mode.digest.algorithm)
    ensures var e := ParseEntry(c, line, imaAlg, pcrAlg).entry;
            && e.pcrTemplateHash == c.hash(pcrAlg, e.bytes)
            && ReadTemplate(e.bytes, e.mode.ImaSig? || e.mode.ImaBuf?) == Some(FieldsOf(e.mode))
  {
    ParsedIsHashed(c, line, imaAlg, pcrAlg);
    TemplateReads(ParseEntry(c, line, imaAlg, pcrAlg).entry.mode);
  }
}
