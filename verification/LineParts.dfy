/** What the line parser accepts: the parts of a line, of a digest and of a signature, each said without the parser. */
module LineParts {
  import opened Bytes
  import opened Crypto
  import opened ImaAst

  // Splitting

  /** The parts with the separator between them. */
  function Joined(parts: seq<string>, c: char): string
    requires parts != []
  {
    if |parts| == 1 then parts[0] else parts[0] + [c] + Joined(parts[1..], c)
  }

  /** Cut at the first separators, as many as there are but at most `maxsplit`. */
  ghost predicate Cuts(parts: seq<string>, s: string, c: char, maxsplit: nat) {
    && 1 <= |parts| <= maxsplit + 1 && Joined(parts, c) == s
    && (forall i | 0 <= i < |parts| - 1 :: c !in parts[i])
    && (|parts| <= maxsplit ==> c !in parts[|parts| - 1])
  }

  lemma CutsMore(head: string, rest: seq<string>, tail: string, c: char, maxsplit: nat)
    requires c !in head && Cuts(rest, tail, c, maxsplit)
    ensures Cuts([head] + rest, head + [c] + tail, c, maxsplit + 1)
  {
    var parts := [head] + rest;
    assert parts[1..] == rest;
    forall i | 0 <= i < |parts| - 1
      ensures c !in parts[i]
    {
      assert i > 0 ==> parts[i] == rest[i - 1];
    }
  }

  lemma CutsRest(parts: seq<string>, s: string, c: char, maxsplit: nat, rest: seq<string>)
    requires Cuts(parts, s, c, maxsplit) && |parts| > 1 && rest == parts[1..]
    ensures maxsplit > 0 && c !in parts[0] && s == parts[0] + [c] + Joined(rest, c)
    ensures Cuts(rest, Joined(rest, c), c, maxsplit - 1)
  {
    forall i | 0 <= i < |rest| - 1
      ensures c !in rest[i]
    {
      assert rest[i] == parts[i + 1];
    }
  }

  lemma {:induction false} SplitCuts(s: string, c: char, maxsplit: nat)
    ensures Cuts(Split(s, c, maxsplit), s, c, maxsplit)
    decreases maxsplit
  {
    var i := IndexOf(s, c);
    if maxsplit > 0 && i < |s| {
      var head, tail, n: nat := s[..i], s[i + 1..], maxsplit - 1;
      assert s == head + [c] + tail;
      SplitCuts(tail, c, n);
      CutsMore(head, Split(tail, c, n), tail, c, n);
    }
  }

  lemma NotWhole(parts: seq<string>, other: seq<string>, s: string, c: char, maxsplit: nat)
    requires Cuts(parts, s, c, maxsplit) && Cuts(other, s, c, maxsplit) && |parts| > 1
    ensures |other| > 1
  {
    CutsRest(parts, s, c, maxsplit, parts[1..]);
    assert c in s;
  }

  lemma SameHead(head: string, tail: string, other: string, rest: string, c: char)
    requires head + [c] + tail == other + [c] + rest && c !in head && c !in other
    ensures head == other && tail == rest
  {
    var s := head + [c] + tail;
    IndexOfAt(head, c, tail);
    IndexOfAt(other, c, rest);
    assert s[..|head|] == head && s[..|other|] == other && s[|head| + 1..] == tail && s[|other| + 1..] == rest;
  }

  lemma {:induction false} CutsOnce(parts: seq<string>, other: seq<string>, s: string, c: char, maxsplit: nat)
    requires Cuts(parts, s, c, maxsplit) && Cuts(other, s, c, maxsplit)
    ensures parts == other
    decreases maxsplit
  {
    if |parts| > 1 || |other| > 1 {
      if |parts| > 1 {
        NotWhole(parts, other, s, c, maxsplit);
      } else {
        NotWhole(other, parts, s, c, maxsplit);
      }
      var rest, rest' := parts[1..], other[1..];
      CutsRest(parts, s, c, maxsplit, rest);
      CutsRest(other, s, c, maxsplit, rest');
      SameHead(parts[0], Joined(rest, c), other[0], Joined(rest', c), c);
      CutsOnce(rest, rest', Joined(rest, c), c, maxsplit - 1);
      assert parts == [parts[0]] + rest && other == [other[0]] + rest';
    } else {
      assert parts == [s] && other == [s];
    }
  }

  /** Splitting gives the one way to cut. */
  lemma SplitExactly(s: string, c: char, maxsplit: nat, parts: seq<string>)
    ensures Split(s, c, maxsplit) == parts <==> Cuts(parts, s, c, maxsplit)
  {
    SplitCuts(s, c, maxsplit);
    if Cuts(parts, s, c, maxsplit) {
      CutsOnce(parts, Split(s, c, maxsplit), s, c, maxsplit);
    }
  }

  // A digest

  /** A bare hash is told by its length; a named one has the name, a colon and the hash. */
  ghost predicate DigestOf(s: string, d: Digest) {
    || (':' !in s && FromHex(s) == Some(d.hash)
        && ((|d.hash| == 20 && d.algorithm == "sha1") || (|d.hash| == 16 && d.algorithm == "md5")))
    || (exists hex: string :: s == d.algorithm + ":" + hex && ':' !in d.algorithm && ':' !in hex && FromHex(hex) == Some(d.hash))
  }

  lemma DigestExactly(s: string, legacy: bool, d: Digest)
    ensures ParseDigest(s, legacy) == Some(d) <==> d.legacy == legacy && DigestOf(s, d)
  {
    var tokens := Split(s, ':', |s|);
    SplitCuts(s, ':', |s|);
    if |tokens| == 2 {
      NamedDigest(s, tokens);
    }
    forall hex: string | s == d.algorithm + ":" + hex && ':' !in d.algorithm && ':' !in hex
      ensures tokens == [d.algorithm, hex]
    {
      SplitAt(d.algorithm, ':', hex, |s|);
      SplitNone(hex, ':', |s| - 1);
    }
  }

  lemma NamedDigest(s: string, tokens: seq<string>)
    requires |tokens| == 2 && Cuts(tokens, s, ':', |s|)
    ensures s == tokens[0] + ":" + tokens[1] && ':' !in tokens[0] && ':' !in tokens[1]
  {
    assert Joined(tokens[1..], ':') == tokens[1];
  }

  // A signature

  /** At least the nine bytes of the header, whose last two are the length of the rest. */
  ghost predicate SignatureOf(s: string, b: Bytes) {
    FromHex(s) == Some(b) && |b| >= 9 && |b| == 9 + 0x100 * (b[7] as int) + b[8]
  }

  lemma SignatureExactly(s: string, b: Bytes)
    ensures ParseSignature(s) == Some(b) <==> SignatureOf(s, b)
  {
    if |b| >= 9 {
      TwoBytes(b[7..9]);
    }
  }

  // A mode

  /** The template each name stands for. */
  ghost predicate Named(name: string, m: Mode) {
    match m
    case Ima(d, p) => name == "ima" && d.legacy && p.legacy
    case ImaNg(d, p) => name == "ima-ng" && !d.legacy && !p.legacy
    case ImaSig(d, p, _) => name == "ima-sig" && !d.legacy && !p.legacy
    case ImaBuf(d, p, _) => name == "ima-buf" && !d.legacy && !p.legacy
  }

  /** The third field, where there is one. */
  ghost predicate ThirdOf(text: string, m: Mode) {
    match m
    case ImaSig(_, _, signature) =>
      if signature.Some? then SignatureOf(text, signature.value) else forall b: Bytes :: !SignatureOf(text, b)
    case ImaBuf(_, _, buffer) => FromHex(text) == Some(buffer)
    case _ => false
  }

  /** Behind the digest: the path, which may have spaces where it comes last, and the third field. */
  ghost predicate RestOf(rest: string, m: Mode) {
    if m.Ima? || m.ImaNg? then rest == m.path.name
    else exists text: string :: rest == m.path.name + " " + text && ' ' !in m.path.name && ThirdOf(text, m)
  }

  ghost predicate ModeOf(name: string, data: string, m: Mode) {
    Named(name, m)
    && exists digest: string, rest: string ::
         data == digest + " " + rest && ' ' !in digest && DigestOf(digest, m.digest) && RestOf(rest, m)
  }

  lemma JoinedMore(head: string, rest: seq<string>, c: char)
    requires rest != []
    ensures Joined([head] + rest, c) == head + [c] + Joined(rest, c)
  {
    assert ([head] + rest)[1..] == rest;
  }

  lemma JoinedThree(a: string, b: string, d: string)
    ensures Joined([a, b, d], ' ') == a + " " + b + " " + d
  {
    JoinedMore(b, [d], ' ');
    JoinedMore(a, [b, d], ' ');
    assert [b] + [d] == [b, d] && [a] + [b, d] == [a, b, d];
    assert a + " " + (b + " " + d) == a + " " + b + " " + d;
  }

  lemma JoinedFour(a: string, b: string, d: string, e: string)
    ensures Joined([a, b, d, e], ' ') == a + " " + b + " " + d + " " + e
  {
    JoinedThree(b, d, e);
    JoinedMore(a, [b, d, e], ' ');
    assert [a] + [b, d, e] == [a, b, d, e];
    assert a + " " + (b + " " + d + " " + e) == a + " " + b + " " + d + " " + e;
  }

  lemma TwoPartsExactly(s: string, a: string, b: string)
    ensures Split(s, ' ', 1) == [a, b] <==> s == a + " " + b && ' ' !in a
  {
    if Split(s, ' ', 1) == [a, b] {
      SplitCuts(s, ' ', 1);
      assert [a, b][1..] == [b] && ' ' !in [a, b][0];
    }
    if ' ' !in a {
      SplitTwo(a, b);
    }
  }

  lemma ThreePartsExactly(s: string, a: string, b: string, d: string)
    ensures Split(s, ' ', 2) == [a, b, d] <==> s == a + " " + b + " " + d && ' ' !in a && ' ' !in b
  {
    if Split(s, ' ', 2) == [a, b, d] {
      SplitCuts(s, ' ', 2);
      assert ' ' !in [a, b, d][0] && ' ' !in [a, b, d][1];
      JoinedThree(a, b, d);
    }
    if ' ' !in a && ' ' !in b {
      SplitThree(a, b, d);
    }
  }

  lemma OnePlace(a: string, b: string, x: string, y: string)
    requires a + " " + b == x + " " + y && ' ' !in a && ' ' !in x
    ensures a == x && b == y
  {
    TwoPartsExactly(a + " " + b, a, b);
    TwoPartsExactly(x + " " + y, x, y);
  }

  lemma ModeOfParts(name: string, data: string, m: Mode, digest: string, rest: string)
    requires data == digest + " " + rest && ' ' !in digest
    ensures ModeOf(name, data, m) <==> Named(name, m) && DigestOf(digest, m.digest) && RestOf(rest, m)
  {
    if ModeOf(name, data, m) {
      var x: string, y: string :|
        data == x + " " + y && ' ' !in x && DigestOf(x, m.digest) && RestOf(y, m);
      OnePlace(digest, rest, x, y);
    }
  }

  lemma RestOfParts(rest: string, m: Mode, path: string, text: string)
    requires rest == path + " " + text && ' ' !in path && (m.ImaSig? || m.ImaBuf?)
    ensures RestOf(rest, m) <==> path == m.path.name && ThirdOf(text, m)
  {
    if RestOf(rest, m) {
      var x: string :| rest == m.path.name + " " + x && ' ' !in m.path.name && ThirdOf(x, m);
      OnePlace(path, text, m.path.name, x);
    }
  }

  lemma ThirdExactly(text: string, digest: Digest, path: Name, signature: Option<Bytes>)
    ensures ParseSignature(text) == signature <==> ThirdOf(text, ImaSig(digest, path, signature))
  {
    forall b: Bytes
      ensures ParseSignature(text) == Some(b) <==> SignatureOf(text, b)
    {
      SignatureExactly(text, b);
    }
    if ParseSignature(text).Some? {
      assert SignatureOf(text, ParseSignature(text).value);
    }
  }

  /** Both templates without a third field. */
  lemma TwoFieldsExactly(name: string, data: string, m: Mode, legacy: bool)
    requires if legacy then m.Ima? && name == "ima" else m.ImaNg? && name == "ima-ng"
    ensures ParseTwoFields(legacy, Split(data, ' ', 1)) == Some(m) <==> ModeOf(name, data, m)
  {
    var t := Split(data, ' ', 1);
    if |t| == 2 {
      assert t == [t[0], t[1]];
      TwoPartsExactly(data, t[0], t[1]);
      DigestExactly(t[0], legacy, m.digest);
      ModeOfParts(name, data, m, t[0], t[1]);
    } else if ModeOf(name, data, m) {
      var x: string, y: string :| data == x + " " + y && ' ' !in x && DigestOf(x, m.digest) && RestOf(y, m);
      TwoPartsExactly(data, x, y);
    }
  }

  lemma SplitIntoThree(data: string, m: Mode, name: string)
    requires (m.ImaSig? || m.ImaBuf?) && ModeOf(name, data, m)
    ensures |Split(data, ' ', 2)| == 3
  {
    var x: string, y: string :| data == x + " " + y && ' ' !in x && DigestOf(x, m.digest) && RestOf(y, m);
    var text: string :| y == m.path.name + " " + text && ' ' !in m.path.name && ThirdOf(text, m);
    assert data == x + " " + m.path.name + " " + text;
    ThreePartsExactly(data, x, m.path.name, text);
  }

  lemma ThreeFieldsOfParts(name: string, data: string, m: Mode, signed: bool, digest: string, path: string, text: string)
    requires if signed then m.ImaSig? && name == "ima-sig" else m.ImaBuf? && name == "ima-buf"
    requires data == digest + " " + (path + " " + text) && ' ' !in digest && ' ' !in path
    ensures ParseThreeFields(signed, [digest, path, text]) == Some(m) <==> ModeOf(name, data, m)
  {
    ModeOfParts(name, data, m, digest, path + " " + text);
    RestOfParts(path + " " + text, m, path, text);
    DigestExactly(digest, false, m.digest);
    if signed {
      ThirdExactly(text, m.digest, m.path, m.signature);
    }
  }

  /** Both templates with a third field. */
  lemma ThreeFieldsExactly(name: string, data: string, m: Mode, signed: bool)
    requires if signed then m.ImaSig? && name == "ima-sig" else m.ImaBuf? && name == "ima-buf"
    ensures ParseThreeFields(signed, Split(data, ' ', 2)) == Some(m) <==> ModeOf(name, data, m)
  {
    var t := Split(data, ' ', 2);
    if |t| == 3 {
      var digest, path, text := t[0], t[1], t[2];
      assert t == [digest, path, text];
      ThreePartsExactly(data, digest, path, text);
      assert data == digest + " " + (path + " " + text);
      ThreeFieldsOfParts(name, data, m, signed, digest, path, text);
    } else if ModeOf(name, data, m) {
      SplitIntoThree(data, m, name);
    }
  }

  lemma ModeExactly(name: string, data: string, m: Mode)
    ensures LookupTemplate(name).Some? && ParseMode(LookupTemplate(name).value, data) == Some(m) <==> ModeOf(name, data, m)
  {
    if m.Ima? && name == "ima" {
      TwoFieldsExactly(name, data, m, true);
    } else if m.ImaNg? && name == "ima-ng" {
      TwoFieldsExactly(name, data, m, false);
    } else if m.ImaSig? && name == "ima-sig" {
      ThreeFieldsExactly(name, data, m, true);
    } else if m.ImaBuf? && name == "ima-buf" {
      ThreeFieldsExactly(name, data, m, false);
    }
  }

  // A line

  /** The parts of a line, of which only the last may have spaces. */
  ghost predicate LineOf(line: string, pcr: string, hex: string, name: string, data: string) {
    line == pcr + " " + hex + " " + name + " " + data && ' ' !in pcr && ' ' !in hex && ' ' !in name
  }

  lemma LinePartsExactly(line: string, pcr: string, hex: string, name: string, data: string)
    ensures Split(line, ' ', 3) == [pcr, hex, name, data] <==> LineOf(line, pcr, hex, name, data)
  {
    var parts := [pcr, hex, name, data];
    if Split(line, ' ', 3) == parts {
      SplitCuts(line, ' ', 3);
      assert ' ' !in parts[0] && ' ' !in parts[1] && ' ' !in parts[2];
      JoinedFour(pcr, hex, name, data);
    }
    if LineOf(line, pcr, hex, name, data) {
      SplitFour(pcr, hex, name, data);
    }
  }

  /** The all-zero template hash of a violation is shown and extended as all ones. */
  ghost predicate HashesOf(c: Crypto, imaAlg: HashAlg, pcrAlg: HashAlg, e: Entry, hash: Bytes) {
    && ModeBytes(e.mode) == Some(e.bytes)
    && if Filled(imaAlg, hash, 0) then Filled(imaAlg, e.imaTemplateHash, 0xFF) && Filled(pcrAlg, e.pcrTemplateHash, 0xFF)
       else e.imaTemplateHash == hash && e.pcrTemplateHash == c.hash(pcrAlg, e.bytes)
  }

  /** An entry of a line with these parts. */
  ghost predicate EntryOf(c: Crypto, line: string, imaAlg: HashAlg, pcrAlg: HashAlg, e: Entry,
                          hex: string, name: string, data: string) {
    && LineOf(line, e.pcr, hex, name, data) && ModeOf(name, data, e.mode)
    && FromHex(hex).Some? && HashesOf(c, imaAlg, pcrAlg, e, FromHex(hex).value)
  }

  /** The bytes and hashes of an entry. */
  lemma MadeExactly(c: Crypto, pcr: string, hash: Bytes, m: Mode, imaAlg: HashAlg, pcrAlg: HashAlg, e: Entry)
    ensures MakeEntry(c, pcr, hash, m, imaAlg, pcrAlg) == Parsed(e) <==>
            e.pcr == pcr && e.mode == m && HashesOf(c, imaAlg, pcrAlg, e, hash)
  {
    FilledIs(pcrAlg, e.pcrTemplateHash);
    FilledIs(imaAlg, e.imaTemplateHash);
    FilledIs(imaAlg, hash);
  }

  lemma EntryOfParts(c: Crypto, line: string, imaAlg: HashAlg, pcrAlg: HashAlg, e: Entry,
                     tokens: seq<string>, hex: string, name: string, data: string)
    requires tokens == Split(line, ' ', 3) && tokens == [e.pcr, hex, name, data]
    ensures ParseEntry(c, line, imaAlg, pcrAlg) == Parsed(e) <==>
            ModeOf(name, data, e.mode) && FromHex(hex).Some? && HashesOf(c, imaAlg, pcrAlg, e, FromHex(hex).value)
  {
    ModeExactly(name, data, e.mode);
    if FromHex(hex).Some? {
      MadeExactly(c, e.pcr, FromHex(hex).value, e.mode, imaAlg, pcrAlg, e);
    }
  }

  lemma ParsedPcr(c: Crypto, line: string, imaAlg: HashAlg, pcrAlg: HashAlg, tokens: seq<string>)
    requires tokens == Split(line, ' ', 3) && ParseEntry(c, line, imaAlg, pcrAlg).Parsed?
    ensures |tokens| == 4 && ParseEntry(c, line, imaAlg, pcrAlg).entry.pcr == tokens[0]
  {
  }

  lemma EntryShown(c: Crypto, line: string, imaAlg: HashAlg, pcrAlg: HashAlg, e: Entry)
    returns (hex: string, name: string, data: string)
    requires ParseEntry(c, line, imaAlg, pcrAlg) == Parsed(e)
    ensures EntryOf(c, line, imaAlg, pcrAlg, e, hex, name, data)
  {
    var t := Split(line, ' ', 3);
    ParsedPcr(c, line, imaAlg, pcrAlg, t);
    hex, name, data := t[1], t[2], t[3];
    assert t == [e.pcr, hex, name, data];
    LinePartsExactly(line, e.pcr, hex, name, data);
    EntryOfParts(c, line, imaAlg, pcrAlg, e, t, hex, name, data);
  }

  lemma EntryMade(c: Crypto, line: string, imaAlg: HashAlg, pcrAlg: HashAlg, e: Entry, hex: string, name: string, data: string)
    requires EntryOf(c, line, imaAlg, pcrAlg, e, hex, name, data)
    ensures ParseEntry(c, line, imaAlg, pcrAlg) == Parsed(e)
  {
    LinePartsExactly(line, e.pcr, hex, name, data);
    EntryOfParts(c, line, imaAlg, pcrAlg, e, Split(line, ' ', 3), hex, name, data);
  }

  /** A line parses as an entry exactly when it has PCR, template hash, template and data in this order. */
  lemma EntryExactly(c: Crypto, line: string, imaAlg: HashAlg, pcrAlg: HashAlg, e: Entry)
    ensures ParseEntry(c, line, imaAlg, pcrAlg) == Parsed(e) <==>
            exists hex: string, name: string, data: string :: EntryOf(c, line, imaAlg, pcrAlg, e, hex, name, data)
  {
    if ParseEntry(c, line, imaAlg, pcrAlg) == Parsed(e) {
      var hex, name, data := EntryShown(c, line, imaAlg, pcrAlg, e);
    }
    forall hex: string, name: string, data: string | EntryOf(c, line, imaAlg, pcrAlg, e, hex, name, data)
      ensures ParseEntry(c, line, imaAlg, pcrAlg) == Parsed(e)
    {
      EntryMade(c, line, imaAlg, pcrAlg, e, hex, name, data);
    }
  }
}
