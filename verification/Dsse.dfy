/** DSSE envelopes: the encoding that is signed, signing and verifying. */
module Dsse {
  import opened Bytes

  // Decimal numbers

  function Decimal(n: nat): (b: Bytes)
    ensures b != [] && 32 !in b
  {
    if n < 10 then [48 + n] else Decimal(n / 10) + [48 + n % 10]
  }

  function DecimalValue(b: Bytes): int {
    if b == [] then 0 else DecimalValue(b[..|b| - 1]) * 10 + (b[|b| - 1] as int - 48)
  }

  lemma {:induction false} DecimalRoundTrip(n: nat)
    ensures DecimalValue(Decimal(n)) == n
  {
    if n < 10 {
      assert Decimal(n)[..0] == [];
    } else {
      DecimalRoundTrip(n / 10);
      assert Decimal(n)[..|Decimal(n)| - 1] == Decimal(n / 10);
    }
  }

  const SPACE: Bytes := [32]

  lemma FirstSpaceDiffers(a: Bytes, b: Bytes, x: Bytes, y: Bytes)
    requires |a| < |b| && 32 !in b
    ensures a + (SPACE + x) != b + (SPACE + y)
  {
    assert (a + (SPACE + x))[|a|] == 32;
    assert (b + (SPACE + y))[|a|] == b[|a|] && b[|a|] in b;
  }

  /** What stands before the first space. */
  lemma BeforeSpace(a: Bytes, b: Bytes, x: Bytes, y: Bytes)
    requires 32 !in a && 32 !in b && a + (SPACE + x) == b + (SPACE + y)
    ensures a == b && x == y
  {
    var l, r := a + (SPACE + x), b + (SPACE + y);
    if |a| < |b| {
      FirstSpaceDiffers(a, b, x, y);
    } else if |b| < |a| {
      FirstSpaceDiffers(b, a, y, x);
    }
    assert l[..|a|] == a && r[..|a|] == b && l[|a| + 1..] == x && r[|a| + 1..] == y;
  }

  lemma DecimalField(m: nat, n: nat, x: Bytes, y: Bytes)
    requires Decimal(m) + (SPACE + x) == Decimal(n) + (SPACE + y)
    ensures m == n && x == y
  {
    BeforeSpace(Decimal(m), Decimal(n), x, y);
    DecimalRoundTrip(m);
    DecimalRoundTrip(n);
  }

  // The pre-authentication encoding

  const VERSION: Bytes := [68, 83, 83, 69, 118, 49, 32]

  /** The type's length is counted in characters, the payload's in bytes. */
  function PAE(payloadType: string, payload: Bytes): Bytes {
    VERSION + (Decimal(|payloadType|) + (SPACE + (Utf8(payloadType) + (SPACE + (Decimal(|payload|) + (SPACE + payload))))))
  }

  /** The decimal text of `n`: digits without a leading zero. */
  ghost predicate DecimalOf(b: Bytes, n: nat) {
    && b != [] && (forall i | 0 <= i < |b| :: '0' as int <= b[i] <= '9' as int)
    && (|b| > 1 ==> b[0] != '0' as int) && DecimalValue(b) == n
  }

  lemma {:induction false} DecimalIs(n: nat)
    ensures DecimalOf(Decimal(n), n)
  {
    DecimalRoundTrip(n);
    if n >= 10 {
      DecimalIs(n / 10);
      DecimalOfSmall(n / 10);
    }
  }

  lemma DecimalOfSmall(n: nat)
    requires n > 0
    ensures Decimal(n)[0] != '0' as int
  {
    if n >= 10 {
      DecimalOfSmall(n / 10);
    }
  }

  lemma DecimalPositive(b: Bytes, n: nat)
    requires DecimalOf(b, n) && b[0] != '0' as int
    ensures n > 0
    decreases |b|
  {
    if |b| > 1 {
      var init := b[..|b| - 1];
      InitValue(init);
      assert init[0] == b[0];
      DecimalPositive(init, DecimalValue(init));
    }
  }

  lemma {:induction false} InitValue(b: Bytes)
    requires forall i | 0 <= i < |b| :: '0' as int <= b[i] <= '9' as int
    ensures DecimalValue(b) >= 0
  {
    if b != [] {
      InitValue(b[..|b| - 1]);
    }
  }

  /** A number has one decimal text. */
  lemma {:induction false} DecimalOnce(b: Bytes, n: nat)
    requires DecimalOf(b, n)
    ensures b == Decimal(n)
    decreases |b|
  {
    var init, d := b[..|b| - 1], b[|b| - 1] - 48;
    assert b == init + [48 + d];
    if init == [] {
      assert DecimalValue(b) == d;
    } else {
      InitValue(init);
      var m: nat := DecimalValue(init);
      assert n == m * 10 + d && init[0] == b[0];
      DecimalOnce(init, m);
      DecimalPositive(init, m);
      assert n / 10 == m && n % 10 == d;
    }
  }

  /** `DSSEv1 LEN(type) type LEN(payload) payload`, with `typeLength` for the first length (DSSE protocol, version 1.0.0). */
  ghost predicate Encodes(b: Bytes, typeLength: nat, payloadType: string, payload: Bytes) {
    exists m: Bytes, n: Bytes ::
      && DecimalOf(m, typeLength) && DecimalOf(n, |payload|)
      && b == Utf8("DSSEv1 ") + (m + (Utf8(" ") + (Utf8(payloadType) + (Utf8(" ") + (n + (Utf8(" ") + payload))))))
  }

  lemma Literals()
    ensures Utf8("DSSEv1 ") == VERSION && Utf8(" ") == SPACE
  {
    Utf8OfAscii("DSSEv1 ");
    Utf8OfAscii(" ");
  }

  /** The encoding has the protocol's format, with the length of the type in characters. */
  lemma PAEExactly(b: Bytes, payloadType: string, payload: Bytes)
    ensures b == PAE(payloadType, payload) <==> Encodes(b, |payloadType|, payloadType, payload)
  {
    Literals();
    DecimalIs(|payloadType|);
    DecimalIs(|payload|);
    forall m: Bytes, n: Bytes | DecimalOf(m, |payloadType|) && DecimalOf(n, |payload|)
      ensures m == Decimal(|payloadType|) && n == Decimal(|payload|)
    {
      DecimalOnce(m, |payloadType|);
      DecimalOnce(n, |payload|);
    }
  }

  /** The protocol asks for the length in bytes: the encoding has it exactly for ASCII types. */
  lemma PAEMeetsProtocol(payloadType: string, payload: Bytes)
    ensures Encodes(PAE(payloadType, payload), |Utf8(payloadType)|, payloadType, payload) <==> Ascii(payloadType)
  {
    var b, bytes := PAE(payloadType, payload), |Utf8(payloadType)|;
    Utf8OfAscii(payloadType);
    if Ascii(payloadType) {
      PAEExactly(b, payloadType, payload);
    }
    if Encodes(b, bytes, payloadType, payload) {
      Literals();
      var m: Bytes, n: Bytes :|
        && DecimalOf(m, bytes) && DecimalOf(n, |payload|)
        && b == Utf8("DSSEv1 ") + (m + (Utf8(" ") + (Utf8(payloadType) + (Utf8(" ") + (n + (Utf8(" ") + payload))))));
      DecimalOnce(m, bytes);
      var x := Utf8(payloadType) + (SPACE + (n + (SPACE + payload)));
      var y := Utf8(payloadType) + (SPACE + (Decimal(|payload|) + (SPACE + payload)));
      assert b[7..] == Decimal(bytes) + (SPACE + x) && b[7..] == Decimal(|payloadType|) + (SPACE + y);
      DecimalField(bytes, |payloadType|, x, y);
    }
  }

  /** For all types, not only ASCII ones: what is signed determines the type and the payload. */
  lemma PAEInjective(t: string, p: Bytes, u: string, q: Bytes)
    requires PAE(t, p) == PAE(u, q)
    ensures t == u && p == q
  {
    var x, y := SPACE + (Decimal(|p|) + (SPACE + p)), SPACE + (Decimal(|q|) + (SPACE + q));
    assert PAE(t, p)[7..] == Decimal(|t|) + (SPACE + (Utf8(t) + x));
    assert PAE(u, q)[7..] == Decimal(|u|) + (SPACE + (Utf8(u) + y));
    DecimalField(|t|, |u|, Utf8(t) + x, Utf8(u) + y);
    Utf8PrefixFree(t, u, x, y);
    assert x[1..] == Decimal(|p|) + (SPACE + p) && y[1..] == Decimal(|q|) + (SPACE + q);
    DecimalField(|p|, |q|, p, q);
  }

  // Base64, RFC 4648, section 4

  function B64Char(i: nat): char
    requires i < 64
  {
    if i < 26 then 'A' + i as char
    else if i < 52 then 'a' + (i - 26) as char
    else if i < 62 then '0' + (i - 52) as char
    else if i == 62 then '+'
    else '/'
  }

  function B64Value(c: char): (r: Option<nat>)
    ensures r.Some? ==> r.value < 64
  {
    if 'A' <= c <= 'Z' then Some((c - 'A') as nat)
    else if 'a' <= c <= 'z' then Some((c - 'a') as nat + 26)
    else if '0' <= c <= '9' then Some((c - '0') as nat + 52)
    else if c == '+' then Some(62)
    else if c == '/' then Some(63)
    else None
  }

  lemma B64CharRoundTrip(i: nat)
    requires i < 64
    ensures B64Value(B64Char(i)) == Some(i) && B64Char(i) != '=' && !IsSpace(B64Char(i))
  {
  }

  /** Three bytes as four numbers of six bits. */
  function Sextets(x: byte, y: byte, z: byte): (s: (nat, nat, nat, nat))
    ensures s.0 < 64 && s.1 < 64 && s.2 < 64 && s.3 < 64
  {
    (x / 4, x % 4 * 16 + y / 16, y % 16 * 4 + z / 64, z % 64)
  }

  function FirstByte(a: nat, b: nat): (x: byte)
    requires a < 64 && b < 64
  {
    a * 4 + b / 16
  }

  function SecondByte(b: nat, c: nat): (y: byte)
    requires b < 64 && c < 64
  {
    b % 16 * 16 + c / 4
  }

  function ThirdByte(c: nat, d: nat): (z: byte)
    requires c < 64 && d < 64
  {
    c % 4 * 64 + d
  }

  lemma SextetsRoundTrip(x: byte, y: byte, z: byte)
    ensures var (a, b, c, d) := Sextets(x, y, z);
            FirstByte(a, b) == x && SecondByte(b, c) == y && ThirdByte(c, d) == z
  {
  }

  function Quad(x: byte, y: byte, z: byte): (t: string)
    ensures |t| == 4
  {
    var (a, b, c, d) := Sextets(x, y, z);
    [B64Char(a), B64Char(b), B64Char(c), B64Char(d)]
  }

  /** `b64enc` */
  function B64Enc(m: Bytes): string {
    if m == [] then ""
    else if |m| == 1 then Quad(m[0], 0, 0)[..2] + "=="
    else if |m| == 2 then Quad(m[0], m[1], 0)[..3] + "="
    else Quad(m[0], m[1], m[2]) + B64Enc(m[3..])
  }

  // What the text says, character by character

  const UPPER := "ABCDEFGHIJKLMNOPQRSTUVWXYZ"
  const LOWER := "abcdefghijklmnopqrstuvwxyz"

  /** Table 1 of RFC 4648. */
  function Alphabet(i: nat): char
    requires i < 64
  {
    (UPPER + LOWER + "0123456789+/")[i]
  }

  lemma AlphabetIs(i: nat)
    requires i < 64
    ensures B64Char(i) == Alphabet(i)
  {
    if i < 26 {
      assert Alphabet(i) == UPPER[i];
    } else if i < 52 {
      assert Alphabet(i) == LOWER[i - 26];
    } else {
      assert Alphabet(i) == "0123456789+/"[i - 52];
    }
  }

  function ByteAt(m: Bytes, i: nat): byte {
    if i < |m| then m[i] else 0
  }

  /** The 24 bits of group `g`, filled up with zeros. */
  function Group(m: Bytes, g: nat): nat {
    0x1_0000 * (ByteAt(m, 3 * g) as int) + 0x100 * (ByteAt(m, 3 * g + 1) as int) + ByteAt(m, 3 * g + 2)
  }

  /** Number `k` of the four numbers of six bits, the highest first. */
  function SixBits(n: nat, k: nat): (s: nat)
    ensures s < 64
  {
    (if k == 0 then n / 0x4_0000 else if k == 1 then n / 0x1000 else if k == 2 then n / 0x40 else n) % 64
  }

  lemma SextetsAreBits(x: byte, y: byte, z: byte, n: nat)
    requires n == 0x1_0000 * (x as int) + 0x100 * (y as int) + z
    ensures var (a, b, c, d) := Sextets(x, y, z);
            a == SixBits(n, 0) && b == SixBits(n, 1) && c == SixBits(n, 2) && d == SixBits(n, 3)
  {
    HighBits(x, y, z, n);
    LowBits(x, y, z, n);
  }

  lemma HighBits(x: byte, y: byte, z: byte, n: nat)
    requires n == 0x1_0000 * (x as int) + 0x100 * (y as int) + z
    ensures n / 0x4_0000 % 64 == x / 4 && n / 0x1000 % 64 == x % 4 * 16 + y / 16
  {
    var a: nat, b: nat := x / 4, x % 4 * 16 + y / 16;
    var low: nat := 0x100 * (y as int % 16) + z;
    QuotientUnique(n, 0x4_0000, a, 0x1000 * b + low);
    QuotientUnique(n, 0x1000, 64 * a + b, low);
    QuotientUnique(64 * a + b, 64, a, b);
  }

  lemma LowBits(x: byte, y: byte, z: byte, n: nat)
    requires n == 0x1_0000 * (x as int) + 0x100 * (y as int) + z
    ensures n / 0x40 % 64 == y % 16 * 4 + z / 64 && n % 64 == z % 64
  {
    var high: nat, c: nat, d: nat := (x as int) * 16 + y / 16, y % 16 * 4 + z / 64, z % 64;
    QuotientUnique(n, 0x40, 64 * high + c, d);
    QuotientUnique(64 * high + c, 64, high, c);
  }

  lemma FirstQuad(m: Bytes, k: nat, n: nat)
    requires m != [] && k < 4 && n == Group(m, 0)
    ensures |B64Enc(m)| >= 4 && B64Enc(m)[k] == if k > |m| then '=' else Alphabet(SixBits(n, k))
  {
    var x, y, z := ByteAt(m, 0), ByteAt(m, 1), ByteAt(m, 2);
    var (a, b, c, d) := Sextets(x, y, z);
    SextetsAreBits(x, y, z, n);
    AlphabetIs([a, b, c, d][k]);
    assert Quad(x, y, z)[k] == B64Char([a, b, c, d][k]);
  }

  lemma NextGroup(m: Bytes, rest: Bytes, g: nat)
    requires |m| >= 3 && rest == m[3..]
    ensures Group(m, g + 1) == Group(rest, g)
  {
    assert ByteAt(m, 3 * g + 3) == ByteAt(rest, 3 * g);
    assert ByteAt(m, 3 * g + 4) == ByteAt(rest, 3 * g + 1);
    assert ByteAt(m, 3 * g + 5) == ByteAt(rest, 3 * g + 2);
  }

  lemma LaterQuads(m: Bytes, rest: Bytes, j: nat)
    requires |m| >= 3 && rest == m[3..] && 4 + j < |B64Enc(m)|
    ensures j < |B64Enc(rest)| && B64Enc(m)[4 + j] == B64Enc(rest)[j]
  {
  }

  lemma ShortText(m: Bytes)
    requires |m| < 3
    ensures |B64Enc(m)| <= 4 && (m == [] ==> B64Enc(m) == "")
  {
  }

  /** Character `k` of group `g` shows its six bits, or is padding where it would show none of the bytes. */
  ghost predicate ShownAt(m: Bytes, g: nat, k: nat) {
    k < 4 && 4 * g + k < |B64Enc(m)|
    && B64Enc(m)[4 * g + k] == if 3 * g + k > |m| then '=' else Alphabet(SixBits(Group(m, g), k))
  }

  lemma ShownLater(m: Bytes, rest: Bytes, h: nat, k: nat, n: nat)
    requires |m| >= 3 && rest == m[3..] && n == 4 * h + k && 4 + n < |B64Enc(m)| && ShownAt(rest, h, k)
    ensures ShownAt(m, h + 1, k)
  {
    LaterQuads(m, rest, n);
    NextGroup(m, rest, h);
    assert 4 * (h + 1) + k == 4 + n;
  }

  lemma LaterShown(m: Bytes, rest: Bytes, g: nat, h: nat, k: nat)
    requires |m| >= 3 && rest == m[3..] && g == h + 1 && k < 4 && 4 * g + k < |B64Enc(m)|
    ensures 4 * h + k < |B64Enc(rest)| && (ShownAt(rest, h, k) ==> ShownAt(m, g, k))
  {
    var n: nat := 4 * h + k;
    LaterQuads(m, rest, n);
    if ShownAt(rest, h, k) {
      ShownLater(m, rest, h, k, n);
    }
  }

  /** Of the first group, and in a text with no other. */
  lemma ShownFirst(m: Bytes, g: nat, k: nat)
    requires k < 4 && 4 * g + k < |B64Enc(m)| && (g == 0 || |m| < 3)
    ensures ShownAt(m, g, k)
  {
    if |m| < 3 {
      ShortText(m);
    }
    FirstQuad(m, k, Group(m, 0));
  }

  lemma {:induction false} B64EncText(m: Bytes, g: nat, k: nat)
    requires k < 4 && 4 * g + k < |B64Enc(m)|
    ensures ShownAt(m, g, k)
    decreases g
  {
    if g == 0 || |m| < 3 {
      ShownFirst(m, g, k);
    } else {
      var rest, h: nat := m[3..], g - 1;
      LaterShown(m, rest, g, h, k);
      B64EncText(rest, h, k);
    }
  }

  lemma Thirds(n: nat)
    requires n > 2
    ensures (n + 2) / 3 * 4 == 4 + (n - 3 + 2) / 3 * 4
  {
  }

  lemma {:induction false} B64EncLength(m: Bytes)
    ensures |B64Enc(m)| == (|m| + 2) / 3 * 4
  {
    if |m| > 2 {
      B64EncLength(m[3..]);
      Thirds(|m|);
    }
  }

  /** Whole quads, padded at the end only; None for any other text. */
  function Quads(t: string): Option<Bytes> {
    if t == "" then Some([])
    else if |t| < 4 then None
    else
      var a, b, c, d := B64Value(t[0]), B64Value(t[1]), B64Value(t[2]), B64Value(t[3]);
      if a.None? || b.None? then None
      else if |t| == 4 && t[2] == '=' && t[3] == '=' then Some([FirstByte(a.value, b.value)])
      else if c.None? then None
      else if |t| == 4 && t[3] == '=' then Some([FirstByte(a.value, b.value), SecondByte(b.value, c.value)])
      else if d.None? then None
      else
        var rest := Quads(t[4..]);
        if rest.None? then None
        else Some([FirstByte(a.value, b.value), SecondByte(b.value, c.value), ThirdByte(c.value, d.value)] + rest.value)
  }

  lemma QuadValues(x: byte, y: byte, z: byte)
    ensures var t, (a, b, c, d) := Quad(x, y, z), Sextets(x, y, z);
            && B64Value(t[0]) == Some(a) && B64Value(t[1]) == Some(b) && B64Value(t[2]) == Some(c) && B64Value(t[3]) == Some(d)
            && t[2] != '=' && t[3] != '='
  {
    var (a, b, c, d) := Sextets(x, y, z);
    B64CharRoundTrip(a);
    B64CharRoundTrip(b);
    B64CharRoundTrip(c);
    B64CharRoundTrip(d);
  }

  lemma OnePadded(t: string, a: nat, b: nat)
    requires |t| == 4 && B64Value(t[0]) == Some(a) && B64Value(t[1]) == Some(b) && t[2] == '=' && t[3] == '='
    ensures Quads(t) == Some([FirstByte(a, b)])
  {
  }

  lemma TwoPadded(t: string, a: nat, b: nat, c: nat)
    requires |t| == 4 && B64Value(t[0]) == Some(a) && B64Value(t[1]) == Some(b) && B64Value(t[2]) == Some(c) && t[3] == '='
    ensures Quads(t) == Some([FirstByte(a, b), SecondByte(b, c)])
  {
  }

  lemma LastQuadRoundTrip(m: Bytes)
    requires 1 <= |m| <= 2
    ensures Quads(B64Enc(m)) == Some(m)
  {
    var t, x, y := B64Enc(m), m[0], if |m| > 1 then m[1] else 0;
    var q := Quad(x, y, 0);
    var (a, b, c, d) := Sextets(x, y, 0);
    QuadValues(x, y, 0);
    SextetsRoundTrip(x, y, 0);
    if |m| == 1 {
      assert t == [q[0], q[1], '=', '='];
      OnePadded(t, a, b);
      assert m == [x];
    } else {
      assert t == [q[0], q[1], q[2], '='];
      TwoPadded(t, a, b, c);
      assert m == [x, y];
    }
  }

  lemma FullQuadDecodes(x: byte, y: byte, z: byte, t: string)
    requires Quads(t).Some?
    ensures Quads(Quad(x, y, z) + t) == Some([x, y, z] + Quads(t).value)
  {
    var q := Quad(x, y, z);
    var whole := q + t;
    QuadValues(x, y, z);
    SextetsRoundTrip(x, y, z);
    assert whole[0] == q[0] && whole[1] == q[1] && whole[2] == q[2] && whole[3] == q[3] && whole[4..] == t;
  }

  lemma {:induction false} QuadsRoundTrip(m: Bytes)
    ensures Quads(B64Enc(m)) == Some(m)
  {
    if |m| > 2 {
      QuadsRoundTrip(m[3..]);
      FullQuadDecodes(m[0], m[1], m[2], B64Enc(m[3..]));
      assert m == [m[0], m[1], m[2]] + m[3..];
    } else if |m| > 0 {
      LastQuadRoundTrip(m);
    }
  }

  // Decoding: hexadecimal is tried first

  /** `odd` is what the base64 module at hand makes of text that is no sequence of whole quads; its versions differ. */
  datatype Python = Python(odd: string -> Option<Bytes>)

  function B64Decode(py: Python, t: string): Option<Bytes> {
    if Quads(t).Some? then Quads(t) else py.odd(t)
  }

  /** `binascii.unhexlify` */
  function Unhexlify(t: string): Option<Bytes> {
    if exists c | c in t :: IsSpace(c) then None else FromHex(t)
  }

  function UrlSafe(t: string): string {
    seq(|t|, i requires 0 <= i < |t| => if t[i] == '-' then '+' else if t[i] == '_' then '/' else t[i])
  }

  /** `b64dec`; None is an exception. */
  function B64Dec(py: Python, t: string): Option<Bytes> {
    var hex := Unhexlify(t);
    if hex.Some? && hex.value != [] then hex
    else
      var standard := B64Decode(py, t);
      if standard.Some? then standard else B64Decode(py, UrlSafe(t))
  }

  predicate AllHex(t: string) {
    forall c | c in t :: HexDigitValue(c).Some?
  }

  lemma {:induction false} UnhexlifyIff(t: string)
    requires |t| % 2 == 0
    ensures Unhexlify(t).Some? <==> AllHex(t)
    ensures Unhexlify(t).Some? ==> |Unhexlify(t).value| == |t| / 2
  {
    if exists c | c in t :: IsSpace(c) {
      var c :| c in t && IsSpace(c);
      assert HexDigitValue(c).None?;
    } else if t != "" {
      assert t[0] in t && t[1] in t;
      UnhexlifyIff(t[2..]);
      assert forall c | c in t :: c == t[0] || c == t[1] || c in t[2..];
      assert forall c | c in t[2..] :: c in t;
    }
  }

  lemma {:induction false} PaddedIsNotHex(m: Bytes)
    requires |m| % 3 != 0
    ensures !AllHex(B64Enc(m))
  {
    var t := B64Enc(m);
    if |m| > 3 {
      PaddedIsNotHex(m[3..]);
      var c :| c in B64Enc(m[3..]) && HexDigitValue(c).None?;
      assert c in t;
    } else {
      assert t[3] == '=' && t[3] in t;
    }
  }

  /** Text that is read back as it was meant. */
  predicate Recoverable(m: Bytes) {
    m == [] || !AllHex(B64Enc(m))
  }

  /** Text that happens to be hexadecimal is decoded to fewer bytes. */
  lemma HexIsShorter(m: Bytes)
    requires m != []
    ensures Unhexlify(B64Enc(m)).Some? <==> AllHex(B64Enc(m))
    ensures Unhexlify(B64Enc(m)).Some? ==> 0 < |Unhexlify(B64Enc(m)).value| < |m|
  {
    var t := B64Enc(m);
    B64EncLength(m);
    HalfOfQuads(|m|);
    UnhexlifyIff(t);
    if |m| % 3 != 0 {
      PaddedIsNotHex(m);
    }
  }

  lemma HalfOfQuads(n: nat)
    requires n > 0
    ensures (n + 2) / 3 * 4 % 2 == 0
    ensures n % 3 == 0 ==> 0 < (n + 2) / 3 * 4 / 2 < n
  {
  }

  /** Decoding undoes encoding exactly for the empty text and for text with a character that is no hexadecimal digit. */
  lemma DecUndoesEnc(py: Python, m: Bytes)
    ensures B64Dec(py, B64Enc(m)).Some?
    ensures B64Dec(py, B64Enc(m)) == Some(m) <==> Recoverable(m)
  {
    QuadsRoundTrip(m);
    if m != [] {
      HexIsShorter(m);
    }
  }

  /** A payload that begins like a JSON object with a member is recoverable: its second character is `y`. */
  lemma JsonIsRecoverable(m: Bytes)
    requires |m| >= 2 && m[0] == 0x7B && m[1] == 0x22
    ensures Recoverable(m)
  {
    var t := B64Enc(m);
    assert t[1] == B64Char(50) == 'y' && t[1] in t;
  }

  // Envelopes

  datatype Signature = Signature(keyid: Option<string>, sig: string)

  datatype Envelope = Envelope(payload: string, payloadType: string, signatures: seq<Signature>)

  datatype Signer = Signer(keyid: Option<string>, sign: Bytes -> Bytes)

  datatype Verifier = Verifier(name: string, keyid: Option<string>, verify: (Bytes, Bytes) -> bool)

  datatype Verified = Verified(payloadType: string, payload: Bytes, signers: seq<string>)

  datatype Verdict = Accepted(verified: Verified) | Undecodable | NoValidSignature

  function Sign(payloadType: string, payload: Bytes, signer: Signer): Envelope {
    var keyid := if signer.keyid == Some("") then None else signer.keyid;
    Envelope(B64Enc(payload), payloadType, [Signature(keyid, B64Enc(signer.sign(PAE(payloadType, payload))))])
  }

  predicate Skipped(strict: bool, s: Signature, v: Verifier) {
    strict && s.keyid.Some? && v.keyid.Some? && s.keyid != v.keyid
  }

  /** The verifier is asked about this signature, and accepts it. */
  predicate Accepts(py: Python, strict: bool, pae: Bytes, s: Signature, v: Verifier) {
    !Skipped(strict, s, v) && B64Dec(py, s.sig).Some? && v.verify(pae, B64Dec(py, s.sig).value)
  }

  /** A verifier is to be asked about this signature, and its text cannot be decoded. */
  predicate Stuck(py: Python, strict: bool, s: Signature, v: Verifier) {
    !Skipped(strict, s, v) && B64Dec(py, s.sig).None?
  }

  function SignersOf(py: Python, strict: bool, pae: Bytes, s: Signature, vs: seq<Verifier>): seq<string> {
    if vs == [] then []
    else
      SignersOf(py, strict, pae, s, vs[..|vs| - 1])
      + if Accepts(py, strict, pae, s, vs[|vs| - 1]) then [vs[|vs| - 1].name] else []
  }

  function AllSigners(py: Python, strict: bool, pae: Bytes, ss: seq<Signature>, vs: seq<Verifier>): seq<string> {
    if ss == [] then []
    else AllSigners(py, strict, pae, ss[..|ss| - 1], vs) + SignersOf(py, strict, pae, ss[|ss| - 1], vs)
  }

  predicate StuckOn(py: Python, strict: bool, s: Signature, vs: seq<Verifier>) {
    exists j | 0 <= j < |vs| :: Stuck(py, strict, s, vs[j])
  }

  predicate AnyStuck(py: Python, strict: bool, ss: seq<Signature>, vs: seq<Verifier>) {
    exists i | 0 <= i < |ss| :: StuckOn(py, strict, ss[i], vs)
  }

  function Verdicted(py: Python, strict: bool, e: Envelope, vs: seq<Verifier>): Verdict {
    var payload := B64Dec(py, e.payload);
    if payload.None? || AnyStuck(py, strict, e.signatures, vs) then Undecodable
    else
      var signers := AllSigners(py, strict, PAE(e.payloadType, payload.value), e.signatures, vs);
      if signers == [] then NoValidSignature else Accepted(Verified(e.payloadType, payload.value, signers))
  }

  method Verify(py: Python, e: Envelope, verifiers: seq<Verifier>, strict: bool) returns (r: Verdict)
    ensures r == Verdicted(py, strict, e, verifiers)
  {
    var payload := B64Dec(py, e.payload);
    if payload.None? {
      return Undecodable;
    }
    var signers := RecognizeAll(py, strict, PAE(e.payloadType, payload.value), e.signatures, verifiers);
    if signers.None? {
      return Undecodable;
    }
    if signers.value == [] {
      return NoValidSignature;
    }
    return Accepted(Verified(e.payloadType, payload.value, signers.value));
  }

  method RecognizeAll(py: Python, strict: bool, pae: Bytes, signatures: seq<Signature>, verifiers: seq<Verifier>)
    returns (r: Option<seq<string>>)
    ensures r.None? <==> AnyStuck(py, strict, signatures, verifiers)
    ensures r.Some? ==> r.value == AllSigners(py, strict, pae, signatures, verifiers)
  {
    var recognizedSigners: seq<string> := [];
    for i := 0 to |signatures|
      invariant recognizedSigners == AllSigners(py, strict, pae, signatures[..i], verifiers)
      invariant forall k | 0 <= k < i :: !StuckOn(py, strict, signatures[k], verifiers)
    {
      var signers := Recognize(py, strict, pae, signatures[i], verifiers);
      if signers.None? {
        assert StuckOn(py, strict, signatures[i], verifiers);
        return None;
      }
      assert signatures[..i + 1][..i] == signatures[..i];
      recognizedSigners := recognizedSigners + signers.value;
    }
    assert signatures[..|signatures|] == signatures;
    return Some(recognizedSigners);
  }

  /** The verifiers that accept one signature; None is an exception. */
  method Recognize(py: Python, strict: bool, pae: Bytes, s: Signature, verifiers: seq<Verifier>) returns (r: Option<seq<string>>)
    ensures r.None? <==> StuckOn(py, strict, s, verifiers)
    ensures r.Some? ==> r.value == SignersOf(py, strict, pae, s, verifiers)
  {
    var signers: seq<string> := [];
    for j := 0 to |verifiers|
      invariant signers == SignersOf(py, strict, pae, s, verifiers[..j])
      invariant forall k | 0 <= k < j :: !Stuck(py, strict, s, verifiers[k])
    {
      var v := verifiers[j];
      assert verifiers[..j + 1][..j] == verifiers[..j];
      if strict && s.keyid.Some? && v.keyid.Some? && s.keyid != v.keyid {
        continue;
      }
      var sig := B64Dec(py, s.sig);
      if sig.None? {
        assert Stuck(py, strict, s, verifiers[j]);
        return None;
      }
      if v.verify(pae, sig.value) {
        signers := signers + [v.name];
      }
    }
    assert verifiers[..|verifiers|] == verifiers;
    return Some(signers);
  }

  // What verifying means

  lemma {:induction false} SignersAre(py: Python, strict: bool, pae: Bytes, s: Signature, vs: seq<Verifier>, name: string)
    ensures name in SignersOf(py, strict, pae, s, vs) <==>
              exists j | 0 <= j < |vs| :: Accepts(py, strict, pae, s, vs[j]) && vs[j].name == name
  {
    if vs != [] {
      var init, last := vs[..|vs| - 1], vs[|vs| - 1];
      SignersAre(py, strict, pae, s, init, name);
      if j :| 0 <= j < |init| && Accepts(py, strict, pae, s, init[j]) && init[j].name == name {
        assert vs[j] == init[j];
      }
      if j :| 0 <= j < |vs| && Accepts(py, strict, pae, s, vs[j]) && vs[j].name == name {
        assert j < |init| ==> init[j] == vs[j];
      }
    }
  }

  ghost predicate AcceptedBy(py: Python, strict: bool, pae: Bytes, ss: seq<Signature>, vs: seq<Verifier>, name: string) {
    exists i, j | 0 <= i < |ss| && 0 <= j < |vs| :: Accepts(py, strict, pae, ss[i], vs[j]) && vs[j].name == name
  }

  lemma {:induction false} AllSignersAre(py: Python, strict: bool, pae: Bytes, ss: seq<Signature>, vs: seq<Verifier>, name: string)
    ensures name in AllSigners(py, strict, pae, ss, vs) <==> AcceptedBy(py, strict, pae, ss, vs, name)
  {
    if ss != [] {
      var init, last := ss[..|ss| - 1], ss[|ss| - 1];
      AllSignersAre(py, strict, pae, init, vs, name);
      SignersAre(py, strict, pae, last, vs, name);
      if AcceptedBy(py, strict, pae, init, vs, name) {
        var i, j :| 0 <= i < |init| && 0 <= j < |vs| && Accepts(py, strict, pae, init[i], vs[j]) && vs[j].name == name;
        assert ss[i] == init[i];
      }
      if AcceptedBy(py, strict, pae, ss, vs, name) {
        var i, j :| 0 <= i < |ss| && 0 <= j < |vs| && Accepts(py, strict, pae, ss[i], vs[j]) && vs[j].name == name;
        assert i < |init| ==> ss[i] == init[i];
      }
    }
  }

  /**
   * A payload is returned only if some listed verifier accepts the encoding of exactly that type and payload, and
   * the names returned are those of the verifiers that do.
   */
  lemma VerifySound(py: Python, strict: bool, e: Envelope, vs: seq<Verifier>)
    requires Verdicted(py, strict, e, vs).Accepted?
    ensures var v := Verdicted(py, strict, e, vs).verified;
            && v.payloadType == e.payloadType && B64Dec(py, e.payload) == Some(v.payload) && v.signers != []
            && forall name :: name in v.signers <==>
                 AcceptedBy(py, strict, PAE(v.payloadType, v.payload), e.signatures, vs, name)
  {
    var v := Verdicted(py, strict, e, vs).verified;
    forall name {
      AllSignersAre(py, strict, PAE(v.payloadType, v.payload), e.signatures, vs, name);
    }
  }

  lemma SomeSigner(py: Python, strict: bool, pae: Bytes, s: Signature, vs: seq<Verifier>)
    ensures SignersOf(py, strict, pae, s, vs) != [] <==> exists j | 0 <= j < |vs| :: Accepts(py, strict, pae, s, vs[j])
  {
    var signers := SignersOf(py, strict, pae, s, vs);
    if signers != [] {
      SignersAre(py, strict, pae, s, vs, signers[0]);
    }
    forall j | 0 <= j < |vs| && Accepts(py, strict, pae, s, vs[j])
      ensures signers != []
    {
      SignersAre(py, strict, pae, s, vs, vs[j].name);
    }
  }

  lemma OneSignature(py: Python, strict: bool, pae: Bytes, s: Signature, vs: seq<Verifier>)
    ensures AllSigners(py, strict, pae, [s], vs) == SignersOf(py, strict, pae, s, vs)
  {
    assert [s][..0] == [];
    assert [] + SignersOf(py, strict, pae, s, vs) == SignersOf(py, strict, pae, s, vs);
  }

  /**
   * What was signed is verified: when payload and signature are recoverable from their text, verifying returns the
   * type and the payload exactly when a listed verifier that is asked accepts the signature.
   */
  lemma VerifyOfSign(py: Python, strict: bool, t: string, p: Bytes, signer: Signer, vs: seq<Verifier>)
    requires Recoverable(p) && Recoverable(signer.sign(PAE(t, p)))
    ensures var r, e := Verdicted(py, strict, Sign(t, p, signer), vs), Sign(t, p, signer);
            && !r.Undecodable?
            && (r.Accepted? ==> r.verified.payloadType == t && r.verified.payload == p)
            && (r.Accepted? <==> exists j | 0 <= j < |vs| ::
                  !Skipped(strict, e.signatures[0], vs[j]) && vs[j].verify(PAE(t, p), signer.sign(PAE(t, p))))
  {
    var sig, e := signer.sign(PAE(t, p)), Sign(t, p, signer);
    var s := e.signatures[0];
    DecUndoesEnc(py, p);
    DecUndoesEnc(py, sig);
    assert !AnyStuck(py, strict, e.signatures, vs);
    OneSignature(py, strict, PAE(t, p), s, vs);
    SomeSigner(py, strict, PAE(t, p), s, vs);
  }
}
