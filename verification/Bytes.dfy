/** Bytes, fixed-width integers, hexadecimal text and UTF-8, as Python's `bytes`, `struct` and `str` see them. */
module Bytes {
  type byte = x: int | 0 <= x < 256
  type Bytes = seq<byte>

  datatype Option<+T> = None | Some(value: T)

  function Zeros(n: nat): (r: Bytes)
    ensures |r| == n && forall i | 0 <= i < n :: r[i] == 0
  {
    seq(n, _ => 0)
  }

  function Pow256(k: nat): (r: nat)
    ensures r > 0
  {
    if k == 0 then 1 else 256 * Pow256(k - 1)
  }

  /** Big-endian text of exactly `k` bytes. */
  function ToBE(n: nat, k: nat): (r: Bytes)
    requires n < Pow256(k)
    ensures |r| == k
  {
    if k == 0 then [] else ToBE(n / 256, k - 1) + [n % 256]
  }

  function FromBE(b: Bytes): nat {
    if b == [] then 0 else FromBE(b[..|b| - 1]) * 256 + b[|b| - 1]
  }

  lemma {:induction false} FromBEBound(b: Bytes)
    ensures FromBE(b) < Pow256(|b|)
  {
    if b != [] {
      FromBEBound(b[..|b| - 1]);
    }
  }

  lemma {:induction false} BERoundTrip(n: nat, k: nat)
    requires n < Pow256(k)
    ensures FromBE(ToBE(n, k)) == n
  {
    if k > 0 {
      BERoundTrip(n / 256, k - 1);
      assert ToBE(n, k)[..k - 1] == ToBE(n / 256, k - 1);
    }
  }

  lemma {:induction false} BEUnique(b: Bytes)
    ensures FromBE(b) < Pow256(|b|)
    ensures ToBE(FromBE(b), |b|) == b
  {
    if b != [] {
      var n, m, x := FromBE(b), FromBE(b[..|b| - 1]), b[|b| - 1];
      FromBEBound(b);
      BEUnique(b[..|b| - 1]);
      assert n == m * 256 + x;
      assert n / 256 == m && n % 256 == x;
      assert b[..|b| - 1] + [x] == b;
    }
  }

  /** A big-endian number, byte by byte. */
  lemma TwoBytes(b: Bytes)
    requires |b| == 2
    ensures FromBE(b) == 0x100 * (b[0] as int) + b[1]
  {
    assert b[..1][..0] == [];
    assert FromBE(b[..1]) == b[0];
  }

  lemma FourBytes(b: Bytes)
    requires |b| == 4
    ensures FromBE(b) == 0x100_0000 * (b[0] as int) + 0x1_0000 * (b[1] as int) + 0x100 * (b[2] as int) + b[3]
  {
    TwoBytes(b[..2]);
    assert b[..3][..2] == b[..2];
    assert FromBE(b[..3]) == FromBE(b[..2]) * 256 + b[2];
    assert FromBE(b) == FromBE(b[..3]) * 256 + b[3];
  }

  /** Reading the most significant byte first. */
  lemma {:induction false} FromBEHead(b: Bytes)
    requires b != []
    ensures FromBE(b) == b[0] * Pow256(|b| - 1) + FromBE(b[1..])
  {
    if |b| == 1 {
      assert b[..0] == [] && b[1..] == [];
    } else {
      var init, x, p := b[..|b| - 1], b[|b| - 1], Pow256(|b| - 2);
      FromBEHead(init);
      assert b[1..][..|b| - 2] == init[1..] && b[1..][|b| - 2] == x;
      assert FromBE(b[1..]) == FromBE(init[1..]) * 256 + x;
      Regroup(b[0], p, FromBE(init[1..]));
    }
  }

  lemma Regroup(x: int, p: int, y: int)
    ensures (x * p + y) * 256 == x * (256 * p) + y * 256
  {
  }

  /** Little-endian text of exactly `k` bytes. */
  function ToLE(n: nat, k: nat): (r: Bytes)
    requires n < Pow256(k)
    ensures |r| == k
  {
    if k == 0 then [] else [n % 256] + ToLE(n / 256, k - 1)
  }

  function FromLE(b: Bytes): (n: nat)
    ensures n < Pow256(|b|)
  {
    if b == [] then 0 else b[0] + 256 * FromLE(b[1..])
  }

  lemma {:induction false} LERoundTrip(n: nat, k: nat)
    requires n < Pow256(k)
    ensures FromLE(ToLE(n, k)) == n
  {
    if k > 0 {
      LERoundTrip(n / 256, k - 1);
      assert ToLE(n, k)[1..] == ToLE(n / 256, k - 1);
    }
  }

  lemma LEInjective(m: nat, n: nat, k: nat)
    requires m < Pow256(k) && n < Pow256(k) && ToLE(m, k) == ToLE(n, k)
    ensures m == n
  {
    LERoundTrip(m, k);
    LERoundTrip(n, k);
  }

  lemma Pow256Values()
    ensures Pow256(1) == 0x100 && Pow256(2) == 0x1_0000
    ensures Pow256(4) == 0x1_0000_0000 && Pow256(8) == 0x1_0000_0000_0000_0000
  {
    assert Pow256(3) == 0x100_0000;
    assert Pow256(5) == 0x100_0000_0000;
    assert Pow256(6) == 0x1_0000_0000_0000;
    assert Pow256(7) == 0x100_0000_0000_0000;
  }

  /** `struct.unpack_from` of `n` bytes at offset `o`: None is `struct.error`. */
  function Take(b: Bytes, o: nat, n: nat): (r: Option<Bytes>)
    ensures r.Some? <==> o + n <= |b|
    ensures r.Some? ==> |r.value| == n
  {
    if o + n <= |b| then Some(b[o..o + n]) else None
  }

  /** Python slicing `b[o:]` and `b[:n]`, which never fail. */
  function DropAt(b: Bytes, o: nat): Bytes {
    if o <= |b| then b[o..] else []
  }

  function KeepTo(b: Bytes, n: nat): Bytes {
    if n <= |b| then b[..n] else b
  }

  /** `s` stands in `f` at `pos`. */
  predicate At(f: Bytes, pos: nat, s: Bytes) {
    pos + |s| <= |f| && f[pos..pos + |s|] == s
  }

  lemma AtParts(f: Bytes, pos: nat, a: Bytes, b: Bytes)
    requires At(f, pos, a + b)
    ensures At(f, pos, a) && At(f, pos + |a|, b)
  {
    var s := f[pos..pos + |a + b|];
    assert s[..|a|] == a && s[|a|..] == b;
    assert f[pos..pos + |a|] == s[..|a|] && f[pos + |a|..pos + |a + b|] == s[|a|..];
  }

  lemma AtJoined(f: Bytes, pos: nat, a: Bytes, b: Bytes)
    requires At(f, pos, a) && At(f, pos + |a|, b)
    ensures At(f, pos, a + b)
  {
    assert f[pos..pos + |a + b|] == f[pos..pos + |a|] + f[pos + |a|..pos + |a| + |b|];
  }

  /** Big-endian `struct` fields. */
  function BE2(n: nat): (r: Bytes)
    requires n < 0x1_0000
    ensures |r| == 2
  {
    Pow256Values();
    ToBE(n, 2)
  }

  function BE4(n: nat): (r: Bytes)
    requires n < 0x1_0000_0000
    ensures |r| == 4
  {
    Pow256Values();
    ToBE(n, 4)
  }

  function BE8(n: nat): (r: Bytes)
    requires n < 0x1_0000_0000_0000_0000
    ensures |r| == 8
  {
    Pow256Values();
    ToBE(n, 8)
  }

  /** A big-endian field of `k` bytes at `o`. */
  function ReadBE(b: Bytes, o: nat, k: nat): (r: Option<nat>)
    ensures r.Some? <==> o + k <= |b|
  {
    if o + k <= |b| then Some(FromBE(b[o..o + k])) else None
  }

  lemma ReadBound(b: Bytes, o: nat, k: nat)
    requires o + k <= |b|
    ensures ReadBE(b, o, k).value < Pow256(k)
    ensures k == 2 ==> ReadBE(b, o, k).value < 0x1_0000
    ensures k == 4 ==> ReadBE(b, o, k).value < 0x1_0000_0000
  {
    FromBEBound(b[o..o + k]);
    Pow256Values();
  }

  /** Reading a field finds exactly what writing it there left. */
  lemma ReadIsWritten(b: Bytes, o: nat, k: nat, n: nat)
    requires n < Pow256(k)
    ensures ReadBE(b, o, k) == Some(n) <==> At(b, o, ToBE(n, k))
  {
    BERoundTrip(n, k);
    if o + k <= |b| {
      WrittenExactly(b[o..o + k], k, n);
    }
  }

  lemma WrittenExactly(s: Bytes, k: nat, n: nat)
    requires n < Pow256(k) && |s| == k
    ensures FromBE(s) == n <==> s == ToBE(n, k)
  {
    BERoundTrip(n, k);
    BEUnique(s);
  }

  // Quotients

  lemma TimesAtLeast(p: nat, d: int)
    requires p > 0
    ensures d > 0 ==> p * d >= p
    ensures d <= 0 ==> p * d <= 0
    ensures d < 0 ==> p * d + p <= 0
  {
  }

  lemma QuotientUnique(x: int, p: int, q: int, r: int)
    requires p > 0 && x == p * q + r && 0 <= r < p
    ensures x / p == q && x % p == r
  {
    var d := x / p - q;
    assert x == p * (x / p) + x % p;
    assert p * d == r - x % p;
    TimesAtLeast(p, d);
  }

  // Numbers without leading zeros

  /** `n.bit_length()` */
  function BitLength(n: nat): nat {
    if n == 0 then 0 else 1 + BitLength(n / 2)
  }

  /** The bytes needed for `n`: none for 0. */
  function ByteLength(n: nat): (k: nat)
    ensures n < Pow256(k)
    ensures k > 0 ==> Pow256(k - 1) <= n
  {
    if n == 0 then 0 else 1 + ByteLength(n / 256)
  }

  /** `(n.bit_length() + 7) // 8` is the number of bytes. */
  lemma {:induction false} BytesOfBits(n: nat)
    ensures (BitLength(n) + 7) / 8 == ByteLength(n)
  {
    if n >= 256 {
      BytesOfBits(n / 256);
      EightBits(n);
    } else if n > 0 {
      SmallBits(n);
      assert n / 256 == 0;
    }
  }

  lemma EightBits(n: nat)
    requires n >= 256
    ensures BitLength(n) == 8 + BitLength(n / 256)
  {
    var a, b := n / 2, n / 16;
    assert BitLength(n) == 4 + BitLength(b) by {
      assert a / 2 == n / 4 && n / 4 / 2 == n / 8 && n / 8 / 2 == b;
      assert BitLength(n) == 1 + BitLength(a) && BitLength(a) == 1 + BitLength(n / 4);
      assert BitLength(n / 4) == 1 + BitLength(n / 8) && BitLength(n / 8) == 1 + BitLength(b);
    }
    assert b / 2 == n / 32 && n / 32 / 2 == n / 64 && n / 64 / 2 == n / 128 && n / 128 / 2 == n / 256;
    assert BitLength(b) == 1 + BitLength(n / 32) && BitLength(n / 32) == 1 + BitLength(n / 64);
    assert BitLength(n / 64) == 1 + BitLength(n / 128) && BitLength(n / 128) == 1 + BitLength(n / 256);
  }

  lemma SmallBits(n: nat)
    requires 0 < n < 256
    ensures 1 <= BitLength(n) <= 8
  {
    BitsBelow(n, 8);
  }

  lemma {:induction false} BitsBelow(n: nat, k: nat)
    requires n < Pow2(k)
    ensures BitLength(n) <= k
  {
    if n > 0 {
      BitsBelow(n / 2, k - 1);
    }
  }

  function Pow2(k: nat): (r: nat)
    ensures r > 0
  {
    if k == 0 then 1 else 2 * Pow2(k - 1)
  }

  // Hexadecimal text

  function HexDigit(d: nat): (c: char)
    requires d < 16
  {
    "0123456789abcdef"[d]
  }

  function HexDigitValue(c: char): (r: Option<nat>)
    ensures r.Some? ==> r.value < 16
  {
    if '0' <= c <= '9' then Some((c - '0') as nat)
    else if 'a' <= c <= 'f' then Some((c - 'a') as nat + 10)
    else if 'A' <= c <= 'F' then Some((c - 'A') as nat + 10)
    else None
  }

  lemma HexDigitRoundTrip(d: nat)
    requires d < 16
    ensures HexDigitValue(HexDigit(d)) == Some(d)
    ensures !IsSpace(HexDigit(d)) && HexDigit(d) != ':'
  {
  }

  /** `bytes.hex()` */
  function ToHex(b: Bytes): (s: string)
    ensures |s| == 2 * |b|
  {
    if b == [] then "" else [HexDigit(b[0] / 16), HexDigit(b[0] % 16)] + ToHex(b[1..])
  }

  /** Hex digits of a number, none for 0. */
  function Digits(n: nat): (s: string)
    ensures s == "" <==> n == 0
    ensures s != "" ==> s[0] != '0'
  {
    if n == 0 then "" else Digits(n / 16) + [HexDigit(n % 16)]
  }

  /** `hex(n)[2:]` */
  function HexOf(n: nat): (s: string)
    ensures s != ""
  {
    if n == 0 then "0" else Digits(n)
  }

  lemma HexOfLast(n: nat)
    ensures n < 16 ==> HexOf(n) == [HexDigit(n)]
    ensures n >= 16 ==> HexOf(n) == HexOf(n / 16) + [HexDigit(n % 16)]
  {
    if 0 < n < 16 {
      assert Digits(n) == Digits(0) + [HexDigit(n)];
    }
  }

  lemma {:induction false} ToHexSnoc(b: Bytes, x: byte)
    ensures ToHex(b + [x]) == ToHex(b) + [HexDigit(x / 16), HexDigit(x % 16)]
  {
    if b == [] {
      assert [x][1..] == [];
    } else {
      ToHexSnoc(b[1..], x);
      assert (b + [x])[1..] == b[1..] + [x];
    }
  }

  predicate IsSpace(c: char) {
    c == ' ' || c == '\t' || c == '\n' || c == '\r' || c == '\U{b}' || c == '\U{c}'
  }

  /** `bytes.fromhex`: white space is skipped between bytes; None is `ValueError`. */
  function FromHex(s: string): (r: Option<Bytes>) {
    if s == "" then Some([])
    else if IsSpace(s[0]) then FromHex(s[1..])
    else if |s| == 1 then None
    else
      var hi, lo, rest := HexDigitValue(s[0]), HexDigitValue(s[1]), FromHex(s[2..]);
      if hi.Some? && lo.Some? && rest.Some? then Some([hi.value * 16 + lo.value] + rest.value) else None
  }

  /** Two lower-case digits a byte, the higher half first. */
  lemma {:induction false} HexText(b: Bytes, i: nat)
    requires i < |b|
    ensures ToHex(b)[2 * i] == "0123456789abcdef"[b[i] / 16] && ToHex(b)[2 * i + 1] == "0123456789abcdef"[b[i] % 16]
  {
    if i > 0 {
      HexText(b[1..], i - 1);
      assert ToHex(b)[2..] == ToHex(b[1..]);
    }
  }

  lemma {:induction false} HexRoundTrip(b: Bytes)
    ensures FromHex(ToHex(b)) == Some(b)
  {
    if b != [] {
      HexRoundTrip(b[1..]);
      var s := ToHex(b);
      assert s[0] == HexDigit(b[0] / 16) && s[1] == HexDigit(b[0] % 16);
      assert s[2..] == ToHex(b[1..]);
      HexPair(s, b[0], b[1..]);
      assert [b[0]] + b[1..] == b;
    }
  }

  lemma HexPair(s: string, x: byte, rest: Bytes)
    requires |s| >= 2 && s[0] == HexDigit(x / 16) && s[1] == HexDigit(x % 16) && FromHex(s[2..]) == Some(rest)
    ensures FromHex(s) == Some([x] + rest)
  {
    HexDigitRoundTrip(x / 16);
    HexDigitRoundTrip(x % 16);
    assert x / 16 * 16 + x % 16 == x;
  }

  /** `str.lower()` of hexadecimal digits. */
  function Lowered(c: char): char {
    if 'A' <= c <= 'F' then c - 'A' + 'a' else c
  }

  /** A character's value as a digit is where its lower-case form stands among the digits. */
  lemma DigitExactly(c: char, d: nat)
    requires d < 16
    ensures HexDigitValue(c) == Some(d) <==> Lowered(c) == "0123456789abcdef"[d]
  {
  }

  /** The text is two digits a byte, in either case. */
  ghost predicate HexFor(s: string, b: Bytes) {
    |s| == 2 * |b| && forall i | 0 <= i < |b| :: PairAt(s, b, i)
  }

  ghost predicate PairAt(s: string, b: Bytes, i: nat)
    requires |s| == 2 * |b| && i < |b|
  {
    Lowered(s[2 * i]) == "0123456789abcdef"[b[i] / 16] && Lowered(s[2 * i + 1]) == "0123456789abcdef"[b[i] % 16]
  }

  lemma HexForRest(s: string, b: Bytes)
    requires |s| == 2 * |b| && b != []
    ensures HexFor(s, b) <==> PairAt(s, b, 0) && HexFor(s[2..], b[1..])
  {
    if HexFor(s, b) {
      forall i | 0 <= i < |b| - 1
        ensures PairAt(s[2..], b[1..], i)
      {
        assert PairAt(s, b, i + 1);
      }
    }
    if PairAt(s, b, 0) && HexFor(s[2..], b[1..]) {
      forall i | 0 <= i < |b|
        ensures PairAt(s, b, i)
      {
        assert i > 0 ==> PairAt(s[2..], b[1..], i - 1);
      }
    }
  }

  /** Text without white space is read as `b` exactly when it shows the bytes of `b`. */
  lemma {:induction false} HexExactly(s: string, b: Bytes)
    requires forall c | c in s :: !IsSpace(c)
    ensures FromHex(s) == Some(b) <==> HexFor(s, b)
  {
    if |s| >= 2 && b != [] {
      var x := b[0];
      assert forall c | c in s[2..] :: c in s;
      HexExactly(s[2..], b[1..]);
      DigitExactly(s[0], x / 16);
      DigitExactly(s[1], x % 16);
      if |s| == 2 * |b| {
        HexForRest(s, b);
      }
      assert b == [x] + b[1..];
      FirstPair(s, x, b[1..]);
    } else if |s| == 1 {
      assert !IsSpace(s[0]);
    }
  }

  lemma FirstPair(s: string, x: byte, rest: Bytes)
    requires |s| >= 2 && !IsSpace(s[0])
    ensures FromHex(s) == Some([x] + rest) <==>
            HexDigitValue(s[0]) == Some(x / 16) && HexDigitValue(s[1]) == Some(x % 16) && FromHex(s[2..]) == Some(rest)
  {
    var hi, lo, r := HexDigitValue(s[0]), HexDigitValue(s[1]), FromHex(s[2..]);
    if hi.Some? && lo.Some? && r.Some? {
      var y: nat := hi.value * 16 + lo.value;
      assert FromHex(s) == Some([y] + r.value);
      assert y / 16 == hi.value && y % 16 == lo.value;
      assert ([y] + r.value)[0] == y && ([y] + r.value)[1..] == r.value;
      assert ([x] + rest)[0] == x && ([x] + rest)[1..] == rest;
    }
  }

  lemma {:induction false} HexHasNoSeparator(b: Bytes)
    ensures ' ' !in ToHex(b) && ':' !in ToHex(b) && '\n' !in ToHex(b)
  {
    if b != [] {
      HexHasNoSeparator(b[1..]);
      HexDigitRoundTrip(b[0] / 16);
      HexDigitRoundTrip(b[0] % 16);
    }
  }

  lemma Reassociate<T>(a: seq<T>, b: seq<T>, c: seq<T>)
    ensures a + (b + c) == (a + b) + c
  {
  }

  // UTF-8 (RFC 3629)

  function EncodeChar(c: char): (r: Bytes)
    ensures 1 <= |r| <= 4
  {
    var n := c as int;
    if n < 0x80 then [n]
    else if n < 0x800 then [0xC0 + n / 0x40, 0x80 + n % 0x40]
    else if n < 0x1_0000 then [0xE0 + n / 0x1000, 0x80 + n / 0x40 % 0x40, 0x80 + n % 0x40]
    else [0xF0 + n / 0x4_0000, 0x80 + n / 0x1000 % 0x40, 0x80 + n / 0x40 % 0x40, 0x80 + n % 0x40]
  }

  /** `str.encode("utf-8")` */
  function Utf8(s: string): (r: Bytes)
    ensures |r| >= |s|
  {
    if s == "" then [] else EncodeChar(s[0]) + Utf8(s[1..])
  }

  predicate Ascii(s: string) {
    forall c | c in s :: c as int < 0x80
  }

  function CodePoint(b: Bytes): int
    requires 1 <= |b| <= 4
  {
    var f, g := b[0] as int, (i: nat) requires 0 < i < |b| => b[i] as int - 0x80;
    if |b| == 1 then f
    else if |b| == 2 then (f - 0xC0) * 0x40 + g(1)
    else if |b| == 3 then (f - 0xE0) * 0x1000 + g(1) * 0x40 + g(2)
    else (f - 0xF0) * 0x4_0000 + g(1) * 0x1000 + g(2) * 0x40 + g(3)
  }

  lemma CodePointOf(c: char)
    ensures CodePoint(EncodeChar(c)) == c as int
  {
    var n := c as int;
    assert n / 0x40 == n / 0x1000 * 0x40 + n / 0x40 % 0x40;
    assert n / 0x1000 == n / 0x4_0000 * 0x40 + n / 0x1000 % 0x40;
  }

  /** The first byte tells the length. */
  lemma CodeLength(c: char, d: char)
    requires EncodeChar(c)[0] == EncodeChar(d)[0]
    ensures |EncodeChar(c)| == |EncodeChar(d)|
  {
  }

  /** The code of one character is no proper prefix of another's. */
  lemma EncodeCharPrefixFree(c: char, d: char, x: Bytes, y: Bytes)
    requires EncodeChar(c) + x == EncodeChar(d) + y
    ensures c == d && x == y
  {
    var a, b := EncodeChar(c), EncodeChar(d);
    SameLengthPrefix(a, b, x, y);
    CodeLength(c, d);
    CodePointOf(c);
    CodePointOf(d);
  }

  lemma SameLengthPrefix(a: Bytes, b: Bytes, x: Bytes, y: Bytes)
    requires a + x == b + y && a != [] && b != []
    ensures a[0] == b[0]
    ensures |a| == |b| ==> a == b && x == y
  {
    assert (a + x)[0] == a[0] && (b + y)[0] == b[0];
    if |a| == |b| {
      assert (a + x)[..|a|] == a && (b + y)[..|b|] == b;
      assert (a + x)[|a|..] == x && (b + y)[|b|..] == y;
    }
  }

  /** Knowing how many characters were encoded is enough to find where they end. */
  lemma {:induction false} Utf8PrefixFree(s: string, t: string, x: Bytes, y: Bytes)
    requires |s| == |t| && Utf8(s) + x == Utf8(t) + y
    ensures s == t && x == y
  {
    if s == "" {
      assert Utf8(s) + x == x && Utf8(t) + y == y;
    } else {
      assert Utf8(s) + x == EncodeChar(s[0]) + (Utf8(s[1..]) + x);
      assert Utf8(t) + y == EncodeChar(t[0]) + (Utf8(t[1..]) + y);
      EncodeCharPrefixFree(s[0], t[0], Utf8(s[1..]) + x, Utf8(t[1..]) + y);
      Utf8PrefixFree(s[1..], t[1..], x, y);
    }
  }

  lemma {:induction false} Utf8OfAscii(s: string)
    ensures Ascii(s) <==> |Utf8(s)| == |s|
    ensures Ascii(s) ==> forall i | 0 <= i < |s| :: Utf8(s)[i] == s[i] as int
  {
    if s != "" {
      Utf8OfAscii(s[1..]);
      assert s[0] in s;
      assert forall c | c in s[1..] :: c in s;
      assert forall c | c in s :: c == s[0] || c in s[1..];
      assert Ascii(s) <==> s[0] as int < 0x80 && Ascii(s[1..]);
    }
  }

  lemma {:induction false} Utf8Injective(s: string, t: string)
    requires Utf8(s) == Utf8(t)
    ensures s == t
  {
    if s != "" && t != "" {
      EncodeCharPrefixFree(s[0], t[0], Utf8(s[1..]), Utf8(t[1..]));
      Utf8Injective(s[1..], t[1..]);
    }
  }
}
