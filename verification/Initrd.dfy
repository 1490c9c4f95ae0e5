/** Finding the main initrd behind an early cpio archive. */
module Initrd {
  import opened Bytes

  /**
   * `parse` stands for `int("0x" + field.decode(), 0)`, None for its ValueError; `decodes` tells whether bytes are
   * UTF-8, which the warning about a corrupt archive needs.
   */
  datatype Text = Text(parse: Bytes -> Option<nat>, decodes: Bytes -> bool)

  const NAMESIZE_OFFSET := 94
  const FILESIZE_OFFSET := 54
  const HEADER_LEN := 110
  const END_LEN := 10
  const BUFFER_SIZE := 2048
  const ALIGNMENT := 4
  const TRAILER: Bytes := [84, 82, 65, 73, 76, 69, 82, 33, 33, 33]
  const NEW_ASCII: Bytes := [48, 55, 48, 55, 48, 49]
  const CRC: Bytes := [48, 55, 48, 55, 48, 50]

  // Alignment

  /** `x & ~m`, bit by bit. */
  function AndNot(x: nat, m: nat): nat {
    if m == 0 then x else 2 * AndNot(x / 2, m / 2) + (if m % 2 == 1 then 0 else x % 2)
  }

  function AlignUp(pos: nat, alignment: nat): nat
    requires alignment > 0
  {
    AndNot(pos + alignment - 1, alignment - 1)
  }

  lemma HalfQuotient(x: nat, p: nat)
    requires p > 0
    ensures x / 2 / p == x / (2 * p)
  {
    var q, r := x / (2 * p), x % (2 * p);
    assert x == 2 * p * q + r;
    assert x / 2 == p * q + r / 2 by {
      assert 2 * p * q == 2 * (p * q);
    }
    assert 0 <= r / 2 < p;
    assert (p * q + r / 2) / p == q by {
      assert p * q + r / 2 == q * p + r / 2;
      QuotientUnique(p * q + r / 2, p, q, r / 2);
    }
  }

  lemma Twice(p: nat, q: nat)
    ensures 2 * (p * q) == (2 * p) * q
  {
  }

  lemma {:induction false} AndNotClears(x: nat, k: nat)
    ensures AndNot(x, Pow2(k) - 1) == Pow2(k) * (x / Pow2(k))
  {
    if k > 0 {
      var p := Pow2(k - 1);
      AndNotClears(x / 2, k - 1);
      assert (Pow2(k) - 1) / 2 == p - 1 && (Pow2(k) - 1) % 2 == 1;
      HalfQuotient(x, p);
      Twice(p, x / Pow2(k));
    }
  }

  lemma MultipleBelow(a: nat, q: int, m: nat)
    requires a > 0 && m % a == 0 && m < a * q
    ensures m <= a * q - a
  {
    var d := q - m / a;
    assert a * q - m == a * d;
    TimesAtLeast(a, d);
  }

  lemma CeilingIsLeast(pos: nat, a: nat, q: nat)
    requires a > 0 && q == (pos + a - 1) / a
    ensures pos <= a * q && (a * q) % a == 0
    ensures forall m: nat | m % a == 0 && pos <= m :: a * q <= m
  {
    assert pos + a - 1 == a * q + (pos + a - 1) % a;
    QuotientUnique(a * q, a, q, 0);
    forall m: nat | m % a == 0 && pos <= m ensures a * q <= m {
      if m < a * q {
        MultipleBelow(a, q, m);
      }
    }
  }

  /** For a power of two: the least multiple that is not below the position. */
  lemma AlignUpIsLeast(pos: nat, k: nat)
    ensures pos <= AlignUp(pos, Pow2(k)) && AlignUp(pos, Pow2(k)) % Pow2(k) == 0
    ensures forall m: nat | m % Pow2(k) == 0 && pos <= m :: AlignUp(pos, Pow2(k)) <= m
  {
    var a := Pow2(k);
    var q := (pos + a - 1) / a;
    AndNotClears(pos + a - 1, k);
    CeilingIsLeast(pos, a, q);
    assert AlignUp(pos, a) == a * q;
  }

  // Open files

  /** `b[i:j]` */
  function Slice(b: Bytes, i: nat, j: nat): Bytes
    requires i <= j
  {
    KeepTo(DropAt(b, i), j - i)
  }

  class OpenFile {
    const content: Bytes
    var offset: nat

    constructor (content: Bytes)
      ensures this.content == content && offset == 0
    {
      this.content, offset := content, 0;
    }

    method Seek(to: nat)
      modifies this
      ensures offset == to
    {
      offset := to;
    }

    method Read(count: nat) returns (b: Bytes)
      modifies this
      ensures b == Slice(content, old(offset), old(offset) + count)
      ensures offset == old(offset) + |b|
    {
      b := Slice(content, offset, offset + count);
      offset := offset + |b|;
    }

    method ReadAt(at: nat, count: nat) returns (b: Bytes)
      modifies this
      ensures b == Slice(content, at, at + count)
      ensures offset == at + |b|
    {
      Seek(at);
      b := Read(count);
    }

    /** Reads one byte and puts it back. */
    method IsEof() returns (eof: bool)
      modifies this
      ensures eof <==> offset >= |content|
      ensures offset == old(offset)
    {
      var s := Read(1);
      if s != [] {
        Seek(offset - 1);
      }
      eof := s == [];
    }
  }

  // The scan as a function

  datatype Scan = Raised | Return(pos: nat) | Trailer(end: nat)

  predicate IsMagic(b: Bytes) {
    KeepTo(b, 6) == NEW_ASCII || KeepTo(b, 6) == CRC
  }

  function Ceil4(n: nat): (r: nat)
    ensures n <= r < n + 4 && r % 4 == 0
  {
    (n + 3) / 4 * 4
  }

  lemma AlignUp4(pos: nat)
    ensures AlignUp(pos, ALIGNMENT) == Ceil4(pos)
  {
    assert Pow2(2) == 4;
    AlignUpIsLeast(pos, 2);
    assert AlignUp(pos, 4) <= Ceil4(pos);
  }

  function NextRecord(pos: nat, nameLen: nat, fileSize: nat): (next: nat)
    ensures next >= pos + HEADER_LEN
  {
    Ceil4(Ceil4(pos + HEADER_LEN + nameLen) + fileSize)
  }

  /** Record after record, from the one at `pos` whose first bytes are in the buffer. */
  function Records(t: Text, f: Bytes, pos: nat, buffer: Bytes): Scan
    requires pos <= |f|
    decreases |f| - pos
  {
    var nameLen := t.parse(Slice(buffer, NAMESIZE_OFFSET, NAMESIZE_OFFSET + 8));
    var fileSize := t.parse(Slice(buffer, FILESIZE_OFFSET, FILESIZE_OFFSET + 8));
    if nameLen.None? || fileSize.None? then Raised
    else
      var next := NextRecord(pos, nameLen.value, fileSize.value);
      if nameLen.value == END_LEN + 1 && Slice(buffer, HEADER_LEN, pos + HEADER_LEN + nameLen.value) == TRAILER then Trailer(next)
      else
        var b := Slice(f, next, next + HEADER_LEN + END_LEN);
        if !IsMagic(b) then if t.decodes(KeepTo(b, 6)) then Return(next) else Raised
        else if next + |b| >= |f| then Return(next)
        else Records(t, f, next, b)
  }

  /** The first byte at or after `pos` that is not zero. */
  function FirstNonzero(f: Bytes, pos: nat): (r: Option<nat>)
    ensures r.Some? ==> pos <= r.value < |f| && f[r.value] != 0 && forall i | pos <= i < r.value :: f[i] == 0
    ensures r.None? ==> forall i | pos <= i < |f| :: f[i] == 0
    decreases |f| - pos
  {
    if pos >= |f| then None else if f[pos] != 0 then Some(pos) else FirstNonzero(f, pos + 1)
  }

  /** None: an exception. */
  function Skip(t: Text, f: Bytes): Option<nat> {
    if !IsMagic(f) then Some(0)
    else
      match Records(t, f, 0, KeepTo(f, BUFFER_SIZE))
      case Raised => None
      case Return(pos) => Some(pos)
      case Trailer(end) =>
        if end >= |f| then Some(end)
        else
          var payload := FirstNonzero(f, end);
          if payload.Some? then payload else Some(0)
  }

  /** The file begins with `070701` or `070702`. */
  ghost predicate BeginsLikeCpio(f: Bytes) {
    |f| >= 6 && (f[5] == '1' as int || f[5] == '2' as int) && forall i | 0 <= i < 5 :: f[i] == "07070"[i] as int
  }

  lemma MagicExactly(f: Bytes)
    ensures IsMagic(f) <==> BeginsLikeCpio(f)
  {
    if IsMagic(f) {
      assert |f| >= 6 && f[..6] == KeepTo(f, 6);
      assert forall i | 0 <= i < 6 :: f[i] == f[..6][i];
    }
    if BeginsLikeCpio(f) {
      assert f[0] == "07070"[0] as int && f[1] == "07070"[1] as int && f[2] == "07070"[2] as int;
      assert f[3] == "07070"[3] as int && f[4] == "07070"[4] as int;
      assert f[..6] == [48, 55, 48, 55, 48, f[5]];
    }
  }

  /** Any other file has nothing to skip. */
  lemma NoArchive(t: Text, f: Bytes)
    requires !BeginsLikeCpio(f)
    ensures Skip(t, f) == Some(0)
  {
    MagicExactly(f);
  }

  // The scan on an open file

  lemma FirstNonzeroIs(f: Bytes, pos: nat, r: Option<nat>)
    requires r.Some? ==> pos <= r.value < |f| && f[r.value] != 0 && forall i | pos <= i < r.value :: f[i] == 0
    requires r.None? ==> forall i | pos <= i < |f| :: f[i] == 0
    ensures FirstNonzero(f, pos) == r
  {
  }

  /** Zeros in chunks. */
  method SkipZeros(infile: OpenFile, start: nat, previous: nat) returns (pos: nat)
    requires start < |infile.content|
    modifies infile
    ensures pos == var r := FirstNonzero(infile.content, start); if r.Some? then r.value else previous
  {
    var f := infile.content;
    pos := start;
    while true
      invariant start <= pos < |f|
      invariant forall i | start <= i < pos :: f[i] == 0
      decreases |f| - pos
    {
      var buffer := infile.ReadAt(pos, BUFFER_SIZE);
      var i := 0;
      while i < |buffer| - 1 && buffer[i] == 0
        invariant 0 <= i < |buffer|
        invariant forall j | 0 <= j < i :: buffer[j] == 0
      {
        i := i + 1;
      }
      assert forall j | 0 <= j < |buffer| :: buffer[j] == f[pos + j];
      if buffer[i] != 0 {
        assert forall j | pos <= j < pos + i :: f[j] == buffer[j - pos];
        pos := pos + i;
        infile.Seek(pos);
        FirstNonzeroIs(f, start, Some(pos));
        return;
      }
      assert forall j | pos <= j < pos + |buffer| :: f[j] == buffer[j - pos];
      pos := pos + |buffer|;
      var eof := infile.IsEof();
      if eof {
        FirstNonzeroIs(f, start, None);
        return previous;
      }
    }
  }

  method Align(pos: nat) returns (r: nat)
    ensures r == Ceil4(pos)
  {
    AlignUp4(pos);
    r := AlignUp(pos, ALIGNMENT);
  }

  /** Record after record, up to the trailer, the end of the file or what is no record. */
  method ScanRecords(t: Text, infile: OpenFile, first: Bytes) returns (scan: Scan)
    modifies infile
    ensures scan == Records(t, infile.content, 0, first)
    ensures scan.Trailer? ==> infile.offset == scan.end
  {
    var f, pos: nat, buffer := infile.content, 0, first;
    ghost var whole := Records(t, f, 0, first);
    while true
      invariant pos <= |f| && Records(t, f, pos, buffer) == whole
      decreases |f| - pos
    {
      var nameLen := t.parse(Slice(buffer, NAMESIZE_OFFSET, NAMESIZE_OFFSET + 8));
      if nameLen.None? {
        return Raised;
      }
      var fileSize := t.parse(Slice(buffer, FILESIZE_OFFSET, FILESIZE_OFFSET + 8));
      if fileSize.None? {
        return Raised;
      }
      var filename := Slice(buffer, HEADER_LEN, pos + HEADER_LEN + nameLen.value);
      pos := Align(pos + HEADER_LEN + nameLen.value);
      pos := Align(pos + fileSize.value);
      if nameLen.value == END_LEN + 1 && filename == TRAILER {
        infile.Seek(pos);
        return Trailer(pos);
      }
      buffer := infile.ReadAt(pos, HEADER_LEN + END_LEN);
      if !IsMagic(buffer) {
        return if t.decodes(KeepTo(buffer, 6)) then Return(pos) else Raised;
      }
      var end := infile.IsEof();
      if end {
        return Return(pos);
      }
    }
  }

  method SkipCpio(t: Text, infile: OpenFile) returns (result: Option<nat>)
    modifies infile
    ensures result == Skip(t, infile.content)
  {
    var buffer := infile.ReadAt(0, BUFFER_SIZE);
    infile.Seek(0);
    if !IsMagic(buffer) {
      return Some(0);
    }
    var scan := ScanRecords(t, infile, buffer);
    if scan.Raised? {
      return None;
    }
    if scan.Return? {
      return Some(scan.pos);
    }
    var eof := infile.IsEof();
    if eof {
      return Some(scan.end);
    }
    var pos := SkipZeros(infile, scan.end, 0);
    result := Some(pos);
  }

  // Archives

  /** The name ends with its NUL; header and data carry their lengths as text. */
  datatype Entry = Entry(header: Bytes, name: Bytes, data: Bytes)

  ghost predicate WellFormed(t: Text, e: Entry) {
    && |e.header| == HEADER_LEN && IsMagic(e.header)
    && t.parse(e.header[NAMESIZE_OFFSET..NAMESIZE_OFFSET + 8]) == Some(|e.name|)
    && t.parse(e.header[FILESIZE_OFFSET..FILESIZE_OFFSET + 8]) == Some(|e.data|)
  }

  predicate NamedTrailer(e: Entry) {
    |e.name| == END_LEN + 1 && e.name[..END_LEN] == TRAILER
  }

  function Padding(n: nat): (r: Bytes)
    ensures (n + |r|) % 4 == 0 && |r| < 4
  {
    Zeros((4 - n % 4) % 4)
  }

  function Encode(e: Entry): Bytes {
    e.header + (e.name + Padding(|e.header| + |e.name|) + e.data + Padding(|e.data|))
  }

  /** The entries of an archive, or of the rest of one; the last is to be its trailer. */
  datatype Entries = Last(first: Entry) | More(first: Entry, rest: Entries)

  function EncodeAll(es: Entries): Bytes {
    match es
    case Last(e) => Encode(e)
    case More(e, rest) => Encode(e) + EncodeAll(rest)
  }

  /** Ordinary records and a trailer. */
  ghost predicate Archive(t: Text, es: Entries) {
    match es
    case Last(e) => WellFormed(t, e) && NamedTrailer(e)
    case More(e, rest) => WellFormed(t, e) && !NamedTrailer(e) && Archive(t, rest)
  }

  lemma NextIsAfter(e: Entry, pos: nat)
    requires |e.header| == HEADER_LEN && pos % 4 == 0
    ensures |Encode(e)| % 4 == 0 && (pos + |Encode(e)|) % 4 == 0
    ensures NextRecord(pos, |e.name|, |e.data|) == pos + |Encode(e)|
  {
    var n := HEADER_LEN + |e.name|;
    AlignedSum(pos, n, |Padding(n)|);
    var start := pos + n + |Padding(n)|;
    AlignedSum(start, |e.data|, |Padding(|e.data|)|);
  }

  lemma AlignedSum(pos: nat, n: nat, pad: nat)
    requires pos % 4 == 0 && (n + pad) % 4 == 0 && pad < 4
    ensures Ceil4(pos + n) == pos + n + pad
  {
  }

  /** What a buffer at the start of a record holds. */
  lemma BufferHead(f: Bytes, pos: nat, e: Entry, count: nat)
    requires At(f, pos, Encode(e)) && |e.header| == HEADER_LEN <= count
    ensures var b := Slice(f, pos, pos + count);
            && |b| >= HEADER_LEN && b[..HEADER_LEN] == e.header
            && (|e.name| >= END_LEN && count >= HEADER_LEN + END_LEN ==>
                  |b| >= HEADER_LEN + END_LEN && b[HEADER_LEN..HEADER_LEN + END_LEN] == e.name[..END_LEN])
  {
    var b, r := Slice(f, pos, pos + count), Encode(e);
    var here := f[pos..pos + |r|];
    assert |r| >= HEADER_LEN + |e.name|;
    SliceFront(f, pos, count, HEADER_LEN);
    assert b[..HEADER_LEN] == here[..HEADER_LEN] == r[..HEADER_LEN] == e.header;
    if |e.name| >= END_LEN && count >= HEADER_LEN + END_LEN {
      SliceFront(f, pos, count, HEADER_LEN + END_LEN);
      NameFront(e);
      assert b[HEADER_LEN..HEADER_LEN + END_LEN] == b[..HEADER_LEN + END_LEN][HEADER_LEN..];
      assert b[..HEADER_LEN + END_LEN] == here[..HEADER_LEN + END_LEN];
    }
  }

  lemma SliceFront(f: Bytes, pos: nat, count: nat, n: nat)
    requires n <= count && pos + n <= |f|
    ensures |Slice(f, pos, pos + count)| >= n && Slice(f, pos, pos + count)[..n] == f[pos..pos + n]
  {
  }

  lemma NameFront(e: Entry)
    requires |e.header| == HEADER_LEN && |e.name| >= END_LEN
    ensures Encode(e)[..HEADER_LEN + END_LEN][HEADER_LEN..] == e.name[..END_LEN]
  {
    var tail := e.name + Padding(|e.header| + |e.name|) + e.data + Padding(|e.data|);
    assert Encode(e) == e.header + tail;
    assert tail[..END_LEN] == e.name[..END_LEN];
  }

  /** The fields a header's buffer gives. */
  lemma Fields(t: Text, e: Entry, b: Bytes)
    requires WellFormed(t, e) && |b| >= HEADER_LEN && b[..HEADER_LEN] == e.header
    ensures IsMagic(b)
    ensures t.parse(Slice(b, NAMESIZE_OFFSET, NAMESIZE_OFFSET + 8)) == Some(|e.name|)
    ensures t.parse(Slice(b, FILESIZE_OFFSET, FILESIZE_OFFSET + 8)) == Some(|e.data|)
  {
    assert b[..HEADER_LEN][..6] == b[..6];
    assert Slice(b, NAMESIZE_OFFSET, NAMESIZE_OFFSET + 8) == e.header[NAMESIZE_OFFSET..NAMESIZE_OFFSET + 8];
    assert Slice(b, FILESIZE_OFFSET, FILESIZE_OFFSET + 8) == e.header[FILESIZE_OFFSET..FILESIZE_OFFSET + 8];
  }

  /** One record that is not taken for the trailer: `b` is the buffer behind it. */
  lemma OrdinaryRecord(t: Text, f: Bytes, pos: nat, e: Entry, buffer: Bytes, next: nat, b: Bytes)
    requires pos % 4 == 0 && pos <= |f| && next == pos + |Encode(e)| && b == Slice(f, next, next + HEADER_LEN + END_LEN)
    requires WellFormed(t, e) && |buffer| >= HEADER_LEN && buffer[..HEADER_LEN] == e.header
    requires |e.name| == END_LEN + 1 ==> Slice(buffer, HEADER_LEN, pos + HEADER_LEN + END_LEN + 1) != TRAILER
    ensures Records(t, f, pos, buffer) ==
              if !IsMagic(b) then if t.decodes(KeepTo(b, 6)) then Return(next) else Raised
              else if next + |b| >= |f| then Return(next)
              else Records(t, f, next, b)
  {
    Fields(t, e, buffer);
    NextIsAfter(e, pos);
    assert next == NextRecord(pos, |e.name|, |e.data|);
  }

  lemma FollowedRecord(t: Text, f: Bytes, pos: nat, e: Entry, buffer: Bytes, next: nat, following: Entry)
    requires pos % 4 == 0 && next == pos + |Encode(e)| && next + HEADER_LEN + END_LEN < |f| && At(f, next, Encode(following))
    requires WellFormed(t, e) && WellFormed(t, following)
    requires |buffer| >= HEADER_LEN && buffer[..HEADER_LEN] == e.header
    requires |e.name| == END_LEN + 1 ==> Slice(buffer, HEADER_LEN, pos + HEADER_LEN + END_LEN + 1) != TRAILER
    ensures Records(t, f, pos, buffer) == Records(t, f, next, Slice(f, next, next + HEADER_LEN + END_LEN))
  {
    var b := Slice(f, next, next + HEADER_LEN + END_LEN);
    OrdinaryRecord(t, f, pos, e, buffer, next, b);
    BufferHead(f, next, following, HEADER_LEN + END_LEN);
    Fields(t, following, b);
  }

  lemma TrailerRecord(t: Text, f: Bytes, pos: nat, e: Entry)
    requires At(f, pos, Encode(e)) && pos % 4 == 0 && WellFormed(t, e) && NamedTrailer(e)
    ensures Records(t, f, pos, Slice(f, pos, pos + HEADER_LEN + END_LEN)) == Trailer(pos + |Encode(e)|)
  {
    var b := Slice(f, pos, pos + HEADER_LEN + END_LEN);
    BufferHead(f, pos, e, HEADER_LEN + END_LEN);
    Fields(t, e, b);
    NextIsAfter(e, pos);
    assert Slice(b, HEADER_LEN, pos + HEADER_LEN + |e.name|) == TRAILER;
  }

  /** Records that end with a trailer are longer than a buffer, and begin with a record. */
  lemma {:induction false} ArchiveHead(t: Text, f: Bytes, pos: nat, es: Entries)
    requires At(f, pos, EncodeAll(es)) && Archive(t, es)
    ensures WellFormed(t, es.first) && At(f, pos, Encode(es.first)) && pos + HEADER_LEN + END_LEN < |f|
    decreases es
  {
    match es
    case Last(e) => NextIsAfter(e, 0);
    case More(e, rest) =>
      AtParts(f, pos, Encode(e), EncodeAll(rest));
      ArchiveHead(t, f, pos + |Encode(e)|, rest);
  }

  lemma MiddleRecord(t: Text, f: Bytes, pos: nat, e: Entry, next: nat, following: Entry)
    requires pos % 4 == 0 && next == pos + |Encode(e)| && next + HEADER_LEN + END_LEN < |f|
    requires At(f, pos, Encode(e)) && At(f, next, Encode(following))
    requires WellFormed(t, e) && !NamedTrailer(e) && WellFormed(t, following)
    ensures Records(t, f, pos, Slice(f, pos, pos + HEADER_LEN + END_LEN)) ==
              Records(t, f, next, Slice(f, next, next + HEADER_LEN + END_LEN))
  {
    var b := Slice(f, pos, pos + HEADER_LEN + END_LEN);
    NextIsAfter(e, pos);
    BufferHead(f, pos, e, HEADER_LEN + END_LEN);
    if |e.name| == END_LEN + 1 {
      assert Slice(b, HEADER_LEN, pos + HEADER_LEN + END_LEN + 1) == e.name[..END_LEN];
    }
    FollowedRecord(t, f, pos, e, b, next, following);
  }

  lemma MoreFollowed(t: Text, f: Bytes, pos: nat, e: Entry, rest: Entries, next: nat)
    requires At(f, pos, Encode(e)) && next == pos + |Encode(e)| && At(f, next, EncodeAll(rest)) && pos % 4 == 0
    requires WellFormed(t, e) && !NamedTrailer(e) && Archive(t, rest)
    ensures next % 4 == 0
    ensures Records(t, f, pos, Slice(f, pos, pos + HEADER_LEN + END_LEN)) ==
              Records(t, f, next, Slice(f, next, next + HEADER_LEN + END_LEN))
  {
    ArchiveHead(t, f, next, rest);
    NextIsAfter(e, pos);
    MiddleRecord(t, f, pos, e, next, rest.first);
  }

  lemma {:induction false} RecordsFindTrailer(t: Text, f: Bytes, pos: nat, es: Entries)
    requires At(f, pos, EncodeAll(es)) && pos % 4 == 0 && Archive(t, es)
    ensures Records(t, f, pos, Slice(f, pos, pos + HEADER_LEN + END_LEN)) == Trailer(pos + |EncodeAll(es)|)
    decreases es
  {
    match es
    case Last(e) => TrailerRecord(t, f, pos, e);
    case More(e, rest) =>
      var next: nat := pos + |Encode(e)|;
      AtParts(f, pos, Encode(e), EncodeAll(rest));
      MoreFollowed(t, f, pos, e, rest, next);
      RecordsFindTrailer(t, f, next, rest);
  }

  /** The first record is read with its whole name, and so never taken for the trailer. */
  lemma FirstFollowed(t: Text, f: Bytes, e: Entry, es: Entries, next: nat, buffer: Bytes)
    requires At(f, 0, Encode(e)) && next == |Encode(e)| && At(f, next, EncodeAll(es)) && WellFormed(t, e) && Archive(t, es)
    requires buffer == KeepTo(f, BUFFER_SIZE)
    ensures Records(t, f, 0, buffer) == Records(t, f, next, Slice(f, next, next + HEADER_LEN + END_LEN))
    ensures IsMagic(f)
  {
    ArchiveHead(t, f, next, es);
    FirstBuffer(t, f, e, buffer);
    FollowedRecord(t, f, 0, e, buffer, next, es.first);
  }

  lemma FirstRecord(t: Text, f: Bytes, e: Entry, es: Entries)
    requires At(f, 0, Encode(e) + EncodeAll(es)) && WellFormed(t, e) && Archive(t, es)
    ensures Records(t, f, 0, KeepTo(f, BUFFER_SIZE)) == Trailer(|Encode(e)| + |EncodeAll(es)|)
    ensures IsMagic(f)
  {
    var next: nat := |Encode(e)|;
    AtParts(f, 0, Encode(e), EncodeAll(es));
    NextIsAfter(e, 0);
    FirstFollowed(t, f, e, es, next, KeepTo(f, BUFFER_SIZE));
    RecordsFindTrailer(t, f, next, es);
  }

  lemma FirstBuffer(t: Text, f: Bytes, e: Entry, buffer: Bytes)
    requires At(f, 0, Encode(e)) && WellFormed(t, e) && |f| > HEADER_LEN + END_LEN && buffer == KeepTo(f, BUFFER_SIZE)
    ensures IsMagic(f) && |buffer| >= HEADER_LEN && buffer[..HEADER_LEN] == e.header
    ensures Slice(buffer, HEADER_LEN, HEADER_LEN + END_LEN + 1) != TRAILER
  {
    assert buffer == Slice(f, 0, BUFFER_SIZE);
    BufferHead(f, 0, e, BUFFER_SIZE);
    Fields(t, e, buffer);
    assert buffer[..6] == f[..6];
    FirstName(e, buffer);
  }

  lemma FirstName(e: Entry, buffer: Bytes)
    requires |e.header| == HEADER_LEN && |buffer| >= HEADER_LEN + END_LEN + 1
    ensures Slice(buffer, HEADER_LEN, HEADER_LEN + END_LEN + 1) != TRAILER
  {
    assert |Slice(buffer, HEADER_LEN, HEADER_LEN + END_LEN + 1)| == END_LEN + 1;
  }

  /**
   * For every archive of at least one record and a trailer, whatever zeros follow it and whatever payload follows
   * them, the scan ends at the payload's first byte. Without payload it ends at 0, or at the end if no zero follows.
   */
  lemma PayloadFound(t: Text, e: Entry, es: Entries, archive: Bytes, zeros: nat, payload: Bytes, f: Bytes)
    requires WellFormed(t, e) && Archive(t, es) && archive == Encode(e) + EncodeAll(es)
    requires f == archive + (Zeros(zeros) + payload) && (payload != [] ==> payload[0] != 0)
    ensures Skip(t, f) == Some(if payload != [] then |archive| + zeros else if zeros == 0 then |archive| else 0)
  {
    assert f[..|archive|] == archive;
    FirstRecord(t, f, e, es);
    SkipAfterTrailer(t, f, |archive|);
    AfterArchive(f, archive, zeros, payload);
  }

  lemma SkipAfterTrailer(t: Text, f: Bytes, end: nat)
    requires IsMagic(f) && Records(t, f, 0, KeepTo(f, BUFFER_SIZE)) == Trailer(end)
    ensures end >= |f| ==> Skip(t, f) == Some(end)
    ensures end < |f| ==> Skip(t, f) == if FirstNonzero(f, end).Some? then FirstNonzero(f, end) else Some(0)
  {
  }

  lemma AfterArchive(f: Bytes, archive: Bytes, zeros: nat, payload: Bytes)
    requires f == archive + (Zeros(zeros) + payload) && (payload != [] ==> payload[0] != 0)
    ensures FirstNonzero(f, |archive|) == if payload != [] then Some(|archive| + zeros) else None
    ensures |f| == |archive| + zeros + |payload|
  {
    assert forall i | |archive| <= i < |archive| + zeros :: f[i] == 0;
    if payload != [] {
      assert f[|archive| + zeros] == payload[0];
      FirstNonzeroIs(f, |archive|, Some(|archive| + zeros));
    } else {
      FirstNonzeroIs(f, |archive|, None);
    }
  }

  /** A first record that no record follows. */
  lemma LoneRecord(t: Text, f: Bytes, e: Entry, end: nat, b: Bytes)
    requires At(f, 0, Encode(e)) && WellFormed(t, e) && end == |Encode(e)|
    requires b == Slice(f, end, end + HEADER_LEN + END_LEN) && !IsMagic(b)
    requires |f| >= HEADER_LEN + END_LEN + 1
    ensures IsMagic(f)
    ensures Records(t, f, 0, KeepTo(f, BUFFER_SIZE)) == if t.decodes(KeepTo(b, 6)) then Return(end) else Raised
  {
    var buffer := KeepTo(f, BUFFER_SIZE);
    FirstBuffer(t, f, e, buffer);
    OrdinaryRecord(t, f, 0, e, buffer, end, b);
  }

  /** Zeros behind a trailer that stands first are taken for a corrupt archive. */
  lemma LoneTrailerKeepsZeros(t: Text, trailer: Entry, zeros: nat, payload: Bytes, f: Bytes, end: nat)
    requires WellFormed(t, trailer) && NamedTrailer(trailer) && zeros > 0
    requires f == Encode(trailer) + (Zeros(zeros) + payload) && end == |Encode(trailer)|
    ensures Skip(t, f) == if t.decodes(Slice(f, end, end + 6)) then Some(end) else None
  {
    var b := Slice(f, end, end + HEADER_LEN + END_LEN);
    TrailerSize(t, trailer);
    assert f[..end] == Encode(trailer);
    assert b[0] == 0 && KeepTo(b, 6) == Slice(f, end, end + 6);
    LoneRecord(t, f, trailer, end, b);
  }

  /** Reading records always moves on. */
  lemma {:induction false} RecordsAdvance(t: Text, f: Bytes, pos: nat, buffer: Bytes)
    requires pos <= |f|
    ensures var r := Records(t, f, pos, buffer);
            (r.Return? ==> r.pos > pos) && (r.Trailer? ==> r.end > pos)
    decreases |f| - pos
  {
    var nameLen := t.parse(Slice(buffer, NAMESIZE_OFFSET, NAMESIZE_OFFSET + 8));
    var fileSize := t.parse(Slice(buffer, FILESIZE_OFFSET, FILESIZE_OFFSET + 8));
    if nameLen.Some? && fileSize.Some? {
      var next := NextRecord(pos, nameLen.value, fileSize.value);
      var b := Slice(f, next, next + HEADER_LEN + END_LEN);
      if next + |b| < |f| {
        RecordsAdvance(t, f, next, b);
      }
    }
  }

  lemma SkipBeyond(t: Text, f: Bytes, scan: Scan, end: nat)
    requires IsMagic(f) && scan == Records(t, f, 0, KeepTo(f, BUFFER_SIZE)) && end > 0
    requires (scan.Return? ==> scan.pos > end) && (scan.Trailer? ==> scan.end > end)
    ensures Skip(t, f) != Some(end)
  {
  }

  /** A magic number behind a trailer that stands first: the reader goes on as if the archive did. */
  lemma LoneTrailerThenRecord(t: Text, f: Bytes, trailer: Entry, end: nat, b: Bytes)
    requires At(f, 0, Encode(trailer)) && WellFormed(t, trailer) && end == |Encode(trailer)|
    requires b == Slice(f, end, end + HEADER_LEN + END_LEN) && IsMagic(b) && |f| > HEADER_LEN + END_LEN
    ensures Skip(t, f) == Some(end) <==> end + |b| >= |f|
  {
    var buffer := KeepTo(f, BUFFER_SIZE);
    FirstBuffer(t, f, trailer, buffer);
    OrdinaryRecord(t, f, 0, trailer, buffer, end, b);
    if end + |b| < |f| {
      RecordsAdvance(t, f, end, b);
      SkipBeyond(t, f, Records(t, f, end, b), end);
    }
  }

  /** What stands at once behind a trailer that stands first. */
  lemma LoneTrailerThen(t: Text, f: Bytes, trailer: Entry, end: nat, payload: Bytes)
    requires WellFormed(t, trailer) && f == Encode(trailer) + payload && end == |Encode(trailer)| && |f| > HEADER_LEN + END_LEN
    ensures Skip(t, f) == Some(end) <==>
              if IsMagic(payload) then |payload| <= HEADER_LEN + END_LEN else t.decodes(KeepTo(payload, 6))
  {
    var b := KeepTo(payload, HEADER_LEN + END_LEN);
    assert f[..end] == Encode(trailer) && f[end..] == payload;
    assert b == Slice(f, end, end + HEADER_LEN + END_LEN);
    assert KeepTo(b, 6) == KeepTo(payload, 6);
    if IsMagic(b) {
      LoneTrailerThenRecord(t, f, trailer, end, b);
    } else {
      LoneRecord(t, f, trailer, end, b);
    }
  }

  lemma TrailerSize(t: Text, trailer: Entry)
    requires WellFormed(t, trailer) && NamedTrailer(trailer)
    ensures |Encode(trailer)| > HEADER_LEN + END_LEN
  {
  }

  lemma ZerosHidePayload(t: Text, trailer: Entry, zeros: nat, payload: Bytes, f: Bytes, end: nat)
    requires WellFormed(t, trailer) && NamedTrailer(trailer) && zeros > 0
    requires f == Encode(trailer) + (Zeros(zeros) + payload) && end == |Encode(trailer)|
    ensures Skip(t, f) != Some(end + zeros)
  {
    LoneTrailerKeepsZeros(t, trailer, zeros, payload, f, end);
  }

  lemma PayloadAtOnce(t: Text, trailer: Entry, payload: Bytes, f: Bytes, end: nat)
    requires WellFormed(t, trailer) && NamedTrailer(trailer) && end == |Encode(trailer)| <= |f|
    requires f[..end] == Encode(trailer) && f[end..] == payload
    ensures Skip(t, f) == Some(end) <==>
              if IsMagic(payload) then |payload| <= HEADER_LEN + END_LEN else t.decodes(KeepTo(payload, 6))
  {
    assert f == f[..end] + f[end..];
    TrailerSize(t, trailer);
    LoneTrailerThen(t, f, trailer, end, payload);
  }

  lemma WithoutZeros(record: Bytes, zeros: nat, payload: Bytes, f: Bytes, end: nat)
    requires zeros == 0 && f == record + (Zeros(zeros) + payload) && end == |record|
    ensures end <= |f| && f[..end] == record && f[end..] == payload
  {
  }

  lemma SameOffset(found: Option<nat>, end: nat, zeros: nat)
    requires zeros == 0
    ensures found == Some(end + zeros) <==> found == Some(end)
  {
  }

  /** One record is needed: what is found behind a trailer that stands first. */
  lemma LoneTrailerExactly(t: Text, trailer: Entry, zeros: nat, payload: Bytes, f: Bytes, end: nat)
    requires WellFormed(t, trailer) && NamedTrailer(trailer)
    requires f == Encode(trailer) + (Zeros(zeros) + payload) && end == |Encode(trailer)|
    ensures Skip(t, f) == Some(end + zeros) <==>
              zeros == 0 && if IsMagic(payload) then |payload| <= HEADER_LEN + END_LEN else t.decodes(KeepTo(payload, 6))
  {
    if zeros > 0 {
      ZerosHidePayload(t, trailer, zeros, payload, f, end);
    } else {
      WithoutZeros(Encode(trailer), zeros, payload, f, end);
      PayloadAtOnce(t, trailer, payload, f, end);
      SameOffset(Skip(t, f), end, zeros);
    }
  }
}
