/**
 The central-directory walker that counts the entries of a ZIP file before
 they are materialised. Record layouts follow sections 4.3.12, 4.3.14, 4.3.15
 and 4.3.16 of the PKWARE APPNOTE.
 */
module ZipDirectory {
  import opened Options
  import opened Bytes

  const HEADER_SIGNATURE := 0x02014b50
  const END_SIGNATURE := 0x06054b50
  const ZIP64_END_SIGNATURE := 0x06064b50
  const LOCATOR_SIGNATURE := 0x07064b50
  const END_SIZE := 22
  const TAIL_SIZE := 22 + 65_535

  const TWO_63 := 0x8000_0000_0000_0000
  const TWO_64 := 0x1_0000_0000_0000_0000

  /** The machine's conversion of an unsigned to a signed 64-bit value. */
  function ToInt64(x: nat): int
    requires x < TWO_64
  {
    if x < TWO_63 then x else x - TWO_64
  }

  /** The machine's conversion of a signed to an unsigned 64-bit value. */
  function ToUint64(x: int): nat
    requires -TWO_63 <= x < TWO_63
  {
    if x >= 0 then x else x + TWO_64
  }

  // ---------- little-endian fields ----------

  function U16(f: bytes, o: nat): (r: nat)
    requires o + 2 <= |f|
    ensures r < 0x1_0000
  {
    f[o] as nat + 0x100 * (f[o + 1] as nat)
  }

  function U32(f: bytes, o: nat): (r: nat)
    requires o + 4 <= |f|
    ensures r < 0x1_0000_0000
  {
    U16(f, o) + 0x1_0000 * U16(f, o + 2)
  }

  function U64(f: bytes, o: nat): (r: nat)
    requires o + 8 <= |f|
    ensures r < TWO_64
  {
    U32(f, o) + 0x1_0000_0000 * U32(f, o + 4)
  }

  // ---------- what the records look like ----------

  function LE16(n: nat): (r: bytes)
    requires n < 0x1_0000
    ensures |r| == 2
  {
    [(n % 0x100) as byte, (n / 0x100) as byte]
  }

  function LE32(n: nat): (r: bytes)
    requires n < 0x1_0000_0000
    ensures |r| == 4
  {
    LE16(n % 0x1_0000) + LE16(n / 0x1_0000)
  }

  function LE64(n: nat): (r: bytes)
    requires n < TWO_64
    ensures |r| == 8
  {
    LE32(n % 0x1_0000_0000) + LE32(n / 0x1_0000_0000)
  }

  /** Section 4.3.12: the header of one member with its three variable fields. */
  datatype HeaderFields = HeaderFields(versions: bytes, name: bytes, extra: bytes, comment: bytes, place: bytes)

  type CentralHeader = h: HeaderFields |
      |h.versions| == 24 && |h.name| < 0x1_0000 && |h.extra| < 0x1_0000 && |h.comment| < 0x1_0000 && |h.place| == 12
    witness HeaderFields(seq(24, _ => 0), [], [], [], seq(12, _ => 0))

  function HeaderBytes(h: CentralHeader): bytes {
    LE32(HEADER_SIGNATURE) + (h.versions + (LE16(|h.name|) + (LE16(|h.extra|) + (LE16(|h.comment|) +
    (h.place + (h.name + (h.extra + h.comment)))))))
  }

  /** The bytes are those of some header. */
  ghost predicate IsHeader(e: bytes) {
    exists h: CentralHeader :: HeaderBytes(h) == e
  }

  ghost predicate AllHeaders(es: seq<bytes>) {
    forall i :: 0 <= i < |es| ==> IsHeader(es[i])
  }

  /** Section 4.3.16: the end record, without the comment whose length it gives. */
  datatype EndFields = EndFields(disks: bytes, count: nat, size: nat, offset: nat, comment: nat)

  type EndRecord = e: EndFields |
      |e.disks| == 6 && e.count < 0x1_0000 && e.size < 0x1_0000_0000 && e.offset < 0x1_0000_0000 && e.comment < 0x1_0000
    witness EndFields(seq(6, _ => 0), 0, 0, 0, 0)

  function EndBytes(e: EndRecord): (r: bytes)
    ensures |r| == END_SIZE
  {
    LE32(END_SIGNATURE) + (e.disks + (LE16(e.count) + (LE32(e.size) + (LE32(e.offset) + LE16(e.comment)))))
  }

  /** Section 4.3.15: where the ZIP64 end record is. */
  datatype LocatorFields = LocatorFields(disk: bytes, at: nat, disks: bytes)

  type Locator = l: LocatorFields | |l.disk| == 4 && l.at < TWO_64 && |l.disks| == 4
    witness LocatorFields(seq(4, _ => 0), 0, seq(4, _ => 0))

  function LocatorBytes(l: Locator): (r: bytes)
    ensures |r| == 20
  {
    LE32(LOCATOR_SIGNATURE) + (l.disk + (LE64(l.at) + l.disks))
  }

  /** Section 4.3.14: the ZIP64 end record up to its extensible data. */
  datatype Zip64Fields = Zip64Fields(versions: bytes, count: nat, size: nat, offset: bytes)

  type Zip64End = z: Zip64Fields | |z.versions| == 28 && z.count < TWO_64 && z.size < TWO_64 && |z.offset| == 8
    witness Zip64Fields(seq(28, _ => 0), 0, 0, seq(8, _ => 0))

  function Zip64Bytes(z: Zip64End): (r: bytes)
    ensures |r| == 56
  {
    LE32(ZIP64_END_SIGNATURE) + (z.versions + (LE64(z.count) + (LE64(z.size) + z.offset)))
  }

  // ---------- which files are accepted ----------

  /** The file has this piece at `o`. */
  predicate At(f: bytes, o: nat, piece: bytes) {
    o + |piece| <= |f| && f[o..o + |piece|] == piece
  }

  /** An end record whose comment fits, within the tail the reader looks at. */
  predicate EndAt(f: bytes, o: nat, e: EndRecord) {
    At(f, o, EndBytes(e)) && o + END_SIZE + e.comment <= |f| <= o + TAIL_SIZE
  }

  /** The last such record is the one used. */
  ghost predicate LastEnd(f: bytes, o: nat, e: EndRecord) {
    EndAt(f, o, e) && forall p: nat, g: EndRecord :: p > o ==> !EndAt(f, p, g)
  }

  /** The bytes are exactly `n` central headers, one after the other. */
  ghost predicate IsDirectory(s: bytes, n: nat) {
    exists es: seq<bytes> :: |es| == n && AllHeaders(es) && Concat(es) == s
  }

  datatype Directory = Directory(count: nat, size: nat, end: nat)

  /** The directory lies inside the file and consists of as many headers as it says, no more than allowed. */
  ghost predicate DirectoryOk(f: bytes, d: Directory, maxEntries: nat) {
    && d.count <= maxEntries && d.size <= d.end <= |f|
    && IsDirectory(f[d.end - d.size..d.end], d.count)
  }

  ghost predicate HeadersFrom(f: bytes, start: nat, mid: nat, n: nat) {
    start <= mid <= |f| && IsDirectory(f[start..mid], n)
  }

  ghost predicate SomeHeadersFrom(f: bytes, start: nat, end: nat, n: nat) {
    exists mid: nat :: mid <= end && HeadersFrom(f, start, mid, n)
  }

  /** More headers than allowed are declared, or are there one after the other from the start of the directory. */
  ghost predicate TooMany(f: bytes, d: Directory, maxEntries: nat) {
    || d.count > maxEntries
    || (d.size <= d.end <= |f| && SomeHeadersFrom(f, d.end - d.size, d.end, maxEntries + 1))
  }

  /** A value of the end record says that the ZIP64 record holds the real one. */
  predicate Overflows(e: EndRecord) {
    e.count == 0xffff || e.size == 0xffff_ffff || e.offset == 0xffff_ffff
  }

  /** The ZIP64 record that the locator in front of the end record points to. */
  ghost predicate Zip64At(f: bytes, o: nat, l: Locator, z: Zip64End) {
    o >= 20 && At(f, o - 20, LocatorBytes(l)) && At(f, l.at, Zip64Bytes(z))
  }

  /** The directory that the end record at `o` leads to. */
  ghost predicate Leads(f: bytes, o: nat, e: EndRecord, d: Directory) {
    if Overflows(e) then exists l: Locator, z: Zip64End :: Zip64At(f, o, l, z) && d == Directory(z.count, z.size, l.at)
    else d == Directory(e.count, e.size, o)
  }

  ghost predicate LeadsTo(f: bytes, d: Directory) {
    exists o: nat, e: EndRecord :: LastEnd(f, o, e) && Leads(f, o, e, d)
  }

  ghost predicate Accepts(f: bytes, maxEntries: nat) {
    exists d :: LeadsTo(f, d) && DirectoryOk(f, d, maxEntries)
  }

  // ---------- reading a record back ----------

  lemma Field16(f: bytes, o: nat, n: nat)
    requires o + 2 <= |f| && n < 0x1_0000
    ensures At(f, o, LE16(n)) <==> U16(f, o) == n
  {
    var piece := LE16(n);
    assert f[o..o + 2] == [f[o], f[o + 1]];
    assert n == n % 0x100 + 0x100 * (n / 0x100);
    if U16(f, o) == n { assert f[o] as nat == n % 0x100 && f[o + 1] as nat == n / 0x100; }
  }

  /** A piece made of two is there exactly when both are. */
  lemma AtPair(f: bytes, o: nat, a: bytes, b: bytes)
    ensures At(f, o, a + b) <==> At(f, o, a) && At(f, o + |a|, b)
  {
    if At(f, o, a + b) {
      var slice := f[o..o + |a + b|];
      assert slice[..|a|] == a && slice[|a|..] == b;
      assert f[o..o + |a|] == slice[..|a|] && f[o + |a|..o + |a| + |b|] == slice[|a|..];
    }
    if At(f, o, a) && At(f, o + |a|, b) {
      assert f[o..o + |a| + |b|] == f[o..o + |a|] + f[o + |a|..o + |a| + |b|];
    }
  }

  lemma Field32(f: bytes, o: nat, n: nat)
    requires o + 4 <= |f| && n < 0x1_0000_0000
    ensures At(f, o, LE32(n)) <==> U32(f, o) == n
  {
    AtPair(f, o, LE16(n % 0x1_0000), LE16(n / 0x1_0000));
    Field16(f, o, n % 0x1_0000);
    Field16(f, o + 2, n / 0x1_0000);
    assert n == n % 0x1_0000 + 0x1_0000 * (n / 0x1_0000);
  }

  lemma Field64(f: bytes, o: nat, n: nat)
    requires o + 8 <= |f| && n < TWO_64
    ensures At(f, o, LE64(n)) <==> U64(f, o) == n
  {
    AtPair(f, o, LE32(n % 0x1_0000_0000), LE32(n / 0x1_0000_0000));
    Field32(f, o, n % 0x1_0000_0000);
    Field32(f, o + 4, n / 0x1_0000_0000);
    assert n == n % 0x1_0000_0000 + 0x1_0000_0000 * (n / 0x1_0000_0000);
  }

  /** Three lengths in a row. */
  lemma LengthsAt(f: bytes, o: nat, a: nat, b: nat, c: nat, rest: bytes)
    requires o + 6 <= |f| && a < 0x1_0000 && b < 0x1_0000 && c < 0x1_0000
    ensures At(f, o, LE16(a) + (LE16(b) + (LE16(c) + rest))) <==>
            U16(f, o) == a && U16(f, o + 2) == b && U16(f, o + 4) == c && At(f, o + 6, rest)
  {
    AtPair(f, o, LE16(a), LE16(b) + (LE16(c) + rest));
    AtPair(f, o + 2, LE16(b), LE16(c) + rest);
    AtPair(f, o + 4, LE16(c), rest);
    Field16(f, o, a);
    Field16(f, o + 2, b);
    Field16(f, o + 4, c);
  }

  /** The lengths of the variable fields lie behind the signature and 24 more bytes. */
  lemma FixedAt(f: bytes, o: nat, versions: bytes, a: nat, b: nat, c: nat, rest: bytes)
    requires o + 46 <= |f| && |versions| == 24 && a < 0x1_0000 && b < 0x1_0000 && c < 0x1_0000
    ensures At(f, o, LE32(HEADER_SIGNATURE) + (versions + (LE16(a) + (LE16(b) + (LE16(c) + rest))))) <==>
            && U32(f, o) == HEADER_SIGNATURE && At(f, o + 4, versions)
            && U16(f, o + 28) == a && U16(f, o + 30) == b && U16(f, o + 32) == c && At(f, o + 34, rest)
  {
    var lengths := LE16(a) + (LE16(b) + (LE16(c) + rest));
    AtPair(f, o, LE32(HEADER_SIGNATURE), versions + lengths);
    AtPair(f, o + 4, versions, lengths);
    Field32(f, o, HEADER_SIGNATURE);
    LengthsAt(f, o + 28, a, b, c, rest);
  }

  lemma HeaderAt(f: bytes, o: nat, h: CentralHeader)
    requires o + 46 <= |f|
    ensures At(f, o, HeaderBytes(h)) <==>
            && U32(f, o) == HEADER_SIGNATURE && At(f, o + 4, h.versions)
            && U16(f, o + 28) == |h.name| && U16(f, o + 30) == |h.extra| && U16(f, o + 32) == |h.comment|
            && At(f, o + 34, h.place + (h.name + (h.extra + h.comment)))
  {
    FixedAt(f, o, h.versions, |h.name|, |h.extra|, |h.comment|, h.place + (h.name + (h.extra + h.comment)));
  }

  lemma EndTail(f: bytes, o: nat, e: EndRecord)
    requires o + END_SIZE <= |f|
    ensures At(f, o + 10, LE16(e.count) + (LE32(e.size) + (LE32(e.offset) + LE16(e.comment)))) <==>
            && U16(f, o + 10) == e.count && U32(f, o + 12) == e.size
            && U32(f, o + 16) == e.offset && U16(f, o + 20) == e.comment
  {
    AtPair(f, o + 10, LE16(e.count), LE32(e.size) + (LE32(e.offset) + LE16(e.comment)));
    AtPair(f, o + 12, LE32(e.size), LE32(e.offset) + LE16(e.comment));
    AtPair(f, o + 16, LE32(e.offset), LE16(e.comment));
    Field16(f, o + 10, e.count);
    Field32(f, o + 12, e.size);
    Field32(f, o + 16, e.offset);
    Field16(f, o + 20, e.comment);
  }

  lemma EndFieldsAt(f: bytes, o: nat, e: EndRecord)
    requires o + END_SIZE <= |f|
    ensures At(f, o, EndBytes(e)) <==>
            && U32(f, o) == END_SIGNATURE && At(f, o + 4, e.disks)
            && U16(f, o + 10) == e.count && U32(f, o + 12) == e.size
            && U32(f, o + 16) == e.offset && U16(f, o + 20) == e.comment
  {
    var rest := LE16(e.count) + (LE32(e.size) + (LE32(e.offset) + LE16(e.comment)));
    AtPair(f, o, LE32(END_SIGNATURE), e.disks + rest);
    AtPair(f, o + 4, e.disks, rest);
    Field32(f, o, END_SIGNATURE);
    EndTail(f, o, e);
  }

  lemma LocatorFieldsAt(f: bytes, o: nat, l: Locator)
    requires o + 20 <= |f|
    ensures At(f, o, LocatorBytes(l)) <==>
            && U32(f, o) == LOCATOR_SIGNATURE && At(f, o + 4, l.disk)
            && U64(f, o + 8) == l.at && At(f, o + 16, l.disks)
  {
    AtPair(f, o, LE32(LOCATOR_SIGNATURE), l.disk + (LE64(l.at) + l.disks));
    AtPair(f, o + 4, l.disk, LE64(l.at) + l.disks);
    AtPair(f, o + 8, LE64(l.at), l.disks);
    Field32(f, o, LOCATOR_SIGNATURE);
    Field64(f, o + 8, l.at);
  }

  lemma Zip64FieldsAt(f: bytes, o: nat, z: Zip64End)
    requires o + 56 <= |f|
    ensures At(f, o, Zip64Bytes(z)) <==>
            && U32(f, o) == ZIP64_END_SIGNATURE && At(f, o + 4, z.versions)
            && U64(f, o + 32) == z.count && U64(f, o + 40) == z.size && At(f, o + 48, z.offset)
  {
    var rest := LE64(z.count) + (LE64(z.size) + z.offset);
    AtPair(f, o, LE32(ZIP64_END_SIGNATURE), z.versions + rest);
    AtPair(f, o + 4, z.versions, rest);
    AtPair(f, o + 32, LE64(z.count), LE64(z.size) + z.offset);
    AtPair(f, o + 40, LE64(z.size), z.offset);
    Field32(f, o, ZIP64_END_SIGNATURE);
    Field64(f, o + 32, z.count);
    Field64(f, o + 40, z.size);
  }

  // ---------- the headers of a directory ----------

  /** The length of a header, from the lengths of its variable fields. */
  function EntryBytes(f: bytes, o: nat): nat
    requires o + 46 <= |f|
  {
    46 + U16(f, o + 28) + U16(f, o + 30) + U16(f, o + 32)
  }

  /** A whole header at `o` that ends by `end`. */
  predicate HeaderWithin(f: bytes, o: nat, end: nat)
    requires end <= |f|
  {
    o + 46 <= end && U32(f, o) == HEADER_SIGNATURE && o + EntryBytes(f, o) <= end
  }

  /** From `start` to `end` there are exactly `n` headers. */
  predicate Tiled(f: bytes, start: nat, end: nat, n: nat)
    requires start <= end <= |f|
    decreases end - start
  {
    if start == end then n == 0
    else n > 0 && HeaderWithin(f, start, end) && Tiled(f, start + EntryBytes(f, start), end, n - 1)
  }

  /** At least `n` whole headers follow one another from `start`. */
  predicate AtLeast(f: bytes, start: nat, end: nat, n: nat)
    requires start <= end <= |f|
    decreases n
  {
    n == 0 || (HeaderWithin(f, start, end) && AtLeast(f, start + EntryBytes(f, start), end, n - 1))
  }

  lemma HeaderLength(h: CentralHeader)
    ensures |HeaderBytes(h)| == 46 + |h.name| + |h.extra| + |h.comment|
  {
  }

  /** A header in the file is whole and as long as it says. */
  lemma EncodedHeader(f: bytes, o: nat, end: nat, e: bytes)
    requires end <= |f| && IsHeader(e) && At(f, o, e) && o + |e| <= end
    ensures |e| > 0 && HeaderWithin(f, o, end) && EntryBytes(f, o) == |e|
  {
    var h: CentralHeader :| HeaderBytes(h) == e;
    HeaderLength(h);
    HeaderAt(f, o, h);
  }

  lemma FourPieces(f: bytes, o: nat, a: nat, b: nat, c: nat, d: nat)
    requires o <= a <= b <= c <= d <= |f|
    ensures At(f, o, f[o..a] + (f[a..b] + (f[b..c] + f[c..d])))
  {
    AtPair(f, b, f[b..c], f[c..d]);
    AtPair(f, a, f[a..b], f[b..c] + f[c..d]);
    AtPair(f, o, f[o..a], f[a..b] + (f[b..c] + f[c..d]));
  }

  lemma DecodedFields(f: bytes, o: nat, end: nat) returns (h: CentralHeader)
    requires end <= |f| && HeaderWithin(f, o, end)
    ensures At(f, o + 4, h.versions) && At(f, o + 34, h.place + (h.name + (h.extra + h.comment)))
    ensures |h.name| == U16(f, o + 28) && |h.extra| == U16(f, o + 30) && |h.comment| == U16(f, o + 32)
  {
    var a := o + 46;
    var b := a + U16(f, o + 28);
    var c := b + U16(f, o + 30);
    var d := c + U16(f, o + 32);
    h := HeaderFields(f[o + 4..o + 28], f[a..b], f[b..c], f[c..d], f[o + 34..a]);
    FourPieces(f, o + 34, a, b, c, d);
  }

  /** Where a whole header is, the bytes are those of a header. */
  lemma DecodedHeader(f: bytes, o: nat, end: nat)
    requires end <= |f| && HeaderWithin(f, o, end)
    ensures IsHeader(f[o..o + EntryBytes(f, o)])
  {
    var h := DecodedFields(f, o, end);
    HeaderLength(h);
    HeaderAt(f, o, h);
    assert HeaderBytes(h) == f[o..o + EntryBytes(f, o)];
  }

  /** A tiled range is a directory of that many headers. */
  lemma {:induction false} TilesAreHeaders(f: bytes, start: nat, end: nat, n: nat) returns (es: seq<bytes>)
    requires start <= end <= |f| && Tiled(f, start, end, n)
    ensures |es| == n && AllHeaders(es) && Concat(es) == f[start..end]
    decreases end - start
  {
    es := [];
    if start < end {
      DecodedHeader(f, start, end);
      var next := start + EntryBytes(f, start);
      var rest := TilesAreHeaders(f, next, end, n - 1);
      es := [f[start..next]] + rest;
      assert es[1..] == rest;
      assert f[start..end] == f[start..next] + f[next..end];
    }
  }

  lemma HeadSlice(f: bytes, start: nat, end: nat, head: bytes, rest: bytes)
    requires start <= end <= |f| && f[start..end] == head + rest
    ensures At(f, start, head) && start + |head| <= end && f[start + |head|..end] == rest
  {
    var slice := f[start..end];
    assert slice[..|head|] == head && slice[|head|..] == rest;
    assert f[start..start + |head|] == slice[..|head|];
    assert f[start + |head|..end] == slice[|head|..];
  }

  lemma TileOneMore(f: bytes, start: nat, end: nat, e: bytes, n: nat)
    requires start + |e| <= end <= |f| && IsHeader(e) && At(f, start, e) && Tiled(f, start + |e|, end, n)
    ensures Tiled(f, start, end, n + 1)
  {
    EncodedHeader(f, start, end, e);
  }

  /** Conversely, a directory of headers is tiled by as many. */
  lemma {:induction false} HeadersTile(f: bytes, start: nat, end: nat, es: seq<bytes>)
    requires start <= end <= |f| && AllHeaders(es) && f[start..end] == Concat(es)
    ensures Tiled(f, start, end, |es|)
    decreases |es|
  {
    if es == [] {
      assert |f[start..end]| == 0;
    } else {
      var e := es[0];
      assert IsHeader(e) && AllHeaders(es[1..]);
      HeadSlice(f, start, end, e, Concat(es[1..]));
      HeadersTile(f, start + |e|, end, es[1..]);
      TileOneMore(f, start, end, e, |es| - 1);
    }
  }

  /** Walking the headers decides whether the bytes are a directory. */
  lemma TiledIffDirectory(f: bytes, start: nat, end: nat, n: nat)
    requires start <= end <= |f|
    ensures Tiled(f, start, end, n) <==> IsDirectory(f[start..end], n)
  {
    if Tiled(f, start, end, n) { var es := TilesAreHeaders(f, start, end, n); }
    if IsDirectory(f[start..end], n) {
      var es: seq<bytes> :| |es| == n && AllHeaders(es) && Concat(es) == f[start..end];
      HeadersTile(f, start, end, es);
    }
  }

  lemma {:induction false} AtLeastTiles(f: bytes, start: nat, end: nat, n: nat) returns (mid: nat)
    requires start <= end <= |f| && AtLeast(f, start, end, n)
    ensures start <= mid <= end && Tiled(f, start, mid, n)
    decreases n
  {
    mid := start;
    if n > 0 { mid := AtLeastTiles(f, start + EntryBytes(f, start), end, n - 1); }
  }

  lemma {:induction false} TilesAtLeast(f: bytes, start: nat, mid: nat, end: nat, n: nat)
    requires start <= mid <= end <= |f| && Tiled(f, start, mid, n)
    ensures AtLeast(f, start, end, n)
    decreases n
  {
    if n > 0 { TilesAtLeast(f, start + EntryBytes(f, start), mid, end, n - 1); }
  }

  lemma AtLeastIff(f: bytes, start: nat, end: nat, n: nat)
    requires start <= end <= |f|
    ensures AtLeast(f, start, end, n) <==> SomeHeadersFrom(f, start, end, n)
  {
    if AtLeast(f, start, end, n) {
      var mid := AtLeastTiles(f, start, end, n);
      TiledIffDirectory(f, start, mid, n);
      assert HeadersFrom(f, start, mid, n);
    }
    if mid: nat :| mid <= end && HeadersFrom(f, start, mid, n) {
      TiledIffDirectory(f, start, mid, n);
      TilesAtLeast(f, start, mid, end, n);
    }
  }

  /** The number of headers is determined by the bytes. */
  lemma DirectoryCountIsUnique(s: bytes, m: nat, n: nat)
    requires IsDirectory(s, m) && IsDirectory(s, n)
    ensures m == n
  {
    assert s[0..|s|] == s;
    TiledIffDirectory(s, 0, |s|, m);
    TiledIffDirectory(s, 0, |s|, n);
    TilingIsUnique(s, 0, |s|, m, n);
  }

  lemma {:induction false} TilingIsUnique(f: bytes, start: nat, end: nat, m: nat, n: nat)
    requires start <= end <= |f| && Tiled(f, start, end, m) && Tiled(f, start, end, n)
    ensures m == n
    decreases end - start
  {
    if start < end {
      TilingIsUnique(f, start + EntryBytes(f, start), end, m - 1, n - 1);
    }
  }

  // ---------- the selected directory ----------

  function TailStart(f: bytes): nat {
    if |f| <= TAIL_SIZE then 0 else |f| - TAIL_SIZE
  }

  predicate EndRecordAt(f: bytes, o: nat) {
    && TailStart(f) <= o && o + END_SIZE <= |f|
    && U32(f, o) == END_SIGNATURE
    && o + END_SIZE + U16(f, o + 20) <= |f|
  }

  function EndOf(f: bytes, o: nat): EndRecord
    requires o + END_SIZE <= |f|
  {
    EndFields(f[o + 4..o + 10], U16(f, o + 10), U32(f, o + 12), U32(f, o + 16), U16(f, o + 20))
  }

  lemma EndRecordIff(f: bytes, o: nat, e: EndRecord)
    ensures EndAt(f, o, e) <==> EndRecordAt(f, o) && e == EndOf(f, o)
  {
    if o + END_SIZE <= |f| { EndFieldsAt(f, o, e); }
  }

  /** The last such record is the one used. */
  ghost predicate ChosenEnd(f: bytes, o: nat) {
    EndRecordAt(f, o) && forall p: nat :: p > o ==> !EndRecordAt(f, p)
  }

  lemma ChosenIff(f: bytes, o: nat, e: EndRecord)
    ensures LastEnd(f, o, e) <==> ChosenEnd(f, o) && e == EndOf(f, o)
  {
    EndRecordIff(f, o, e);
    forall p: nat, g: EndRecord ensures EndAt(f, p, g) <==> EndRecordAt(f, p) && g == EndOf(f, p) {
      EndRecordIff(f, p, g);
    }
    if LastEnd(f, o, e) {
      forall p: nat | p > o ensures !EndRecordAt(f, p) {
        assert EndRecordAt(f, p) ==> EndAt(f, p, EndOf(f, p));
      }
    }
  }

  function Zip64Of(f: bytes, o: nat): Option<Directory>
    requires o + END_SIZE <= |f|
  {
    if o < 20 || U32(f, o - 20) != LOCATOR_SIGNATURE then None
    else
      var at := U64(f, o - 12);
      if at + 56 > |f| || U32(f, at) != ZIP64_END_SIGNATURE then None
      else Some(Directory(U64(f, at + 32), U64(f, at + 40), at))
  }

  lemma Zip64Reads(f: bytes, o: nat, l: Locator, z: Zip64End)
    requires o + END_SIZE <= |f| && Zip64At(f, o, l, z)
    ensures Zip64Of(f, o) == Some(Directory(z.count, z.size, l.at))
  {
    LocatorFieldsAt(f, o - 20, l);
    Zip64FieldsAt(f, l.at, z);
  }

  lemma Zip64Found(f: bytes, o: nat) returns (l: Locator, z: Zip64End)
    requires o + END_SIZE <= |f| && Zip64Of(f, o).Some?
    ensures Zip64At(f, o, l, z) && Zip64Of(f, o) == Some(Directory(z.count, z.size, l.at))
  {
    l := LocatorFields(f[o - 16..o - 12], U64(f, o - 12), f[o - 4..o]);
    LocatorFieldsAt(f, o - 20, l);
    z := Zip64Fields(f[l.at + 4..l.at + 32], U64(f, l.at + 32), U64(f, l.at + 40), f[l.at + 48..l.at + 56]);
    Zip64FieldsAt(f, l.at, z);
  }

  function SelectDirectory(f: bytes, o: nat): Option<Directory>
    requires o + END_SIZE <= |f|
  {
    if Overflows(EndOf(f, o)) then Zip64Of(f, o) else Some(Directory(U16(f, o + 10), U32(f, o + 12), o))
  }

  lemma SelectsIff(f: bytes, o: nat, d: Directory)
    requires o + END_SIZE <= |f|
    ensures Leads(f, o, EndOf(f, o), d) <==> SelectDirectory(f, o) == Some(d)
  {
    if Overflows(EndOf(f, o)) {
      if Zip64Of(f, o).Some? { var l, z := Zip64Found(f, o); }
      if l: Locator, z: Zip64End :| Zip64At(f, o, l, z) && d == Directory(z.count, z.size, l.at) {
        Zip64Reads(f, o, l, z);
      }
    }
  }

  lemma LeadsToIff(f: bytes, o: nat, d: Directory)
    requires ChosenEnd(f, o)
    ensures LeadsTo(f, d) <==> SelectDirectory(f, o) == Some(d)
  {
    SelectsIff(f, o, d);
    ChosenIff(f, o, EndOf(f, o));
    if LeadsTo(f, d) {
      var p: nat, e: EndRecord :| LastEnd(f, p, e) && Leads(f, p, e, d);
      ChosenIff(f, p, e);
      assert p == o;
    }
  }

  lemma NoEndLeadsNowhere(f: bytes, d: Directory)
    requires forall p: nat :: !EndRecordAt(f, p)
    ensures !LeadsTo(f, d)
  {
    forall o: nat, e: EndRecord ensures !LastEnd(f, o, e) { ChosenIff(f, o, e); }
  }

  // ---------- the walker ----------

  datatype ZipError = FormatError | TooManyEntries | ReadError

  /** The backward scan of the tail. */
  method FindEnd(f: bytes) returns (o: int)
    ensures o >= 0 ==> ChosenEnd(f, o)
    ensures o < 0 ==> forall p: nat :: !EndRecordAt(f, p)
  {
    var tail := f[TailStart(f)..];
    var offset := |tail| - END_SIZE;
    while offset >= 0
      invariant offset <= |tail| - END_SIZE
      invariant forall p: nat :: p > TailStart(f) + offset ==> !EndRecordAt(f, p)
    {
      if U32(tail, offset) == END_SIGNATURE {
        var commentSize := U16(tail, offset + 20);
        if offset + END_SIZE + commentSize <= |tail| {
          assert EndRecordAt(f, TailStart(f) + offset);
          return TailStart(f) + offset;
        }
      }
      assert !EndRecordAt(f, TailStart(f) + offset);
      offset := offset - 1;
    }
    o := -1;
  }

  lemma DirectoryIs(f: bytes, d: Directory, maxEntries: nat)
    requires d.size <= d.end <= |f| && d.count <= maxEntries
    ensures DirectoryOk(f, d, maxEntries) <==> Tiled(f, d.end - d.size, d.end, d.count)
  {
    TiledIffDirectory(f, d.end - d.size, d.end, d.count);
  }

  lemma TooManyFrom(f: bytes, d: Directory, maxEntries: nat, start: nat, n: nat)
    requires d.size <= d.end <= |f| && d.count <= maxEntries && start == d.end - d.size && n == maxEntries + 1
    ensures TooMany(f, d, maxEntries) == SomeHeadersFrom(f, start, d.end, n)
  {
  }

  lemma TooManyIs(f: bytes, d: Directory, maxEntries: nat)
    requires d.size <= d.end <= |f| && d.count <= maxEntries
    ensures TooMany(f, d, maxEntries) == AtLeast(f, d.end - d.size, d.end, maxEntries + 1)
  {
    var start, n := d.end - d.size, maxEntries + 1;
    TooManyFrom(f, d, maxEntries, start, n);
    AtLeastIff(f, start, d.end, n);
  }

  /** The forward walk over the headers, with the machine's conversions written out. */
  method WalkHeaders(f: bytes, d: Directory, maxEntries: nat) returns (error: Option<ZipError>)
    requires |f| < TWO_63 && d.end <= |f| && d.size < TWO_64 && maxEntries < TWO_63
    ensures error.None? <==> DirectoryOk(f, d, maxEntries)
    ensures error == Some(TooManyEntries) <==> TooMany(f, d, maxEntries)
  {
    if d.count > ToUint64(maxEntries) {
      return Some(TooManyEntries);
    }
    if d.size > ToUint64(d.end) {
      return Some(FormatError);
    }
    DirectoryIs(f, d, maxEntries);
    TooManyIs(f, d, maxEntries);
    error := WalkTiles(f, d, maxEntries);
  }

  method WalkTiles(f: bytes, d: Directory, maxEntries: nat) returns (error: Option<ZipError>)
    requires d.size <= d.end <= |f| < TWO_63 && d.count <= maxEntries < TWO_63
    ensures error.None? <==> Tiled(f, d.end - d.size, d.end, d.count)
    ensures error == Some(TooManyEntries) <==> AtLeast(f, d.end - d.size, d.end, maxEntries + 1)
  {
    var size := ToInt64(d.size);
    var start := d.end - size;
    var found, offset := 0, 0;
    while offset < size
      invariant 0 <= offset <= size && 0 <= found <= maxEntries
      invariant size == d.size && start == d.end - d.size
      invariant Tiled(f, start, d.end, d.count) <==>
                found <= d.count && Tiled(f, start + offset, d.end, d.count - found)
      invariant AtLeast(f, start, d.end, maxEntries + 1) <==>
                AtLeast(f, start + offset, d.end, maxEntries + 1 - found)
    {
      if offset + 46 > size {
        return Some(ReadError);
      }
      if U32(f, start + offset) != HEADER_SIGNATURE {
        return Some(FormatError);
      }
      var entryBytes := EntryBytes(f, start + offset);
      if entryBytes > size - offset {
        return Some(FormatError);
      }
      offset := offset + entryBytes;
      found := found + 1;
      if found > maxEntries {
        return Some(TooManyEntries);
      }
    }
    if ToUint64(found) != d.count {
      return Some(FormatError);
    }
    error := None;
  }

  /** The directory an end record selects, or the error of one that selects none. */
  method Select(f: bytes, end: nat) returns (d: Directory, ok: bool)
    requires |f| < TWO_63 && end + END_SIZE <= |f|
    ensures SelectDirectory(f, end) == if ok then Some(d) else None
    ensures d.size < TWO_64 && (ok ==> d.end <= |f|)
  {
    d, ok := Directory(U16(f, end + 10), U32(f, end + 12), end), true;
    if d.count == 0xffff || d.size == 0xffff_ffff || U32(f, end + 16) == 0xffff_ffff {
      if end < 20 {
        return d, false;
      }
      if U32(f, end - 20) != LOCATOR_SIGNATURE {
        return d, false;
      }
      var at := U64(f, end - 20 + 8);
      if |f| < 56 || at > ToUint64(|f| - 56) {
        return d, false;
      }
      if U32(f, ToInt64(at)) != ZIP64_END_SIGNATURE {
        return d, false;
      }
      d := Directory(U64(f, at + 32), U64(f, at + 40), ToInt64(at));
    }
  }

  /** Succeeds exactly when the last end record leads to a directory of as many headers as it says. */
  method CheckZipEntryCount(f: bytes, maxEntries: nat) returns (error: Option<ZipError>)
    requires |f| < TWO_63 && maxEntries < TWO_63
    ensures error.None? <==> Accepts(f, maxEntries)
    ensures error == Some(TooManyEntries) <==> exists d :: LeadsTo(f, d) && TooMany(f, d, maxEntries)
  {
    var end := FindEnd(f);
    if end < 0 {
      forall d ensures !LeadsTo(f, d) { NoEndLeadsNowhere(f, d); }
      return Some(FormatError);
    }
    forall d ensures LeadsTo(f, d) <==> SelectDirectory(f, end) == Some(d) { LeadsToIff(f, end, d); }
    var d, ok := Select(f, end);
    if !ok {
      return Some(FormatError);
    }
    error := WalkHeaders(f, d, maxEntries);
  }

  // ---------- files that are accepted ----------

  lemma AtInside(before: bytes, piece: bytes, after: bytes)
    ensures At(before + piece + after, |before|, piece)
  {
    var f := before + piece + after;
    assert f[|before|..|before| + |piece|] == piece;
  }

  /** A directory, then its end record, then a comment that holds no end record of its own. */
  lemma WrittenArchiveAccepted(prefix: bytes, es: seq<bytes>, e: EndRecord, tail: bytes, maxEntries: nat)
    requires AllHeaders(es) && |es| == e.count <= maxEntries && |Concat(es)| == e.size
    requires e.count != 0xffff && e.size != 0xffff_ffff && e.offset != 0xffff_ffff
    requires e.comment <= |tail| < 0x1_0000
    requires var f := prefix + Concat(es) + (EndBytes(e) + tail);
             forall p: nat, g: EndRecord :: p > |prefix| + e.size ==> !EndAt(f, p, g)
    ensures Accepts(prefix + Concat(es) + (EndBytes(e) + tail), maxEntries)
  {
    var o, dir := |prefix| + e.size, Concat(es);
    var f := prefix + dir + (EndBytes(e) + tail);
    AtInside(prefix, dir, EndBytes(e) + tail);
    AtInside(prefix + dir, EndBytes(e), tail);
    assert f == prefix + dir + EndBytes(e) + tail;
    assert LastEnd(f, o, e);
    DirectoryAccepted(f, o, e, Directory(e.count, e.size, o), maxEntries);
  }

  lemma DirectoryAccepted(f: bytes, o: nat, e: EndRecord, d: Directory, maxEntries: nat)
    requires LastEnd(f, o, e) && Leads(f, o, e, d) && DirectoryOk(f, d, maxEntries)
    ensures Accepts(f, maxEntries)
  {
    assert LeadsTo(f, d);
  }

  /** Without a comment nothing can follow the end record. */
  lemma PlainArchiveAccepted(prefix: bytes, es: seq<bytes>, e: EndRecord, maxEntries: nat)
    requires AllHeaders(es) && |es| == e.count <= maxEntries && |Concat(es)| == e.size && e.comment == 0
    requires e.count != 0xffff && e.size != 0xffff_ffff && e.offset != 0xffff_ffff
    ensures Accepts(prefix + Concat(es) + EndBytes(e), maxEntries)
  {
    var f := prefix + Concat(es) + (EndBytes(e) + []);
    assert EndBytes(e) + [] == EndBytes(e);
    assert forall p: nat, g: EndRecord :: p > |prefix| + e.size ==> !EndAt(f, p, g);
    WrittenArchiveAccepted(prefix, es, e, [], maxEntries);
  }

  /** The same with the real values in a ZIP64 record between the directory and the end record. */
  lemma WrittenZip64Accepted(prefix: bytes, es: seq<bytes>, z: Zip64End, l: Locator, e: EndRecord, tail: bytes,
        maxEntries: nat)
    requires AllHeaders(es) && |es| == z.count <= maxEntries && |Concat(es)| == z.size && l.at == |prefix| + z.size
    requires e.count == 0xffff || e.size == 0xffff_ffff || e.offset == 0xffff_ffff
    requires e.comment <= |tail| < 0x1_0000
    requires var f := prefix + Concat(es) + (Zip64Bytes(z) + (LocatorBytes(l) + (EndBytes(e) + tail)));
             forall p: nat, g: EndRecord :: p > l.at + 76 ==> !EndAt(f, p, g)
    ensures Accepts(prefix + Concat(es) + (Zip64Bytes(z) + (LocatorBytes(l) + (EndBytes(e) + tail))), maxEntries)
  {
    var o, dir, record, locator, end := l.at + 76, Concat(es), Zip64Bytes(z), LocatorBytes(l), EndBytes(e);
    var f := prefix + dir + (record + (locator + (end + tail)));
    Zip64Pieces(prefix + dir, record, locator, end, tail);
    AtInside(prefix, dir, record + (locator + (end + tail)));
    assert Zip64At(f, o, l, z) && LastEnd(f, o, e);
    DirectoryAccepted(f, o, e, Directory(z.count, z.size, l.at), maxEntries);
  }

  lemma Zip64Pieces(before: bytes, record: bytes, locator: bytes, end: bytes, tail: bytes)
    requires |record| == 56 && |locator| == 20
    ensures var f, at := before + (record + (locator + (end + tail))), |before|;
            && At(f, at, record) && At(f, at + 56, locator) && At(f, at + 76, end)
            && |f| == at + 76 + |end| + |tail|
  {
    var f := before + (record + (locator + (end + tail)));
    assert f == before + record + (locator + (end + tail));
    assert f == before + record + locator + (end + tail);
    assert f == before + record + locator + end + tail;
    AtInside(before, record, locator + (end + tail));
    AtInside(before + record, locator, end + tail);
    AtInside(before + record + locator, end, tail);
  }
}
