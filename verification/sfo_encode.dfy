/** A reference encoder for PARAM.SFO windows, the partner of `Sfo.ParseSfo`:
    it lays out a header, one 16-byte entry per parameter, a key table of
    NUL-terminated keys and a data table, zero-padded to the 2048-byte window
    `extractGameDetails` reads. Parsing what it writes gives back the
    parameters, the last one winning for a repeated key. */
module SfoEncode {
  import opened Wrappers
  import opened Bytes
  import opened Signature
  import opened Sfo

  /** `readBytes(fd, foundOffset, 2048)`. */
  const WindowSize: nat := 2048

  datatype Param = Param(key: string, value: SfoValue)

  /** Text the table can carry verbatim: one-byte characters and no NUL. */
  predicate NulFreeText(s: string) {
    forall i :: 0 <= i < |s| ==> s[i] != '\0' && IsByteChar(s[i])
  }

  predicate Encodable(p: Param) {
    && NulFreeText(p.key)
    && p.key != ProtoKey
    && match p.value
       case Str(t) => NulFreeText(t)
       case U32(n) => n < Pow256(4)
  }

  predicate AllEncodable(ps: seq<Param>) {
    forall i :: 0 <= i < |ps| ==> Encodable(ps[i])
  }

  function ValueType(v: SfoValue): nat {
    if v.Str? then TypeUtf8 else TypeUInt32
  }

  function ValueBytes(p: Param): seq<byte>
    requires Encodable(p)
  {
    match p.value
    case Str(t) => Encode(t)
    case U32(n) => ToLittleEndian(n, 4)
  }

  lemma Pow256Values()
    ensures Pow256(2) == 65536 && Pow256(4) == 4294967296
  {
    assert Pow256(1) == 256;
    assert Pow256(3) == 16777216;
  }

  lemma AllEncodablePrefix(ps: seq<Param>, n: nat)
    requires AllEncodable(ps) && n <= |ps|
    ensures AllEncodable(ps[..n])
  {
    assert forall i :: 0 <= i < n ==> ps[..n][i] == ps[i];
  }

  /** The key table: every key followed by a NUL byte. */
  function KeyTableOf(ps: seq<Param>): seq<byte>
    requires AllEncodable(ps)
  {
    if |ps| == 0 then []
    else
      AllEncodablePrefix(ps, |ps| - 1);
      KeyTableOf(ps[..|ps| - 1]) + (Encode(ps[|ps| - 1].key) + [0])
  }

  /** The data table: every value's bytes, back to back. */
  function DataTableOf(ps: seq<Param>): seq<byte>
    requires AllEncodable(ps)
  {
    if |ps| == 0 then []
    else
      AllEncodablePrefix(ps, |ps| - 1);
      DataTableOf(ps[..|ps| - 1]) + ValueBytes(ps[|ps| - 1])
  }

  /** The window holds header, entries, key table and data table. */
  predicate Fits(ps: seq<Param>) {
    && AllEncodable(ps)
    && HeaderSize + EntrySize * |ps| + |KeyTableOf(ps)| + |DataTableOf(ps)| <= WindowSize
  }

  /** One 16-byte entry; the u32 at +8 (the value's maximum length, which
      the parser never reads) repeats the size. */
  function EntryRecord(p: Param, keyOffset: nat, dataOffset: nat): (r: seq<byte>)
    requires Encodable(p) && keyOffset < 65536 && dataOffset + |ValueBytes(p)| <= WindowSize
    ensures |r| == EntrySize
  {
    Pow256Values();
    var size := |ValueBytes(p)|;
    ToLittleEndian(keyOffset, 2)
      + (ToLittleEndian(ValueType(p.value), 2)
      + (ToLittleEndian(size, 4)
      + (ToLittleEndian(size, 4)
      + ToLittleEndian(dataOffset, 4))))
  }

  lemma TablesOfPrefix(ps: seq<Param>)
    requires AllEncodable(ps) && |ps| > 0
    ensures AllEncodable(ps[..|ps| - 1])
    ensures |KeyTableOf(ps[..|ps| - 1])| + |ps[|ps| - 1].key| + 1 == |KeyTableOf(ps)|
    ensures |DataTableOf(ps[..|ps| - 1])| + |ValueBytes(ps[|ps| - 1])| == |DataTableOf(ps)|
  {
    AllEncodablePrefix(ps, |ps| - 1);
  }

  /** The entry table, entry `i` pointing at key `i` and value `i`. */
  function EntryTableOf(ps: seq<Param>): (r: seq<byte>)
    requires AllEncodable(ps) && |KeyTableOf(ps)| <= WindowSize && |DataTableOf(ps)| <= WindowSize
    ensures |r| == EntrySize * |ps|
  {
    if |ps| == 0 then []
    else
      var n := |ps| - 1;
      TablesOfPrefix(ps);
      EntryTableOf(ps[..n])
        + EntryRecord(ps[n], |KeyTableOf(ps[..n])|, |DataTableOf(ps[..n])|)
  }

  function Zeros(n: nat): (r: seq<byte>)
    ensures |r| == n
  {
    seq(n, i => 0)
  }

  /** Where the key table starts: right after the entries. */
  function KeyTableStart(ps: seq<Param>): nat {
    HeaderSize + EntrySize * |ps|
  }

  /** Where the data table starts: right after the key table. */
  function DataTableStart(ps: seq<Param>): nat
    requires AllEncodable(ps)
  {
    KeyTableStart(ps) + |KeyTableOf(ps)|
  }

  /** The 20-byte header: magic, key-table offset, data-table offset, count. */
  function ImageHead(ps: seq<Param>): (r: seq<byte>)
    requires Fits(ps)
    ensures |r| == HeaderSize
  {
    Pow256Values();
    PsfMagic
      + (ToLittleEndian(KeyTableStart(ps), 4)
      + (ToLittleEndian(DataTableStart(ps), 4)
      + ToLittleEndian(|ps|, 4)))
  }

  /** The data table and the zero padding up to the window size. */
  function ImageData(ps: seq<Param>): (r: seq<byte>)
    requires Fits(ps)
    ensures |r| == WindowSize - DataTableStart(ps)
  {
    DataTableOf(ps) + Zeros(WindowSize - DataTableStart(ps) - |DataTableOf(ps)|)
  }

  /** The 2048-byte PARAM.SFO window holding `ps`. */
  function SfoImage(ps: seq<Param>): (img: seq<byte>)
    requires Fits(ps)
    ensures |img| == WindowSize
  {
    ImageHead(ps) + (EntryTableOf(ps) + (KeyTableOf(ps) + ImageData(ps)))
  }

  /** The mapping the parameters describe: the last one wins for a key. */
  function ParamMap(ps: seq<Param>): (m: map<string, SfoValue>)
    ensures forall k :: k in m <==> exists i :: 0 <= i < |ps| && ps[i].key == k
  {
    if |ps| == 0 then map[]
    else
      var prev := ParamMap(ps[..|ps| - 1]);
      assert forall i :: 0 <= i < |ps| - 1 ==> ps[..|ps| - 1][i] == ps[i];
      prev[ps[|ps| - 1].key := ps[|ps| - 1].value]
  }

  // ---------------------------------------------------------------------------
  // Slicing helpers
  // ---------------------------------------------------------------------------

  lemma SliceLeft(a: seq<byte>, b: seq<byte>, lo: nat, hi: nat)
    requires lo <= hi <= |a|
    ensures (a + b)[lo..hi] == a[lo..hi]
  {
  }

  lemma SliceRight(a: seq<byte>, b: seq<byte>, lo: nat, hi: nat)
    requires lo <= hi <= |b|
    ensures (a + b)[|a| + lo..|a| + hi] == b[lo..hi]
  {
  }

  /** The bytes `piece` sit at offset `at` of `s`. */
  predicate PieceAt(s: seq<byte>, at: nat, piece: seq<byte>) {
    at + |piece| <= |s| && s[at..at + |piece|] == piece
  }

  lemma PieceLeft(a: seq<byte>, b: seq<byte>, at: nat, piece: seq<byte>)
    requires PieceAt(a, at, piece)
    ensures PieceAt(a + b, at, piece)
  {
    SliceLeft(a, b, at, at + |piece|);
  }

  lemma PieceRight(a: seq<byte>, piece: seq<byte>)
    ensures PieceAt(a + piece, |a|, piece)
  {
    SliceRight(a, piece, 0, |piece|);
  }

  /** A piece of a region found at `start` sits at `start` plus its offset. */
  lemma {:induction false} PieceThrough(s: seq<byte>, start: nat, region: seq<byte>, at: nat, piece: seq<byte>)
    requires PieceAt(s, start, region)
    requires PieceAt(region, at, piece)
    ensures PieceAt(s, start + at, piece)
  {
    SubSlice(s, start, start + |region|, at, at + |piece|);
  }

  lemma SubSlice(s: seq<byte>, a: nat, b: nat, c: nat, d: nat)
    requires a <= b <= |s| && c <= d <= b - a
    ensures s[a..b][c..d] == s[a + c..a + d]
  {
    assert forall j :: 0 <= j < d - c ==> s[a..b][c..d][j] == s[a + c..a + d][j];
  }

  // ---------------------------------------------------------------------------
  // Where each parameter lands
  // ---------------------------------------------------------------------------

  lemma PrefixOfPrefix(ps: seq<Param>, m: nat, i: nat)
    requires i <= m <= |ps|
    ensures ps[..m][..i] == ps[..i]
  {
  }

  /** Key `i` sits at the key-table offset of the parameters before it,
      followed by its NUL terminator. */
  lemma {:induction false} KeyTableSlice(ps: seq<Param>, i: nat)
    requires AllEncodable(ps) && i < |ps|
    ensures AllEncodable(ps[..i])
    ensures Encodable(ps[i])
    ensures PieceAt(KeyTableOf(ps), |KeyTableOf(ps[..i])|, Encode(ps[i].key) + [0])
    decreases |ps|
  {
    AllEncodablePrefix(ps, i);
    var n := |ps| - 1;
    AllEncodablePrefix(ps, n);
    var before := KeyTableOf(ps[..n]);
    var last := Encode(ps[n].key) + [0];
    assert KeyTableOf(ps) == before + last;
    if i == n {
      PieceRight(before, last);
    } else {
      var q := ps[..n];
      KeyTableSlice(q, i);
      PrefixOfPrefix(ps, n, i);
      assert q[i] == ps[i];
      PieceLeft(before, last, |KeyTableOf(ps[..i])|, Encode(ps[i].key) + [0]);
    }
  }

  /** Value `i` sits at the data-table offset of the parameters before it. */
  lemma {:induction false} DataTableSlice(ps: seq<Param>, i: nat)
    requires AllEncodable(ps) && i < |ps|
    ensures AllEncodable(ps[..i])
    ensures Encodable(ps[i])
    ensures PieceAt(DataTableOf(ps), |DataTableOf(ps[..i])|, ValueBytes(ps[i]))
    decreases |ps|
  {
    AllEncodablePrefix(ps, i);
    var n := |ps| - 1;
    AllEncodablePrefix(ps, n);
    var before := DataTableOf(ps[..n]);
    var last := ValueBytes(ps[n]);
    assert DataTableOf(ps) == before + last;
    if i == n {
      PieceRight(before, last);
    } else {
      var q := ps[..n];
      DataTableSlice(q, i);
      PrefixOfPrefix(ps, n, i);
      assert q[i] == ps[i];
      PieceLeft(before, last, |DataTableOf(ps[..i])|, ValueBytes(ps[i]));
    }
  }

  /** Key and data tables of a prefix are no longer than the whole. */
  lemma {:induction false} PrefixTablesShorter(ps: seq<Param>, i: nat)
    requires AllEncodable(ps) && i <= |ps|
    ensures AllEncodable(ps[..i])
    ensures |KeyTableOf(ps[..i])| <= |KeyTableOf(ps)|
    ensures |DataTableOf(ps[..i])| <= |DataTableOf(ps)|
    decreases |ps|
  {
    AllEncodablePrefix(ps, i);
    if i < |ps| {
      var n := |ps| - 1;
      TablesOfPrefix(ps);
      PrefixTablesShorter(ps[..n], i);
      PrefixOfPrefix(ps, n, i);
    } else {
      assert ps[..i] == ps;
    }
  }

  /** Entry `i` of the entry table is the record of parameter `i`. */
  lemma {:induction false} EntryTableSlice(ps: seq<Param>, i: nat)
    requires AllEncodable(ps) && |KeyTableOf(ps)| <= WindowSize && |DataTableOf(ps)| <= WindowSize
    requires i < |ps|
    ensures AllEncodable(ps[..i])
    ensures |KeyTableOf(ps[..i])| < 65536
    ensures |DataTableOf(ps[..i])| + |ValueBytes(ps[i])| <= WindowSize
    ensures PieceAt(EntryTableOf(ps), EntrySize * i,
                    EntryRecord(ps[i], |KeyTableOf(ps[..i])|, |DataTableOf(ps[..i])|))
    decreases |ps|
  {
    if i == |ps| - 1 {
      EntryTableSliceLast(ps);
    } else {
      EntryTableSliceEarlier(ps, i);
    }
  }

  /** `EntryTableSlice` for the last entry, which closes the table. */
  lemma EntryTableSliceLast(ps: seq<Param>)
    requires AllEncodable(ps) && |KeyTableOf(ps)| <= WindowSize && |DataTableOf(ps)| <= WindowSize
    requires |ps| > 0
    ensures var n := |ps| - 1;
            && AllEncodable(ps[..n])
            && |KeyTableOf(ps[..n])| < 65536
            && |DataTableOf(ps[..n])| + |ValueBytes(ps[n])| <= WindowSize
            && PieceAt(EntryTableOf(ps), EntrySize * n,
                       EntryRecord(ps[n], |KeyTableOf(ps[..n])|, |DataTableOf(ps[..n])|))
  {
    var n := |ps| - 1;
    PrefixTablesShorter(ps, n);
    DataTableSlice(ps, n);
    var q := ps[..n];
    var et := EntryTableOf(q);
    var rec := EntryRecord(ps[n], |KeyTableOf(q)|, |DataTableOf(q)|);
    assert EntryTableOf(ps) == et + rec;
    PieceRight(et, rec);
  }

  /** The induction step of `EntryTableSlice` for an entry before the last. */
  lemma {:induction false} EntryTableSliceEarlier(ps: seq<Param>, i: nat)
    requires AllEncodable(ps) && |KeyTableOf(ps)| <= WindowSize && |DataTableOf(ps)| <= WindowSize
    requires i < |ps| - 1
    ensures AllEncodable(ps[..i])
    ensures |KeyTableOf(ps[..i])| < 65536
    ensures |DataTableOf(ps[..i])| + |ValueBytes(ps[i])| <= WindowSize
    ensures PieceAt(EntryTableOf(ps), EntrySize * i,
                    EntryRecord(ps[i], |KeyTableOf(ps[..i])|, |DataTableOf(ps[..i])|))
    decreases |ps|, 0
  {
    var n := |ps| - 1;
    var q := ps[..n];
    PrefixTablesShorter(ps, n);
    var et := EntryTableOf(q);
    var rec := EntryRecord(ps[n], |KeyTableOf(q)|, |DataTableOf(q)|);
    assert EntryTableOf(ps) == et + rec;
    PrefixOfPrefix(ps, n, i);
    assert q[i] == ps[i];
    EntryTableSlice(q, i);
    PieceLeft(et, rec, EntrySize * i, EntryRecord(ps[i], |KeyTableOf(ps[..i])|, |DataTableOf(ps[..i])|));
  }

  // ---------------------------------------------------------------------------
  // The round trip
  // ---------------------------------------------------------------------------

  /** The four regions of a window laid out as `head + (et + (kt + dat))`. */
  lemma PartFirst(a: seq<byte>, rest: seq<byte>)
    ensures (a + rest)[..|a|] == a
  {
  }

  lemma PartSecond(a: seq<byte>, b: seq<byte>, rest: seq<byte>)
    ensures PieceAt(a + (b + rest), |a|, b)
  {
    assert (a + (b + rest))[|a|..|a| + |b|] == (b + rest)[..|b|];
  }

  lemma PartThird(a: seq<byte>, b: seq<byte>, rest: seq<byte>)
    ensures (a + (b + rest))[|a| + |b|..] == rest
  {
  }

  lemma {:induction false} PartFourth(a: seq<byte>, b: seq<byte>, c: seq<byte>, d: seq<byte>)
    ensures PieceAt(a + (b + (c + d)), |a| + |b| + |c|, d)
  {
    var s := a + (b + (c + d));
    assert forall j :: 0 <= j < |d| ==> s[|a| + |b| + |c| + j] == d[j];
  }

  /** The window is its header, entry table, key table and data, in order. */
  lemma ImageLayout(ps: seq<Param>)
    requires Fits(ps)
    ensures SfoImage(ps) == ImageHead(ps) + (EntryTableOf(ps) + (KeyTableOf(ps) + ImageData(ps)))
    ensures |ImageHead(ps)| == HeaderSize && |EntryTableOf(ps)| == EntrySize * |ps|
  {
  }

  lemma {:induction false} SplitHeader(m: seq<byte>, a: seq<byte>, b: seq<byte>, c: seq<byte>)
    requires |m| == 8 && |a| == 4 && |b| == 4 && |c| == 4
    ensures var r := m + (a + (b + c));
            r[8..12] == a && r[12..16] == b && r[16..20] == c
  {
    var r := m + (a + (b + c));
    assert r[8..12] == a;
    assert r[12..16] == b;
    assert r[16..20] == c;
  }

  lemma {:induction false} SplitRecord(a: seq<byte>, b: seq<byte>, c: seq<byte>, d: seq<byte>, e: seq<byte>)
    requires |a| == 2 && |b| == 2 && |c| == 4 && |d| == 4 && |e| == 4
    ensures var r := a + (b + (c + (d + e)));
            r[0..2] == a && r[2..4] == b && r[4..8] == c && r[12..16] == e
  {
    var r := a + (b + (c + (d + e)));
    assert r[0..2] == a;
    assert r[2..4] == b;
    assert r[4..8] == c;
    assert r[12..16] == e;
  }

  /** The header fields read back as the key-table start, the data-table
      start and the number of parameters. */
  lemma {:induction false} ImageHeader(ps: seq<Param>)
    requires Fits(ps)
    ensures ReadHeader(SfoImage(ps)) == Ok(Header(KeyTableStart(ps), DataTableStart(ps), |ps|))
  {
    Pow256Values();
    ImageLayout(ps);
    var a, b, c := ToLittleEndian(KeyTableStart(ps), 4), ToLittleEndian(DataTableStart(ps), 4), ToLittleEndian(|ps|, 4);
    HeaderReadsBack(SfoImage(ps), a, b, c, EntryTableOf(ps) + (KeyTableOf(ps) + ImageData(ps)));
  }

  /** A buffer that starts with the magic and three four-byte fields reads
      back those fields as its header. */
  lemma {:induction false} HeaderReadsBack(img: seq<byte>, a: seq<byte>, b: seq<byte>, c: seq<byte>, rest: seq<byte>)
    requires |a| == 4 && |b| == 4 && |c| == 4
    requires img == (PsfMagic + (a + (b + c))) + rest
    ensures ReadHeader(img) == Ok(Header(LittleEndian(a), LittleEndian(b), LittleEndian(c)))
  {
    PartFirst(PsfMagic + (a + (b + c)), rest);
    SplitHeader(PsfMagic, a, b, c);
    SubSlice(img, 0, HeaderSize, 8, 12);
    SubSlice(img, 0, HeaderSize, 12, 16);
    SubSlice(img, 0, HeaderSize, 16, 20);
    assert img[8..12] == a && img[12..16] == b && img[16..20] == c;
  }

  /** The four fields the parser reads out of an entry record. */
  lemma {:induction false} RecordFields(p: Param, keyOffset: nat, dataOffset: nat)
    requires Encodable(p) && keyOffset < 65536 && dataOffset + |ValueBytes(p)| <= WindowSize
    ensures var rec := EntryRecord(p, keyOffset, dataOffset);
            && LittleEndian(rec[0..2]) == keyOffset
            && LittleEndian(rec[2..4]) == ValueType(p.value)
            && LittleEndian(rec[4..8]) == |ValueBytes(p)|
            && LittleEndian(rec[12..16]) == dataOffset
  {
    Pow256Values();
    var size := |ValueBytes(p)|;
    SplitRecord(ToLittleEndian(keyOffset, 2), ToLittleEndian(ValueType(p.value), 2),
      ToLittleEndian(size, 4), ToLittleEndian(size, 4), ToLittleEndian(dataOffset, 4));
  }

  /** The header the window declares. */
  function ImageHeaderOf(ps: seq<Param>): Header
    requires AllEncodable(ps)
  {
    Header(KeyTableStart(ps), DataTableStart(ps), |ps|)
  }

  /** The entry table sits right after the header. */
  lemma {:induction false} ImageEntryTable(ps: seq<Param>)
    requires Fits(ps)
    ensures PieceAt(SfoImage(ps), HeaderSize, EntryTableOf(ps))
  {
    ImageLayout(ps);
    PartSecond(ImageHead(ps), EntryTableOf(ps), KeyTableOf(ps) + ImageData(ps));
  }

  /** Entry `i`'s 16 bytes in the window are the record of parameter `i`. */
  lemma {:induction false} ImageRecord(ps: seq<Param>, i: nat)
    requires Fits(ps) && i < |ps|
    ensures AllEncodable(ps[..i])
    ensures |KeyTableOf(ps[..i])| < 65536
    ensures |DataTableOf(ps[..i])| + |ValueBytes(ps[i])| <= WindowSize
    ensures PieceAt(SfoImage(ps), HeaderSize + i * EntrySize,
                    EntryRecord(ps[i], |KeyTableOf(ps[..i])|, |DataTableOf(ps[..i])|))
  {
    ImageEntryTable(ps);
    EntryTableSlice(ps, i);
    RecordInTable(SfoImage(ps), EntryTableOf(ps), EntryRecord(ps[i], |KeyTableOf(ps[..i])|, |DataTableOf(ps[..i])|), i);
  }

  /** A buffer holding an entry table after the header holds the table's
      record `i` at `HeaderSize + i * EntrySize`. */
  lemma RecordInTable(img: seq<byte>, table: seq<byte>, rec: seq<byte>, i: nat)
    requires PieceAt(img, HeaderSize, table) && PieceAt(table, EntrySize * i, rec)
    ensures PieceAt(img, HeaderSize + i * EntrySize, rec)
  {
    PieceThrough(img, HeaderSize, table, EntrySize * i, rec);
  }

  /** The little-endian fields of a record found at `e` in a buffer. */
  lemma {:induction false} FieldsAt(buf: seq<byte>, e: nat, rec: seq<byte>)
    requires |rec| == EntrySize && PieceAt(buf, e, rec)
    ensures ReadUInt(buf, e, 2) == LittleEndian(rec[0..2])
    ensures ReadUInt(buf, e + 2, 2) == LittleEndian(rec[2..4])
    ensures ReadUInt(buf, e + 4, 4) == LittleEndian(rec[4..8])
    ensures ReadUInt(buf, e + 12, 4) == LittleEndian(rec[12..16])
  {
    SubSlice(buf, e, e + EntrySize, 0, 2);
    SubSlice(buf, e, e + EntrySize, 2, 4);
    SubSlice(buf, e, e + EntrySize, 4, 8);
    SubSlice(buf, e, e + EntrySize, 12, 16);
  }

  /** Entry `i`'s record holds the key offset, value type, value size and
      data offset given. */
  predicate RecordHolds(buf: seq<byte>, i: nat, ko: nat, vt: nat, size: nat, dof: nat) {
    var e := HeaderSize + i * EntrySize;
    && RecordInBuffer(buf, i)
    && ReadUInt(buf, e, 2) == ko
    && ReadUInt(buf, e + 2, 2) == vt
    && ReadUInt(buf, e + 4, 4) == size
    && ReadUInt(buf, e + 12, 4) == dof
  }

  /** `key` sits at offset `ko` of the key table, ended by a NUL byte. */
  predicate KeyAt(ktb: seq<byte>, ko: nat, key: string) {
    && ko + |key| < |ktb|
    && IndexOfByte(ktb, 0, ko) == ko + |key|
    && Decode(ktb[ko..ko + |key|]) == key
  }

  /** A buffer holding the record of `p` for entry `i` reads back its fields. */
  lemma {:induction false} RecordReadsBack(buf: seq<byte>, i: nat, p: Param, ko: nat, dof: nat)
    requires Encodable(p) && ko < 65536 && dof + |ValueBytes(p)| <= WindowSize
    requires PieceAt(buf, HeaderSize + i * EntrySize, EntryRecord(p, ko, dof))
    ensures RecordHolds(buf, i, ko, ValueType(p.value), |ValueBytes(p)|, dof)
  {
    RecordFields(p, ko, dof);
    FieldsAt(buf, HeaderSize + i * EntrySize, EntryRecord(p, ko, dof));
  }

  /** Entry `i`'s record reads back key offset, type, size and data offset
      of parameter `i`. */
  lemma {:induction false} ImageEntryFields(ps: seq<Param>, i: nat)
    requires Fits(ps) && i < |ps|
    ensures AllEncodable(ps[..i])
    ensures RecordHolds(SfoImage(ps), i, |KeyTableOf(ps[..i])|, ValueType(ps[i].value),
                        |ValueBytes(ps[i])|, |DataTableOf(ps[..i])|)
  {
    ImageRecord(ps, i);
    RecordReadsBack(SfoImage(ps), i, ps[i], |KeyTableOf(ps[..i])|, |DataTableOf(ps[..i])|);
  }

  /** A NUL-free key followed by a NUL is found by the terminator search. */
  lemma {:induction false} KeyFound(ktb: seq<byte>, ko: nat, key: string)
    requires NulFreeText(key)
    requires PieceAt(ktb, ko, Encode(key) + [0])
    ensures KeyAt(ktb, ko, key)
  {
    var piece := Encode(key) + [0];
    assert forall j :: 0 <= j < |piece| ==> ktb[ko + j] == piece[j];
    assert ktb[ko + |key|] == 0;
    SubSlice(ktb, ko, ko + |piece|, 0, |key|);
    assert piece[0..|key|] == Encode(key);
    forall j | ko <= j < ko + |key| ensures ktb[j] != 0 {
      assert ktb[j] == Encode(key)[j - ko];
      assert Decode(Encode(key))[j - ko] == key[j - ko];
    }
  }

  /** The key table as the parser slices it out of the window. */
  lemma {:induction false} ImageKeyTable(ps: seq<Param>)
    requires Fits(ps)
    ensures KeyTable(SfoImage(ps), ImageHeaderOf(ps)) == KeyTableOf(ps) + ImageData(ps)
  {
    ImageLayout(ps);
    KeyTableAfter(SfoImage(ps), ImageHead(ps), EntryTableOf(ps), KeyTableOf(ps) + ImageData(ps), ImageHeaderOf(ps));
  }

  /** The key table of a buffer laid out as header, entry table and rest,
      with the key-table offset right after the entry table, is the rest. */
  lemma KeyTableAfter(img: seq<byte>, head: seq<byte>, table: seq<byte>, rest: seq<byte>, h: Header)
    requires img == head + (table + rest) && h.keyTableOffset == |head| + |table|
    ensures KeyTable(img, h) == rest
  {
    PartThird(head, table, rest);
  }

  /** Key `i` is found at its offset in the key table, up to its NUL. */
  lemma {:induction false} ImageKey(ps: seq<Param>, i: nat)
    requires Fits(ps) && i < |ps|
    ensures AllEncodable(ps[..i])
    ensures KeyAt(KeyTable(SfoImage(ps), ImageHeaderOf(ps)), |KeyTableOf(ps[..i])|, ps[i].key)
  {
    ImageKeyTable(ps);
    KeyTableSlice(ps, i);
    var ko := |KeyTableOf(ps[..i])|;
    PieceLeft(KeyTableOf(ps), ImageData(ps), ko, Encode(ps[i].key) + [0]);
    KeyFound(KeyTable(SfoImage(ps), ImageHeaderOf(ps)), ko, ps[i].key);
  }

  /** The data table sits at its start in the window. */
  lemma {:induction false} ImageDataTable(ps: seq<Param>)
    requires Fits(ps)
    ensures PieceAt(SfoImage(ps), DataTableStart(ps), DataTableOf(ps))
  {
    var dt, z := DataTableOf(ps), Zeros(WindowSize - DataTableStart(ps) - |DataTableOf(ps)|);
    ImageLayout(ps);
    PartFourth(ImageHead(ps), EntryTableOf(ps), KeyTableOf(ps), ImageData(ps));
    assert ImageData(ps) == dt + z;
    PieceStart(SfoImage(ps), DataTableStart(ps), ImageData(ps), dt, z);
  }

  /** The front part of a piece sits where the piece starts. */
  lemma PieceStart(s: seq<byte>, start: nat, region: seq<byte>, front: seq<byte>, back: seq<byte>)
    requires PieceAt(s, start, region) && region == front + back
    ensures PieceAt(s, start, front)
  {
    assert PieceAt(front, 0, front);
    PieceLeft(front, back, 0, front);
    PieceThrough(s, start, region, 0, front);
  }

  /** Value `i`'s bytes sit at the data-table start plus its offset. */
  lemma {:induction false} ImageValue(ps: seq<Param>, i: nat)
    requires Fits(ps) && i < |ps|
    ensures AllEncodable(ps[..i])
    ensures PieceAt(SfoImage(ps), DataTableStart(ps) + |DataTableOf(ps[..i])|, ValueBytes(ps[i]))
  {
    ImageDataTable(ps);
    DataTableSlice(ps, i);
    PieceThrough(SfoImage(ps), DataTableStart(ps), DataTableOf(ps), |DataTableOf(ps[..i])|, ValueBytes(ps[i]));
  }

  /** An entry whose fields, key and value bytes are as given decodes to
      that key and value. */
  lemma {:induction false} EntryDecodes(buf: seq<byte>, h: Header, i: nat, key: string, v: SfoValue,
                                        vb: seq<byte>, ko: nat, dof: nat)
    requires RecordHolds(buf, i, ko, ValueType(v), |vb|, dof)
    requires KeyAt(KeyTable(buf, h), ko, key)
    requires PieceAt(buf, h.dataOffset + dof, vb)
    requires v.Str? ==> StripNul(Decode(vb)) == v.text
    requires v.U32? ==> |vb| == 4 && LittleEndian(vb) == v.number
    ensures EntryAt(buf, h, i) == Bind(key, v)
  {
    assert EntryAt(buf, h, i) == DecodeEntry(buf, KeyTable(buf, h), ko, ValueType(v), |vb|, h.dataOffset + dof);
    KeyValueDecodes(buf, KeyTable(buf, h), ko, key, v, vb, h.dataOffset + dof);
  }

  /** The key and value stage of the entry decoding. */
  lemma {:induction false} KeyValueDecodes(buf: seq<byte>, ktb: seq<byte>, ko: nat, key: string, v: SfoValue,
                                           vb: seq<byte>, abs: nat)
    requires KeyAt(ktb, ko, key)
    requires PieceAt(buf, abs, vb)
    requires v.Str? ==> StripNul(Decode(vb)) == v.text
    requires v.U32? ==> |vb| == 4 && LittleEndian(vb) == v.number
    ensures DecodeEntry(buf, ktb, ko, ValueType(v), |vb|, abs) == Bind(key, v)
  {
  }

  /** The bytes written for a value decode back to it. */
  lemma {:induction false} ValueBytesDecode(p: Param)
    requires Encodable(p)
    ensures p.value.Str? ==> StripNul(Decode(ValueBytes(p))) == p.value.text
    ensures p.value.U32? ==> |ValueBytes(p)| == 4 && LittleEndian(ValueBytes(p)) == p.value.number
  {
  }

  /** Entry `i` of the window decodes to parameter `i`. */
  lemma {:induction false} EntryAtImage(ps: seq<Param>, i: nat)
    requires Fits(ps) && i < |ps|
    ensures EntryAt(SfoImage(ps), ImageHeaderOf(ps), i) == Bind(ps[i].key, ps[i].value)
  {
    ImageEntryFields(ps, i);
    ImageKey(ps, i);
    ImageValue(ps, i);
    ParamEntryDecodes(SfoImage(ps), ImageHeaderOf(ps), i, ps[i], |KeyTableOf(ps[..i])|, |DataTableOf(ps[..i])|);
  }

  /** An entry whose record, key and value bytes are those written for `p`
      decodes to `p`'s key and value. */
  lemma ParamEntryDecodes(buf: seq<byte>, h: Header, i: nat, p: Param, ko: nat, dof: nat)
    requires Encodable(p)
    requires RecordHolds(buf, i, ko, ValueType(p.value), |ValueBytes(p)|, dof)
    requires KeyAt(KeyTable(buf, h), ko, p.key)
    requires PieceAt(buf, h.dataOffset + dof, ValueBytes(p))
    ensures EntryAt(buf, h, i) == Bind(p.key, p.value)
  {
    ValueBytesDecode(p);
    EntryDecodes(buf, h, i, p.key, p.value, ValueBytes(p), ko, dof);
  }

  /** Folding entries that each store their parameter gives the parameter map. */
  lemma {:induction false} FoldOfStoredParams(outs: seq<EntryOutcome>, ps: seq<Param>)
    requires |outs| == |ps| && AllEncodable(ps)
    requires forall i :: 0 <= i < |ps| ==> outs[i] == Bind(ps[i].key, ps[i].value)
    ensures FoldEntries(outs) == Ok(ParamMap(ps))
  {
    if |ps| > 0 {
      var n := |ps| - 1;
      AllEncodablePrefix(ps, n);
      assert forall i :: 0 <= i < n ==> outs[..n][i] == outs[i] && ps[..n][i] == ps[i];
      FoldOfStoredParams(outs[..n], ps[..n]);
      assert Encodable(ps[n]);
    }
  }

  /** Parsing the window written for `ps` gives back the parameters, the
      last one winning for a repeated key: string values come back as
      written, numbers as their 32-bit value. */
  lemma RoundTrip(ps: seq<Param>)
    requires Fits(ps)
    ensures ParseSfo(SfoImage(ps)) == Ok(ParamMap(ps))
  {
    var img := SfoImage(ps);
    var h := ImageHeaderOf(ps);
    ImageHeader(ps);
    var outs := Entries(img, h);
    forall i | 0 <= i < |ps| ensures outs[i] == Bind(ps[i].key, ps[i].value) {
      EntryAtImage(ps, i);
    }
    FoldOfStoredParams(outs, ps);
  }
}
