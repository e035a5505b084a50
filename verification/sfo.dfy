/** `parseSFO`: decoding the PARAM.SFO key/value table out of the 2048-byte
    window that starts at the table's magic.

    Layout (little-endian): key-table offset at 8, data-table offset at 12,
    entry count at 16; 16-byte entries from offset 20, each with the key
    offset (u16) at +0, the value type (u16) at +2, the value size (u32) at +4
    and the value offset inside the data table (u32) at +12. */
module Sfo {
  import opened Wrappers
  import opened Bytes
  import opened Signature

  const HeaderSize: nat := 20
  const EntrySize: nat := 16

  /** Value type of a UTF-8 string value. */
  const TypeUtf8: nat := 0x0204
  /** Value type of an unsigned 32-bit integer value. */
  const TypeUInt32: nat := 0x0404

  /** Assigning a string or a number to `gameInfo["__proto__"]` does not
      create an own property, so this key never reaches the result. */
  const ProtoKey: string := "__proto__"

  /** A decoded value: a string or a 32-bit number. */
  datatype SfoValue = Str(text: string) | U32(number: nat)

  datatype Header = Header(keyTableOffset: nat, dataOffset: nat, entryCount: nat)

  /** What one entry contributes: nothing, a key/value pair, or the
      `RangeError` of `readUInt32LE` past the end of the buffer. */
  datatype EntryOutcome = Skip | Bind(key: string, value: SfoValue) | Throw

  datatype ParseError =
    | TruncatedHeader          // the three header reads need 20 bytes
    | ValueOutOfRange(entry: nat) // first entry whose u32 read is out of range

  /** `buffer.slice(keyTableOffset)`: empty when the offset is past the end. */
  function KeyTable(buf: seq<byte>, h: Header): seq<byte> {
    if h.keyTableOffset <= |buf| then buf[h.keyTableOffset..] else []
  }

  /** The entry's 16-byte record lies inside the buffer. */
  predicate RecordInBuffer(buf: seq<byte>, i: nat) {
    HeaderSize + i * EntrySize + EntrySize <= |buf|
  }

  /** The decoding of entry `i`, one iteration of the loop body: an entry
      whose record runs past the buffer is skipped, otherwise its four fields
      are read and decoded by `DecodeEntry`. */
  function EntryAt(buf: seq<byte>, h: Header, i: nat): EntryOutcome {
    var e := HeaderSize + i * EntrySize;
    if !RecordInBuffer(buf, i) then Skip
    else
      DecodeEntry(buf, KeyTable(buf, h), ReadUInt(buf, e, 2), ReadUInt(buf, e + 2, 2),
                  ReadUInt(buf, e + 4, 4), h.dataOffset + ReadUInt(buf, e + 12, 4))
  }

  /** An entry with the given key offset, value type, value size and
      absolute value offset: skipped when the key offset is outside the key
      table or the value runs past the buffer, or when the type is neither
      a string nor a number; a number is read as four bytes, which throws
      when they run past the buffer. The key runs up to the next NUL byte
      of the key table, or to its end. */
  function DecodeEntry(buf: seq<byte>, keyTable: seq<byte>, keyOffset: nat, valueType: nat,
                       valueSize: nat, absoluteDataOffset: nat): EntryOutcome {
    if keyOffset >= |keyTable| then Skip
    else
      var keyEnd := IndexOfByte(keyTable, 0, keyOffset);
      var key := Decode(keyTable[keyOffset..keyEnd]);
      if absoluteDataOffset + valueSize > |buf| then Skip
      else if valueType == TypeUtf8 then
        Bind(key, Str(StripNul(Decode(buf[absoluteDataOffset..absoluteDataOffset + valueSize]))))
      else if valueType == TypeUInt32 then
        if absoluteDataOffset + 4 > |buf| then Throw
        else Bind(key, U32(ReadUInt(buf, absoluteDataOffset, 4)))
      else Skip
  }

  /** The four fields of entry `i`'s record. */
  function KeyOffsetOf(buf: seq<byte>, i: nat): nat
    requires RecordInBuffer(buf, i)
  {
    ReadUInt(buf, HeaderSize + i * EntrySize, 2)
  }

  function ValueTypeOf(buf: seq<byte>, i: nat): nat
    requires RecordInBuffer(buf, i)
  {
    ReadUInt(buf, HeaderSize + i * EntrySize + 2, 2)
  }

  function ValueSizeOf(buf: seq<byte>, i: nat): nat
    requires RecordInBuffer(buf, i)
  {
    ReadUInt(buf, HeaderSize + i * EntrySize + 4, 4)
  }

  /** The value's offset in the window: the data table offset plus the
      entry's relative offset. */
  function ValueOffsetOf(buf: seq<byte>, h: Header, i: nat): nat
    requires RecordInBuffer(buf, i)
  {
    h.dataOffset + ReadUInt(buf, HeaderSize + i * EntrySize + 12, 4)
  }

  /** An entry is skipped exactly when its record runs past the window, its
      key offset is outside the key table, its value runs past the window
      or its type is neither a string nor a number; it throws exactly when
      it is an in-range number whose four bytes run past the window. */
  lemma EntryOutcomeCases(buf: seq<byte>, h: Header, i: nat)
    ensures !RecordInBuffer(buf, i) ==> EntryAt(buf, h, i) == Skip
    ensures RecordInBuffer(buf, i) ==>
              (EntryAt(buf, h, i) == Skip <==>
                 || KeyOffsetOf(buf, i) >= |KeyTable(buf, h)|
                 || ValueOffsetOf(buf, h, i) + ValueSizeOf(buf, i) > |buf|
                 || (ValueTypeOf(buf, i) != TypeUtf8 && ValueTypeOf(buf, i) != TypeUInt32))
    ensures RecordInBuffer(buf, i) ==>
              (EntryAt(buf, h, i) == Throw <==>
                 && KeyOffsetOf(buf, i) < |KeyTable(buf, h)|
                 && ValueOffsetOf(buf, h, i) + ValueSizeOf(buf, i) <= |buf|
                 && ValueTypeOf(buf, i) == TypeUInt32
                 && ValueOffsetOf(buf, h, i) + 4 > |buf|)
  {
  }

  /** What a bound entry holds: its key runs from its key offset to the
      next NUL of the key table or to the table's end; a string value is
      its bytes with NULs removed, a number value its four little-endian
      bytes. */
  lemma EntryBindings(buf: seq<byte>, h: Header, i: nat)
    ensures EntryAt(buf, h, i).Bind? ==>
              && RecordInBuffer(buf, i)
              && var kt, ko := KeyTable(buf, h), KeyOffsetOf(buf, i);
                 && ko < |kt|
                 && EntryAt(buf, h, i).key == Decode(kt[ko..IndexOfByte(kt, 0, ko)])
    ensures EntryAt(buf, h, i).Bind? && ValueTypeOf(buf, i) == TypeUtf8 ==>
              var vo := ValueOffsetOf(buf, h, i);
              && vo + ValueSizeOf(buf, i) <= |buf|
              && EntryAt(buf, h, i).value == Str(StripNul(Decode(buf[vo..vo + ValueSizeOf(buf, i)])))
    ensures EntryAt(buf, h, i).Bind? && ValueTypeOf(buf, i) == TypeUInt32 ==>
              var vo := ValueOffsetOf(buf, h, i);
              && vo + 4 <= |buf|
              && EntryAt(buf, h, i).value == U32(LittleEndian(buf[vo..vo + 4]))
  {
    if RecordInBuffer(buf, i) {
      DecodeEntryBindings(buf, KeyTable(buf, h), KeyOffsetOf(buf, i), ValueTypeOf(buf, i),
                          ValueSizeOf(buf, i), ValueOffsetOf(buf, h, i));
    }
  }

  /** `EntryBindings` for one record's decoded fields. */
  lemma DecodeEntryBindings(buf: seq<byte>, keyTable: seq<byte>, keyOffset: nat, valueType: nat,
                            valueSize: nat, vo: nat)
    ensures var o := DecodeEntry(buf, keyTable, keyOffset, valueType, valueSize, vo);
            o.Bind? ==>
              && keyOffset < |keyTable|
              && o.key == Decode(keyTable[keyOffset..IndexOfByte(keyTable, 0, keyOffset)])
              && (valueType == TypeUtf8 ==>
                    vo + valueSize <= |buf| && o.value == Str(StripNul(Decode(buf[vo..vo + valueSize]))))
              && (valueType == TypeUInt32 ==>
                    vo + 4 <= |buf| && o.value == U32(LittleEndian(buf[vo..vo + 4])))
  {
  }

  /** The outcome of every entry the loop visits, in index order. */
  function Entries(buf: seq<byte>, h: Header): (outs: seq<EntryOutcome>)
    ensures |outs| == h.entryCount
    ensures forall i :: 0 <= i < h.entryCount ==> outs[i] == EntryAt(buf, h, i)
  {
    seq(h.entryCount, i requires 0 <= i < h.entryCount => EntryAt(buf, h, i))
  }

  /** Entry `i` assigns `key` in the result object. */
  predicate Stores(outs: seq<EntryOutcome>, i: nat, key: string)
    requires i < |outs|
  {
    outs[i].Bind? && outs[i].key == key && key != ProtoKey
  }

  /** The loop over the entries in index order, stopping at the first throw;
      later entries overwrite earlier ones with the same key. */
  function FoldEntries(outs: seq<EntryOutcome>): (r: Result<map<string, SfoValue>, ParseError>)
    ensures r.Ok? <==> forall i :: 0 <= i < |outs| ==> !outs[i].Throw?
    ensures r.Err? ==>
              && r.error.ValueOutOfRange?
              && r.error.entry < |outs|
              && outs[r.error.entry].Throw?
              && forall i :: 0 <= i < r.error.entry ==> !outs[i].Throw?
  {
    if |outs| == 0 then Ok(map[])
    else
      var n := |outs| - 1;
      var prev := FoldEntries(outs[..n]);
      assert forall i :: 0 <= i < n ==> outs[..n][i] == outs[i];
      if prev.Err? then prev
      else
        match outs[n]
        case Throw => Err(ValueOutOfRange(n))
        case Skip => prev
        case Bind(key, value) => if key == ProtoKey then prev else Ok(prev.value[key := value])
  }

  /** A successful fold holds exactly the keys some entry stores. */
  lemma {:induction false} FoldEntriesKeys(outs: seq<EntryOutcome>)
    requires FoldEntries(outs).Ok?
    ensures forall key :: key in FoldEntries(outs).value <==> exists i :: 0 <= i < |outs| && Stores(outs, i, key)
  {
    if |outs| > 0 {
      var n := |outs| - 1;
      var pre := outs[..n];
      assert forall i :: 0 <= i < n ==> pre[i] == outs[i];
      assert forall i, key :: 0 <= i < n ==> (Stores(pre, i, key) <==> Stores(outs, i, key));
      FoldEntriesKeys(pre);
      if outs[n].Bind? && outs[n].key != ProtoKey {
        assert Stores(outs, n, outs[n].key);
      } else {
        assert forall key :: !Stores(outs, n, key);
      }
    }
  }

  /** Each key of a successful fold carries the value of an entry that no
      later entry overwrites: the last writer wins. */
  lemma {:induction false} FoldEntriesLastWins(outs: seq<EntryOutcome>)
    requires FoldEntries(outs).Ok?
    ensures var m := FoldEntries(outs).value;
            forall key :: key in m ==>
              exists i :: && 0 <= i < |outs|
                          && outs[i] == Bind(key, m[key])
                          && forall j :: i < j < |outs| ==> !Stores(outs, j, key)
  {
    if |outs| > 0 {
      var n := |outs| - 1;
      var pre := outs[..n];
      assert forall i :: 0 <= i < n ==> pre[i] == outs[i];
      assert forall i, key :: 0 <= i < n ==> (Stores(pre, i, key) <==> Stores(outs, i, key));
      FoldEntriesLastWins(pre);
      if !(outs[n].Bind? && outs[n].key != ProtoKey) {
        assert forall key :: !Stores(outs, n, key);
      }
    }
  }

  /** Assigning `__proto__` creates no key. */
  lemma FoldEntriesNoProto(outs: seq<EntryOutcome>)
    ensures FoldEntries(outs).Ok? ==> ProtoKey !in FoldEntries(outs).value
  {
    if FoldEntries(outs).Ok? {
      FoldEntriesKeys(outs);
    }
  }

  /** A skipped entry has no influence: dropping it leaves the outcome
      (success or failure) and the parsed object unchanged, so one bad
      entry never costs the others. */
  lemma {:induction false} SkippedEntryIrrelevant(outs: seq<EntryOutcome>, i: nat)
    requires i < |outs| && outs[i] == Skip
    ensures FoldEntries(outs).Ok? <==> FoldEntries(outs[..i] + outs[i + 1..]).Ok?
    ensures FoldEntries(outs).Ok? ==> FoldEntries(outs).value == FoldEntries(outs[..i] + outs[i + 1..]).value
    decreases |outs|
  {
    var n := |outs| - 1;
    var rest := outs[..i] + outs[i + 1..];
    if i == n {
      assert Agree(FoldEntries(outs), FoldEntries(rest)) by {
        assert rest == outs[..n];
        SkippedLastIrrelevant(outs);
      }
    } else {
      var pre := outs[..n];
      assert Agree(FoldEntries(pre), FoldEntries(pre[..i] + pre[i + 1..])) by {
        assert pre[i] == Skip;
        SkippedEntryIrrelevant(pre, i);
      }
      DropBeforeLast(outs, i);
    }
  }

  /** Dropping an element other than the last agrees with the fold when
      it does so on the prefix without the last element. */
  lemma DropBeforeLast(outs: seq<EntryOutcome>, i: nat)
    requires i + 1 < |outs|
    requires var pre := outs[..|outs| - 1];
             Agree(FoldEntries(pre), FoldEntries(pre[..i] + pre[i + 1..]))
    ensures Agree(FoldEntries(outs), FoldEntries(outs[..i] + outs[i + 1..]))
  {
    DropInit(outs, i);
    FoldAgree(outs, outs[..i] + outs[i + 1..]);
  }

  /** A skipped last entry leaves the fold as it was. */
  lemma SkippedLastIrrelevant(outs: seq<EntryOutcome>)
    requires |outs| > 0 && outs[|outs| - 1] == Skip
    ensures Agree(FoldEntries(outs), FoldEntries(outs[..|outs| - 1]))
  {
    FoldStep(outs);
  }

  /** Two results with the same outcome and, on success, the same object. */
  predicate Agree(a: Result<map<string, SfoValue>, ParseError>, b: Result<map<string, SfoValue>, ParseError>) {
    (a.Ok? <==> b.Ok?) && (a.Ok? ==> a.value == b.value)
  }

  /** Folds that agree before a common last entry agree after it. */
  lemma FoldAgree(x: seq<EntryOutcome>, y: seq<EntryOutcome>)
    requires |x| > 0 && |y| > 0 && x[|x| - 1] == y[|y| - 1]
    requires Agree(FoldEntries(x[..|x| - 1]), FoldEntries(y[..|y| - 1]))
    ensures Agree(FoldEntries(x), FoldEntries(y))
  {
    FoldStep(x);
    FoldStep(y);
  }

  /** Dropping an element other than the last commutes with taking the
      prefix without the last element. */
  lemma DropInit<T>(s: seq<T>, i: nat)
    requires i + 1 < |s|
    ensures var n, rest := |s| - 1, s[..i] + s[i + 1..];
            && |rest| == n && rest[..n - 1] == s[..n][..i] + s[..n][i + 1..] && rest[n - 1] == s[n]
  {
    var n, rest := |s| - 1, s[..i] + s[i + 1..];
    assert rest[..n - 1] == s[..n][..i] + s[..n][i + 1..];
  }

  /** One step of the fold, stated without its quantified contract. */
  lemma FoldStep(outs: seq<EntryOutcome>)
    requires |outs| > 0
    ensures var prev, last := FoldEntries(outs[..|outs| - 1]), outs[|outs| - 1];
            && (prev.Err? ==> FoldEntries(outs).Err?)
            && (prev.Ok? && last.Throw? ==> FoldEntries(outs).Err?)
            && (prev.Ok? && (last.Skip? || (last.Bind? && last.key == ProtoKey)) ==> FoldEntries(outs) == prev)
            && (prev.Ok? && last.Bind? && last.key != ProtoKey ==>
                  FoldEntries(outs) == Ok(prev.value[last.key := last.value]))
  {
  }

  /** The three header fields; reading them throws on a buffer shorter than
      20 bytes. */
  function ReadHeader(buf: seq<byte>): Result<Header, ParseError> {
    if |buf| < HeaderSize then Err(TruncatedHeader)
    else Ok(Header(ReadUInt(buf, 8, 4), ReadUInt(buf, 12, 4), ReadUInt(buf, 16, 4)))
  }

  /** `parseSFO(buffer)`: it throws on a buffer too short for the header,
      and otherwise exactly when some entry's number read runs past the
      end, reporting the first such entry; the object it returns holds
      exactly the keys some entry assigns, never `__proto__`. */
  function ParseSfo(buf: seq<byte>): (r: Result<map<string, SfoValue>, ParseError>)
    ensures |buf| < HeaderSize <==> r == Err(TruncatedHeader)
    ensures |buf| >= HeaderSize ==>
              var h := ReadHeader(buf).value;
              && (r.Ok? <==> forall i :: 0 <= i < h.entryCount ==> !EntryAt(buf, h, i).Throw?)
              && (r.Err? ==>
                    && r.error.entry < h.entryCount && EntryAt(buf, h, r.error.entry).Throw?
                    && forall i :: 0 <= i < r.error.entry ==> !EntryAt(buf, h, i).Throw?)
    ensures r.Ok? ==> ProtoKey !in r.value
  {
    match ReadHeader(buf)
    case Err(e) => Err(e)
    case Ok(h) =>
      var outs := Entries(buf, h);
      FoldEntriesNoProto(outs);
      FoldEntries(outs)
  }

  // ---------------------------------------------------------------------------
  // A number value whose four bytes run past the window
  // ---------------------------------------------------------------------------

  /** A 2048-byte window that opens with the table magic, with key table
      and data at offset 0 and 2046 and a single number entry of declared
      size 0 at relative offset 0. Its key is empty (the key table opens
      with a NUL). The size check passes (2046 + 0 <= 2048) but the
      four-byte read does not fit. */
  function ShortNumberWindow(): (buf: seq<byte>)
    ensures |buf| == 2048
    ensures buf[..8] == PsfMagic
  {
    var buf := seq(2048, i requires 0 <= i < 2048 =>
      if i < 8 then PsfMagic[i]
      else if i == 12 then 0xFE as byte
      else if i == 13 then 0x07
      else if i == 16 then 1
      else if i == 22 || i == 23 then 0x04
      else 0);
    assert buf[..8] == PsfMagic;
    buf
  }

  lemma LittleEndian4(a: byte, b: byte, c: byte, d: byte)
    ensures LittleEndian([a, b, c, d]) == a as nat + 256 * b as nat + 65536 * c as nat + 16777216 * d as nat
  {
    assert [a, b, c, d][1..] == [b, c, d];
    assert [b, c, d][1..] == [c, d];
    assert [c, d][1..] == [d];
    assert [d][1..] == [];
    assert LittleEndian([d]) == d as nat;
    assert LittleEndian([c, d]) == c as nat + 256 * d as nat;
    assert LittleEndian([b, c, d]) == b as nat + 256 * (c as nat + 256 * d as nat);
  }

  lemma LittleEndian2(a: byte, b: byte)
    ensures LittleEndian([a, b]) == a as nat + 256 * b as nat
  {
    assert [a, b][1..] == [b];
    assert [b][1..] == [];
    assert LittleEndian([b]) == b as nat;
  }

  /** Parsing that window throws at entry 0 instead of skipping it. */
  lemma ShortNumberThrows()
    ensures ParseSfo(ShortNumberWindow()) == Err(ValueOutOfRange(0))
  {
    ShortNumberHeader();
    ShortNumberEntry();
    OnlyEntryThrows(ShortNumberWindow(), Header(0, 2046, 1));
  }

  /** A table whose one entry throws fails at entry 0. */
  lemma OnlyEntryThrows(buf: seq<byte>, h: Header)
    requires ReadHeader(buf) == Ok(h) && h.entryCount == 1 && EntryAt(buf, h, 0).Throw?
    ensures ParseSfo(buf) == Err(ValueOutOfRange(0))
  {
  }

  /** The window's header: key table at 0, data table at 2046, one entry. */
  lemma ShortNumberHeader()
    ensures ReadHeader(ShortNumberWindow()) == Ok(Header(0, 2046, 1))
  {
    var buf := ShortNumberWindow();
    assert buf[8..12] == [0, 0, 0, 0];
    assert buf[12..16] == [0xFE, 0x07, 0, 0];
    assert buf[16..20] == [1, 0, 0, 0];
    LittleEndian4(0, 0, 0, 0);
    LittleEndian4(0xFE, 0x07, 0, 0);
    LittleEndian4(1, 0, 0, 0);
  }

  /** Its one entry: a number at 2046 whose four bytes run past the end. */
  lemma ShortNumberEntry()
    ensures EntryAt(ShortNumberWindow(), Header(0, 2046, 1), 0) == Throw
  {
    var buf := ShortNumberWindow();
    var h := Header(0, 2046, 1);
    assert KeyOffsetOf(buf, 0) == 0 by {
      assert buf[20..22] == [0, 0];
      LittleEndian2(0, 0);
    }
    assert ValueTypeOf(buf, 0) == TypeUInt32 by {
      assert buf[22..24] == [4, 4];
      LittleEndian2(4, 4);
    }
    assert ValueSizeOf(buf, 0) == 0 by {
      assert buf[24..28] == [0, 0, 0, 0];
      LittleEndian4(0, 0, 0, 0);
    }
    assert ValueOffsetOf(buf, h, 0) == 2046 by {
      assert buf[32..36] == [0, 0, 0, 0];
      LittleEndian4(0, 0, 0, 0);
    }
    EntryOutcomeCases(buf, h, 0);
  }
}
