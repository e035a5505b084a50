/** The block signature scan written out twice in `server.js`: once for the
    PARAM.SFO magic (`extractGameDetails`) and once for the `PNG` marker
    (`extractGameImage`). The file is read in non-overlapping 1 MiB blocks
    from offset 0 while the block start is below the file size; each block
    is zero-padded to full length and searched on its own. */
module Signature {
  import opened Wrappers
  import opened Bytes

  const BlockSize: nat := 1048576

  /** `\x00PSF\x01\x01\x00\x00`, the PARAM.SFO header magic. */
  const PsfMagic: seq<byte> := [0x00, 0x50, 0x53, 0x46, 0x01, 0x01, 0x00, 0x00]

  /** `PNG`, bytes 1..3 of the PNG signature (section 5.2 of the PNG
      specification, ISO/IEC 15948); byte 0 is 0x89. */
  const PngMarker: seq<byte> := [0x50, 0x4E, 0x47]

  /** Block `k` as `readBytes(fd, k * blockSize, blockSize)` returns it. */
  function Block(data: seq<byte>, k: nat): seq<byte> {
    ReadBytes(data, k * BlockSize, BlockSize)
  }

  /** Block `k`, as the loop would read it, holds no occurrence of `pat`.
      Whether the loop reaches block `k` (its start below the file size) is
      stated separately wherever it matters. */
  predicate Misses(data: seq<byte>, pat: seq<byte>, k: nat) {
    FirstIndex(Block(data, k), pat).None?
  }

  /** The loop from block `k` on: the first read block with an occurrence
      decides the result, `k * blockSize + indexInBlock`. */
  function ScanFrom(data: seq<byte>, pat: seq<byte>, k: nat): (r: Option<nat>)
    ensures r.Some? ==>
              var kb := r.value / BlockSize;
              && k <= kb && kb * BlockSize < |data|
              && FirstIndex(Block(data, kb), pat) == Some(r.value % BlockSize)
              && !Misses(data, pat, kb)
              && forall k' :: k <= k' < kb ==> Misses(data, pat, k')
    ensures r.None? ==> forall k' :: k <= k' && k' * BlockSize < |data| ==> Misses(data, pat, k')
    decreases |data| - k * BlockSize
  {
    if k * BlockSize >= |data| then None
    else match FirstIndex(Block(data, k), pat)
      case Some(i) =>
        BlockOffset(k, i);
        Some(k * BlockSize + i)
      case None =>
        var r := ScanFrom(data, pat, k + 1);
        if r.Some? then
          MissesBefore(data, pat, k, r.value / BlockSize);
          r
        else
          MissesOnward(data, pat, k);
          r
  }

  /** A missed block followed by a run of missed blocks up to `kb`. */
  lemma MissesBefore(data: seq<byte>, pat: seq<byte>, k: nat, kb: nat)
    requires Misses(data, pat, k)
    requires forall k' :: k + 1 <= k' < kb ==> Misses(data, pat, k')
    ensures forall k' :: k <= k' < kb ==> Misses(data, pat, k')
  {
  }

  /** A missed block followed by missed blocks up to the end of the file. */
  lemma MissesOnward(data: seq<byte>, pat: seq<byte>, k: nat)
    requires Misses(data, pat, k)
    requires forall k' :: k + 1 <= k' && k' * BlockSize < |data| ==> Misses(data, pat, k')
    ensures forall k' :: k <= k' && k' * BlockSize < |data| ==> Misses(data, pat, k')
  {
    forall k' | k <= k' && k' * BlockSize < |data| ensures Misses(data, pat, k') {
      if k' > k {
        assert k + 1 <= k';
      }
    }
  }

  /** An in-block index below the block size splits back out of the
      absolute offset. */
  lemma BlockOffset(k: nat, i: nat)
    requires i < BlockSize
    ensures (k * BlockSize + i) / BlockSize == k
    ensures (k * BlockSize + i) % BlockSize == i
  {
  }

  /** `foundOffset` of the scan for `pat`, or `None` for `null`. */
  function FindSignature(data: seq<byte>, pat: seq<byte>): Option<nat> {
    ScanFrom(data, pat, 0)
  }

  /** The offset `extractGameDetails` reads the 2048-byte table window from. */
  function FindSfo(data: seq<byte>): Option<nat> {
    FindSignature(data, PsfMagic)
  }

  /** The offset `extractGameImage` reads the cover window from: one byte
      before the `PNG` marker, so that the window starts at the 0x89 lead
      byte of a PNG signature. It is -1 when the marker opens the file. */
  function FindPng(data: seq<byte>): (r: Option<int>)
    ensures r.Some? <==> FindSignature(data, PngMarker).Some?
    ensures r.Some? ==> r.value == FindSignature(data, PngMarker).value - 1
    ensures r.Some? ==> -1 <= r.value && r.value + 4 <= |data| && data[r.value + 1..r.value + 4] == PngMarker
    ensures r.Some? ==> forall k :: 0 <= k < (r.value + 1) / BlockSize ==> Misses(data, PngMarker, k)
    ensures r.None? ==> forall k :: 0 <= k && k * BlockSize < |data| ==> Misses(data, PngMarker, k)
  {
    match FindSignature(data, PngMarker)
    case Some(off) =>
      PngMatchInsideFile(data);
      Some(off - 1)
    case None => None
  }

  // ---------------------------------------------------------------------------
  // Properties of the scan
  // ---------------------------------------------------------------------------

  /** A pattern planted wholly inside one read block, with no occurrence in
      any earlier block nor earlier in its own block, is found at exactly its
      absolute offset. */
  lemma PlantedPatternFound(data: seq<byte>, pat: seq<byte>, k: nat, i: nat)
    requires i < BlockSize && k * BlockSize < |data|
    requires Occurs(Block(data, k), pat, i)
    requires forall j :: 0 <= j < i ==> !Occurs(Block(data, k), pat, j)
    requires forall k' :: 0 <= k' < k ==> Misses(data, pat, k')
    ensures FindSignature(data, pat) == Some(k * BlockSize + i)
  {
    BlockOffset(k, i);
    assert FirstIndex(Block(data, k), pat) == Some(i);
    assert !Misses(data, pat, k);
    var r := FindSignature(data, pat);
    assert r.Some?;
    var kb := r.value / BlockSize;
    assert !Misses(data, pat, kb);
    assert kb == k;
    assert r.value == kb * BlockSize + r.value % BlockSize;
  }

  /** When no read block holds the whole pattern the scan reports not-found,
      even if the file itself contains the pattern across a block boundary. */
  lemma NoBlockMatchNotFound(data: seq<byte>, pat: seq<byte>)
    requires forall k :: 0 <= k && k * BlockSize < |data| ==> Misses(data, pat, k)
    ensures FindSignature(data, pat).None?
  {
  }

  /** A pattern without zero bytes can only match inside the file: the
      zero padding of the last block cannot complete it, so the reported
      offset points at a real occurrence in the file's bytes. */
  lemma ZeroFreeMatchInsideFile(data: seq<byte>, pat: seq<byte>)
    requires forall i :: 0 <= i < |pat| ==> pat[i] != 0
    requires FindSignature(data, pat).Some?
    ensures var p := FindSignature(data, pat).value;
            p + |pat| <= |data| && data[p..p + |pat|] == pat
  {
    var p := FindSignature(data, pat).value;
    var kb, i := p / BlockSize, p % BlockSize;
    assert FirstIndex(Block(data, kb), pat) == Some(i) && kb * BlockSize < |data|;
    if |pat| == 0 {
      assert Occurs(Block(data, kb), pat, 0);
    } else {
      ZeroFreeOccurrenceInFile(data, pat, kb * BlockSize, i);
    }
  }

  /** An occurrence of a zero-free pattern at `i` in the window read at
      `start` is an occurrence in the file at `start + i`. */
  lemma ZeroFreeOccurrenceInFile(data: seq<byte>, pat: seq<byte>, start: nat, i: nat)
    requires |pat| > 0 && forall j :: 0 <= j < |pat| ==> pat[j] != 0
    requires Occurs(ReadBytes(data, start, BlockSize), pat, i)
    ensures start + i + |pat| <= |data| && data[start + i..start + i + |pat|] == pat
  {
    var blk := ReadBytes(data, start, BlockSize);
    assert start + i + |pat| <= |data| by {
      var last := i + |pat| - 1;
      assert blk[last] == pat[|pat| - 1];
    }
    forall j | 0 <= j < |pat| ensures data[start + i..start + i + |pat|][j] == pat[j] {
      assert blk[i + j] == pat[j];
    }
  }

  /** A `PNG` hit always lies inside the file. */
  lemma PngMatchInsideFile(data: seq<byte>)
    requires FindSignature(data, PngMarker).Some?
    ensures var p := FindSignature(data, PngMarker).value;
            p + 3 <= |data| && data[p..p + 3] == PngMarker
  {
    ZeroFreeMatchInsideFile(data, PngMarker);
  }

  /** The PARAM.SFO magic ends in two zero bytes, so the zero padding can
      complete it past the end of the file: a six-byte file holding
      `\x00PSF\x01\x01` is reported to contain the table at offset 0. */
  lemma PaddedMagicMatch()
    ensures FindSfo([0x00, 0x50, 0x53, 0x46, 0x01, 0x01]) == Some(0)
  {
    var data: seq<byte> := [0x00, 0x50, 0x53, 0x46, 0x01, 0x01];
    var blk := Block(data, 0);
    assert blk[..8] == PsfMagic;
    assert Occurs(blk, PsfMagic, 0);
    PlantedPatternFound(data, PsfMagic, 0, 0);
  }

  /** The boundary miss: a file of one block plus four bytes whose only
      bytes that are not zero spell `PNG` across the first block boundary
      (`P` is the last byte of block 0, `NG` open block 1). The file holds
      the marker, yet the scan reports not-found. */
  lemma BoundaryMiss()
    ensures var data := seq(BlockSize + 4, i requires 0 <= i < BlockSize + 4 =>
                          if i == BlockSize - 1 then 0x50 as byte
                          else if i == BlockSize then 0x4E
                          else if i == BlockSize + 1 then 0x47
                          else 0);
            && data[BlockSize - 1..BlockSize + 2] == PngMarker
            && FindSignature(data, PngMarker).None?
  {
    var data := seq(BlockSize + 4, i requires 0 <= i < BlockSize + 4 =>
                  if i == BlockSize - 1 then 0x50 as byte
                  else if i == BlockSize then 0x4E
                  else if i == BlockSize + 1 then 0x47
                  else 0);
    assert data[BlockSize - 1..BlockSize + 2] == PngMarker;
    forall k | 0 <= k && k * BlockSize < |data| ensures Misses(data, PngMarker, k) {
      var blk := Block(data, k);
      assert k == 0 || k == 1;
      forall j | 0 <= j ensures !Occurs(blk, PngMarker, j) {
        if j + 3 <= |blk| {
          if k == 0 {
            assert blk[j + 2] != 0x47;
            assert blk[j..j + 3][2] != PngMarker[2];
          } else {
            assert blk[j] != 0x50;
            assert blk[j..j + 3][0] != PngMarker[0];
          }
        }
      }
    }
    NoBlockMatchNotFound(data, PngMarker);
  }
}
