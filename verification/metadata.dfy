/** What `processPKG` learns about one package file: the parameter table
    (`extractGameDetails`), the cover window (`extractGameImage`), the region
    (`detectRegion`), the title-id fallback read from the package header
    (`readPkgMetadata`) and the release-date text (`getFormattedDate`). */
module Metadata {
  import opened Wrappers
  import opened Bytes
  import opened Signature
  import opened Sfo
  import opened SfoEncode

  /** `512 * 1024`, the length of the cover window. */
  const CoverWindowSize: nat := 524288

  /** `0x800`, the header prefix `readPkgMetadata` reads. */
  const HeaderPrefixSize: nat := 0x800

  /** The content-id field of the package header, bytes 0x30 up to 0x50. */
  const ContentIdStart: nat := 0x30
  const ContentIdEnd: nat := 0x50

  // ---------------------------------------------------------------------------
  // Values as JavaScript sees them
  // ---------------------------------------------------------------------------

  /** `details[key]`: `None` for a missing property (`undefined`) and for
      `null`. */
  function Lookup(details: map<string, SfoValue>, key: string): Option<SfoValue> {
    if key in details then Some(details[key]) else None
  }

  /** JavaScript truthiness of a table value: the empty string, `0`,
      `undefined` and `null` are falsy. */
  predicate Truthy(v: Option<SfoValue>) {
    match v
    case None => false
    case Some(Str(t)) => t != ""
    case Some(U32(n)) => n != 0
  }

  /** `a || b` on table values. */
  function Or(a: Option<SfoValue>, b: SfoValue): (r: SfoValue)
    ensures Truthy(a) ==> r == a.value
    ensures !Truthy(a) ==> r == b
  {
    if Truthy(a) then a.value else b
  }

  /** The text a value becomes inside a template literal. */
  function Text(v: SfoValue): string {
    match v
    case Str(t) => t
    case U32(n) => NatToDecimal(n)
  }

  predicate HasPrefix(s: string, p: string) {
    |p| <= |s| && s[..|p|] == p
  }

  // ---------------------------------------------------------------------------
  // extractGameDetails
  // ---------------------------------------------------------------------------

  /** `extractGameDetails`: the table found by the signature scan, parsed
      from a zero-filled 2048-byte window. A missing magic and a parse that
      throws both give `null`. */
  function ExtractDetails(data: seq<byte>): (r: Option<map<string, SfoValue>>)
    ensures FindSfo(data).None? ==> r.None?
    ensures FindSfo(data).Some? ==>
              var w := ReadBytes(data, FindSfo(data).value, WindowSize);
              var h := ReadHeader(w).value;
              r.None? <==> exists i :: 0 <= i < h.entryCount && EntryAt(w, h, i).Throw?
    ensures r.Some? ==> ProtoKey !in r.value
  {
    match FindSfo(data)
    case None => None
    case Some(off) =>
      match ParseSfo(ReadBytes(data, off, WindowSize))
      case Ok(m) => Some(m)
      case Err(_) => None
  }

  /** A package whose first PARAM.SFO magic opens the window `SfoImage(ps)`
      yields exactly the parameters of `ps`, the last one winning for a key. */
  lemma {:induction false} DetailsOfEmbeddedTable(data: seq<byte>, ps: seq<Param>)
    requires Fits(ps)
    requires FindSfo(data).Some? && PieceAt(data, FindSfo(data).value, SfoImage(ps))
    ensures ExtractDetails(data) == Some(ParamMap(ps))
  {
    var off := FindSfo(data).value;
    assert ReadBytes(data, off, WindowSize) == SfoImage(ps);
    RoundTrip(ps);
  }

  /** A window holding one number entry whose four bytes would run past the
      end: the read throws, so the whole file yields `null` even though a
      table was found. */
  lemma {:induction false} ShortNumberGivesNull(data: seq<byte>)
    requires FindSfo(data).Some?
    requires ReadBytes(data, FindSfo(data).value, WindowSize) == ShortNumberWindow()
    ensures ExtractDetails(data).None?
  {
    ShortNumberThrows();
  }

  /** The window above is itself a file that reaches the parse: its magic
      opens block 0, so the scan finds the table at offset 0, and the
      throwing read still makes the file yield `null`. */
  lemma ShortNumberFileGivesNull()
    ensures FindSfo(ShortNumberWindow()) == Some(0)
    ensures ExtractDetails(ShortNumberWindow()).None?
  {
    var data := ShortNumberWindow();
    var blk := Block(data, 0);
    assert blk[..8] == data[..8] == PsfMagic;
    assert Occurs(blk, PsfMagic, 0);
    PlantedPatternFound(data, PsfMagic, 0, 0);
    assert ReadBytes(data, 0, WindowSize) == data;
    ShortNumberGivesNull(data);
  }

  // ---------------------------------------------------------------------------
  // extractGameImage
  // ---------------------------------------------------------------------------

  /** The read position of the cover window. A marker at the very start of
      the file gives `foundOffset == -1`, and `readSync` with position -1
      reads from the descriptor's current position, still 0 because every
      earlier read was positional. */
  function CoverStart(foundOffset: int): (pos: nat)
    ensures foundOffset >= 0 ==> pos == foundOffset
    ensures foundOffset < 0 ==> pos == 0
  {
    if foundOffset < 0 then 0 else foundOffset
  }

  /** `w` holds the file's bytes from `start` on, zeros past its end. */
  predicate ZeroFilledFrom(w: seq<byte>, data: seq<byte>, start: nat) {
    forall j :: 0 <= j < |w| ==> w[j] == (if start + j < |data| then data[start + j] else 0)
  }

  /** `extractGameImage`: the 512 KiB cover window, or `None` when the file
      has no `PNG` marker in any block (nothing is written then). */
  function ExtractImage(data: seq<byte>): (r: Option<seq<byte>>)
    ensures r.Some? <==> FindSignature(data, PngMarker).Some?
    ensures r.Some? ==> |r.value| == CoverWindowSize
    ensures r.Some? ==> ZeroFilledFrom(r.value, data, CoverStart(FindSignature(data, PngMarker).value as int - 1))
  {
    match FindPng(data)
    case None => None
    case Some(off) =>
      var w := ReadBytes(data, CoverStart(off), CoverWindowSize);
      assert ZeroFilledFrom(w, data, CoverStart(off));
      Some(w)
  }

  /** The cover window lines up with the marker found: it starts one byte
      before `PNG`, where a PNG signature has its 0x89 lead byte, except for
      a marker that opens the file, where it starts at the marker itself. */
  lemma {:induction false} CoverWindowAtMarker(data: seq<byte>)
    requires FindSignature(data, PngMarker).Some?
    ensures var p, w := FindSignature(data, PngMarker).value, ExtractImage(data).value;
            && (p >= 1 ==> w[1..4] == PngMarker)
            && (p == 0 ==> w[0..3] == PngMarker)
  {
    var p := FindSignature(data, PngMarker).value;
    var w := ExtractImage(data).value;
    PngMatchInsideFile(data);
    var start := CoverStart(p as int - 1);
    assert w == ReadBytes(data, start, CoverWindowSize);
    assert (p >= 1 && start == p - 1) || (p == 0 && start == 0);
    WindowHoldsMarker(data, start, p);
  }

  /** A window read at `start` holds the marker found at `p` in the file at
      the marker's offset from the window start. */
  lemma WindowHoldsMarker(data: seq<byte>, start: nat, p: nat)
    requires p + 3 <= |data| && data[p..p + 3] == PngMarker
    requires start <= p && p - start + 3 <= CoverWindowSize
    ensures ReadBytes(data, start, CoverWindowSize)[p - start..p - start + 3] == PngMarker
  {
    var w := ReadBytes(data, start, CoverWindowSize);
    assert forall j :: p - start <= j < p - start + 3 ==> w[j] == data[start + j];
  }

  // ---------------------------------------------------------------------------
  // detectRegion
  // ---------------------------------------------------------------------------

  datatype Region = USA | EUR | JAP | UNK

  /** The exceptions that escape `processPKG` and end the scan. */
  datatype Crash =
    | NullDetails          // `details.TITLE_ID` read on a `null` result
    | StartsWithOnNumber   // `startsWith` called on a numeric CONTENT_ID

  /** `detectRegion(details.CONTENT_ID)`: `null` for a falsy id, the region
      of its two-character prefix for a string, and a `TypeError` for a
      non-zero number, which has no `startsWith`. */
  function DetectRegion(contentId: Option<SfoValue>): (r: Result<Option<Region>, Crash>)
    ensures r.Err? <==> Truthy(contentId) && contentId.value.U32?
    ensures r.Err? ==> r.error == StartsWithOnNumber
    ensures r == Ok(None) <==> !Truthy(contentId)
    ensures Truthy(contentId) && contentId.value.Str? ==>
              var t := contentId.value.text;
              && r.Ok? && r.value.Some?
              && (r.value.value == USA <==> HasPrefix(t, "UP"))
              && (r.value.value == EUR <==> HasPrefix(t, "EP"))
              && (r.value.value == JAP <==> HasPrefix(t, "JP"))
              && (r.value.value == UNK <==> !HasPrefix(t, "UP") && !HasPrefix(t, "EP") && !HasPrefix(t, "JP"))
  {
    if !Truthy(contentId) then Ok(None)
    else match contentId.value
      case U32(_) => Err(StartsWithOnNumber)
      case Str(t) =>
        if HasPrefix(t, "UP") then Ok(Some(USA))
        else if HasPrefix(t, "EP") then Ok(Some(EUR))
        else if HasPrefix(t, "JP") then Ok(Some(JAP))
        else Ok(Some(UNK))
  }

  /** The region depends on the first two characters of the id only. */
  lemma {:induction false} RegionFromTwoCharacters(t: string, u: string)
    requires |t| >= 2 && |u| >= 2 && t[..2] == u[..2]
    ensures DetectRegion(Some(Str(t))) == DetectRegion(Some(Str(u)))
  {
    assert forall p: string :: |p| == 2 ==> (HasPrefix(t, p) <==> HasPrefix(u, p));
  }

  lemma RegionExamples()
    ensures DetectRegion(Some(Str("UP0001"))) == Ok(Some(USA))
    ensures DetectRegion(Some(Str("EP0001"))) == Ok(Some(EUR))
    ensures DetectRegion(Some(Str("JP0001"))) == Ok(Some(JAP))
    ensures DetectRegion(Some(Str("XX0001"))) == Ok(Some(UNK))
    ensures DetectRegion(Some(Str(""))) == Ok(None)
    ensures DetectRegion(None) == Ok(None)
    ensures DetectRegion(Some(U32(0))) == Ok(None)
    ensures DetectRegion(Some(U32(7))) == Err(StartsWithOnNumber)
  {
    assert "UP0001"[..2] == "UP";
    assert "EP0001"[..2] == "EP";
    assert "JP0001"[..2] == "JP";
    assert "XX0001"[..2] == "XX";
  }

  // ---------------------------------------------------------------------------
  // readPkgMetadata: the `-(CUSA\d+)` capture
  // ---------------------------------------------------------------------------

  const CusaTag: string := "-CUSA"

  /** The pattern `-CUSA\d` starts at `j`. */
  predicate MatchAt(s: string, j: nat) {
    j + 6 <= |s| && s[j..j + 5] == CusaTag && IsDigit(s[j + 5])
  }

  /** The end of the run of digits starting at `k`. */
  function DigitRunEnd(s: string, k: nat): (e: nat)
    requires k <= |s|
    ensures k <= e <= |s|
    ensures forall m :: k <= m < e ==> IsDigit(s[m])
    ensures e < |s| ==> !IsDigit(s[e])
    decreases |s| - k
  {
    if k == |s| || !IsDigit(s[k]) then k else DigitRunEnd(s, k + 1)
  }

  /** The leftmost match at or after `j`. */
  function FirstMatchFrom(s: string, j: nat): (r: Option<nat>)
    ensures r.Some? ==> j <= r.value && MatchAt(s, r.value)
    ensures r.Some? ==> forall m :: j <= m < r.value ==> !MatchAt(s, m)
    ensures r.None? ==> forall m :: j <= m ==> !MatchAt(s, m)
    decreases |s| - j
  {
    if j + 6 > |s| then None
    else if MatchAt(s, j) then Some(j)
    else FirstMatchFrom(s, j + 1)
  }

  /** `s.match(/-(CUSA\d+)/)[1]`: at the leftmost match, `CUSA` and the
      whole digit run that follows (the `+` is greedy). */
  function CusaCapture(s: string): (r: Option<string>)
    ensures r.None? <==> forall j :: 0 <= j ==> !MatchAt(s, j)
    ensures r.Some? ==>
              && HasPrefix(r.value, "CUSA") && |r.value| >= 5
              && (forall m :: 4 <= m < |r.value| ==> IsDigit(r.value[m]))
              && exists j: nat ::
                   && MatchAt(s, j)
                   && (forall m :: 0 <= m < j ==> !MatchAt(s, m))
                   && j + 1 + |r.value| <= |s|
                   && s[j + 1..j + 1 + |r.value|] == r.value
                   && (j + 1 + |r.value| == |s| || !IsDigit(s[j + 1 + |r.value|]))
  {
    match FirstMatchFrom(s, 0)
    case None => None
    case Some(j) =>
      CaptureAt(s, j);
      Some(s[j + 1..DigitRunEnd(s, j + 5)])
  }

  /** The text a match at `j` captures: `CUSA` and the digit run after it,
      ended by the end of the string or a non-digit. */
  lemma CaptureAt(s: string, j: nat)
    requires MatchAt(s, j)
    ensures var e := DigitRunEnd(s, j + 5);
            var t := s[j + 1..e];
            && e > j + 5 && HasPrefix(t, "CUSA") && |t| >= 5
            && (forall m :: 4 <= m < |t| ==> IsDigit(t[m]))
            && j + 1 + |t| == e && (e == |s| || !IsDigit(s[e]))
  {
    var e := DigitRunEnd(s, j + 5);
    assert IsDigit(s[j + 5]);
    var t := s[j + 1..e];
    assert forall m :: 0 <= m < |t| ==> t[m] == s[j + 1 + m];
    assert t[..4] == s[j + 1..j + 5];
    MatchAtCusa(s, j);
  }

  /** A match is followed by the four letters `CUSA`. */
  lemma MatchAtCusa(s: string, j: nat)
    requires MatchAt(s, j)
    ensures s[j + 1..j + 5] == "CUSA"
  {
    assert s[j + 1..j + 5] == s[j..j + 5][1..];
    assert CusaTag[1..] == "CUSA" by {
      assert forall i :: 0 <= i < 4 ==> CusaTag[1..][i] == "CUSA"[i];
    }
  }

  /** The digit run starting at `k` ends at any `e` with only digits before
      it and no digit at it. */
  lemma DigitRunEndAt(s: string, k: nat, e: nat)
    requires k <= e <= |s|
    requires forall m :: k <= m < e ==> IsDigit(s[m])
    requires e == |s| || !IsDigit(s[e])
    ensures DigitRunEnd(s, k) == e
  {
    var r := DigitRunEnd(s, k);
    assert r <= e;
    assert e <= r;
  }

  /** The capture is determined: any text of the shape the pattern accepts
      at the leftmost match is the capture. */
  lemma {:induction false} CusaCaptureUnique(s: string, j: nat, t: string)
    requires MatchAt(s, j) && forall m :: 0 <= m < j ==> !MatchAt(s, m)
    requires HasPrefix(t, "CUSA") && forall m :: 4 <= m < |t| ==> IsDigit(t[m])
    requires j + 1 + |t| <= |s| && s[j + 1..j + 1 + |t|] == t
    requires j + 1 + |t| == |s| || !IsDigit(s[j + 1 + |t|])
    ensures CusaCapture(s) == Some(t)
  {
    var f := FirstMatchFrom(s, 0);
    assert f.Some?;
    assert f.value <= j;
    assert f.value >= j;
    var e := j + 1 + |t|;
    assert forall m :: j + 5 <= m < e ==> s[m] == t[m - j - 1];
    assert |t| >= 5 by {
      assert s[j + 5] == t[4];
    }
    DigitRunEndAt(s, j + 5, e);
  }

  lemma CusaExample()
    ensures CusaCapture("UP1234-CUSA05678_00") == Some("CUSA05678")
  {
    var s := "UP1234-CUSA05678_00";
    CusaExampleSlices();
    assert MatchAt(s, 6);
    forall m | 0 <= m < 6 ensures !MatchAt(s, m) {
      assert s[m] != '-';
      assert s[m..m + 5][0] == s[m];
    }
    CusaCaptureUnique(s, 6, "CUSA05678");
  }

  /** The tag and the capture inside the example identifier. */
  lemma CusaExampleSlices()
    ensures "UP1234-CUSA05678_00"[6..11] == CusaTag
    ensures "UP1234-CUSA05678_00"[7..16] == "CUSA05678"
  {
    var s := "UP1234-CUSA05678_00";
    assert s[6..11] == CusaTag by {
      assert forall i :: 0 <= i < 5 ==> s[6..11][i] == CusaTag[i];
    }
    assert s[7..16] == "CUSA05678" by {
      assert forall i :: 0 <= i < 9 ==> s[7..16][i] == "CUSA05678"[i];
    }
  }

  /** Header bytes 0x30..0x50 of the first 2 KiB as text, NULs removed. */
  function ContentIdText(data: seq<byte>): string {
    StripNul(Decode(ReadBytes(data, 0, HeaderPrefixSize)[ContentIdStart..ContentIdEnd]))
  }

  /** `readPkgMetadata(pkgPath)`: `CUSA` and at least one digit, at most
      31 characters since the field is 32 bytes and the `-` is not kept;
      `null` exactly when the field holds no `-CUSA<digit>`. */
  function HeaderTitleId(data: seq<byte>): (r: Option<string>)
    ensures r.None? <==> forall j :: 0 <= j ==> !MatchAt(ContentIdText(data), j)
    ensures r.Some? ==>
              && HasPrefix(r.value, "CUSA") && 5 <= |r.value| <= ContentIdEnd - ContentIdStart - 1
              && forall m :: 4 <= m < |r.value| ==> IsDigit(r.value[m])
  {
    CusaCapture(ContentIdText(data))
  }

  /** Only the content-id field matters: two files that agree on bytes
      0x30..0x50 (zero past the end of a short file) give the same id. */
  lemma HeaderTitleIdLocal(a: seq<byte>, b: seq<byte>)
    requires ReadBytes(a, ContentIdStart, ContentIdEnd - ContentIdStart)
             == ReadBytes(b, ContentIdStart, ContentIdEnd - ContentIdStart)
    ensures HeaderTitleId(a) == HeaderTitleId(b)
  {
    var n := ContentIdEnd - ContentIdStart;
    var fa := ReadBytes(a, 0, HeaderPrefixSize)[ContentIdStart..ContentIdEnd];
    var fb := ReadBytes(b, 0, HeaderPrefixSize)[ContentIdStart..ContentIdEnd];
    assert forall k :: 0 <= k < n ==> fa[k] == ReadBytes(a, ContentIdStart, n)[k];
    assert forall k :: 0 <= k < n ==> fb[k] == ReadBytes(b, ContentIdStart, n)[k];
    assert fa == fb;
  }

  /** A header whose content-id field holds `t` padded with NUL bytes reads
      back as `t`. */
  lemma {:induction false} ContentIdOfHeader(data: seq<byte>, t: string)
    requires NulFreeText(t) && |t| <= ContentIdEnd - ContentIdStart
    requires ContentIdEnd <= |data|
    requires data[ContentIdStart..ContentIdStart + |t|] == Encode(t)
    requires forall k :: ContentIdStart + |t| <= k < ContentIdEnd ==> data[k] == 0
    ensures ContentIdText(data) == t
  {
    var field := ReadBytes(data, 0, HeaderPrefixSize)[ContentIdStart..ContentIdEnd];
    var n := |t|;
    assert field == data[ContentIdStart..ContentIdEnd];
    var text := Decode(field);
    assert text[..n] == t by {
      assert forall k :: 0 <= k < n ==> field[k] == Encode(t)[k];
      assert Decode(Encode(t)) == t;
    }
    assert forall k :: n <= k < |text| ==> text[k] == '\0';
    StripNulPadding(text, n);
  }

  /** Stripping NULs from NUL-free text followed by NULs leaves the text. */
  lemma {:induction false} StripNulPadding(s: string, n: nat)
    requires n <= |s|
    requires forall k :: 0 <= k < n ==> s[k] != '\0'
    requires forall k :: n <= k < |s| ==> s[k] == '\0'
    ensures StripNul(s) == s[..n]
    decreases |s|
  {
    if |s| > 0 {
      if n == 0 {
        assert s[0] == '\0';
        StripNulPadding(s[1..], 0);
      } else {
        StripNulPadding(s[1..], n - 1);
        assert s[..n] == [s[0]] + s[1..][..n - 1];
      }
    }
  }

  /** The fallback takes the `CUSA` id out of a content id written into the
      header: `UP1234-CUSA05678_00` gives `CUSA05678`. */
  lemma HeaderFallbackExample(data: seq<byte>)
    requires ContentIdEnd <= |data|
    requires data[ContentIdStart..ContentIdStart + 19] == Encode("UP1234-CUSA05678_00")
    requires forall k :: ContentIdStart + 19 <= k < ContentIdEnd ==> data[k] == 0
    ensures HeaderTitleId(data) == Some("CUSA05678")
  {
    ContentIdOfHeader(data, "UP1234-CUSA05678_00");
    CusaExample();
  }

  /** `details.TITLE_ID` after the fallback of `processPKG`: the header id
      replaces it only when the table's title id is falsy and its content id
      truthy; a failed match sets it to `null`. */
  function ResolveTitleId(details: map<string, SfoValue>, data: seq<byte>): (r: Option<SfoValue>)
    ensures Truthy(Lookup(details, "TITLE_ID")) || !Truthy(Lookup(details, "CONTENT_ID"))
            ==> r == Lookup(details, "TITLE_ID")
    ensures Truthy(r) && !Truthy(Lookup(details, "TITLE_ID")) ==>
              && Truthy(Lookup(details, "CONTENT_ID"))
              && HeaderTitleId(data).Some? && r == Some(Str(HeaderTitleId(data).value))
  {
    var tid := Lookup(details, "TITLE_ID");
    if !Truthy(tid) && Truthy(Lookup(details, "CONTENT_ID")) then
      match HeaderTitleId(data)
      case Some(t) => Some(Str(t))
      case None => None
    else tid
  }

  /** A fallback that finds an id always yields a truthy title id. */
  lemma {:induction false} FallbackIsTruthy(details: map<string, SfoValue>, data: seq<byte>)
    requires !Truthy(Lookup(details, "TITLE_ID")) && Truthy(Lookup(details, "CONTENT_ID"))
    ensures Truthy(ResolveTitleId(details, data)) <==> HeaderTitleId(data).Some?
  {
    match HeaderTitleId(data)
    case Some(t) =>
      assert HasPrefix(t, "CUSA");
    case None =>
  }

  // ---------------------------------------------------------------------------
  // getFormattedDate
  // ---------------------------------------------------------------------------

  /** The local calendar date of the file's birth time; `month0` is
      `getMonth()`, counted from 0. */
  datatype BirthDate = BirthDate(month0: nat, day: nat, year: nat)

  /** `("0" + n).slice(-2)`. */
  function Pad2(n: nat): (s: string)
    ensures |s| == 2
  {
    var t := "0" + NatToDecimal(n);
    t[|t| - 2..]
  }

  /** The last digit of the decimal text is the number's last digit. */
  lemma LastDigit(n: nat)
    ensures var d := NatToDecimal(n); DigitValue(d[|d| - 1]) == n % 10
  {
  }

  /** A two-digit run read back as a number. */
  lemma TwoDigitValue(t: string)
    requires |t| == 2 && IsDigit(t[0]) && IsDigit(t[1])
    ensures DecimalValue(t) == 10 * DigitValue(t[0]) + DigitValue(t[1])
  {
    var h := t[..1];
    assert t[..|t| - 1] == h && h[..0] == [] && h[0] == t[0];
    assert DecimalValue(h) == DigitValue(t[0]);
  }

  /** `slice(-2)` keeps the last two digits: any number comes out as two
      digits whose value is the number modulo 100 (a one-digit number gets
      its leading zero, a three-digit one loses its first digit). */
  lemma {:induction false} Pad2Value(n: nat)
    ensures IsDigit(Pad2(n)[0]) && IsDigit(Pad2(n)[1])
    ensures 10 * DigitValue(Pad2(n)[0]) + DigitValue(Pad2(n)[1]) == n % 100
  {
    var d := NatToDecimal(n);
    LastDigit(n);
    if n < 10 {
      assert Pad2(n) == ['0'] + d;
    } else {
      var e := NatToDecimal(n / 10);
      LastDigit(n / 10);
      Pad2Chars(n);
      Mod100Split(n);
    }
  }

  /** From ten on, the two characters of `Pad2` are the last digits of
      `n / 10` and of `n`. */
  lemma Pad2Chars(n: nat)
    requires n >= 10
    ensures var d, e := NatToDecimal(n), NatToDecimal(n / 10); Pad2(n) == [e[|e| - 1], d[|d| - 1]]
  {
    var d, e := NatToDecimal(n), NatToDecimal(n / 10);
    assert d == e + [d[|d| - 1]];
    var t := "0" + d;
    assert t[|t| - 2] == e[|e| - 1];
    assert t[|t| - 1] == d[|d| - 1];
  }

  /** The value of the last two decimal digits. */
  lemma Mod100Split(n: nat)
    ensures n % 100 == 10 * ((n / 10) % 10) + n % 10
  {
    var a, b := n / 10, n % 10;
    var q, c := a / 10, a % 10;
    assert n == 10 * a + b;
    assert a == 10 * q + c;
    assert n == 100 * q + (10 * c + b);
    Mod100Of(n, q, 10 * c + b);
  }

  lemma Mod100Of(n: nat, q: nat, r: nat)
    requires n == 100 * q + r && r < 100
    ensures n % 100 == r
  {
  }

  predicate AllDigits(t: string) {
    forall i :: 0 <= i < |t| ==> IsDigit(t[i])
  }

  /** `Pad2` read back as a number. */
  lemma Pad2ReadsBack(n: nat)
    ensures AllDigits(Pad2(n)) && DecimalValue(Pad2(n)) == n % 100
  {
    var p := Pad2(n);
    Pad2Value(n);
    assert IsDigit(p[0]) && IsDigit(p[1]);
    TwoDigitValue(p);
    assert AllDigits(p);
  }

  /** `MM-DD-YYYY`: month (from 1) and day padded to two digits. */
  function FormattedDate(b: BirthDate): (s: string)
    ensures |s| >= 7 && s[2] == '-' && s[5] == '-'
    ensures s[..2] == Pad2(b.month0 + 1) && s[3..5] == Pad2(b.day)
    ensures s[6..] == NatToDecimal(b.year)
  {
    var mm, dd, yyyy := Pad2(b.month0 + 1), Pad2(b.day), NatToDecimal(b.year);
    DashJoin(mm, dd, yyyy);
    mm + "-" + dd + "-" + yyyy
  }

  /** Two two-character fields and a tail joined with dashes split back at
      fixed positions. */
  lemma DashJoin(a: string, b: string, c: string)
    requires |a| == 2 && |b| == 2
    ensures var s := a + "-" + b + "-" + c;
            && |s| == 6 + |c| && s[2] == '-' && s[5] == '-'
            && s[..2] == a && s[3..5] == b && s[6..] == c
  {
    var s := a + "-" + b + "-" + c;
    assert s[..2] == a;
    assert s[3..5] == b;
    assert s[6..] == c;
  }

  /** The date text reads back: two digits of the one-based month, a dash,
      two digits of the day, a dash, and the year in full without leading
      zeros; month and day are kept modulo 100, which is exact for every
      calendar date. */
  lemma {:induction false} FormattedDateReadsBack(b: BirthDate)
    ensures var s := FormattedDate(b);
            && |s| >= 7 && s[2] == '-' && s[5] == '-'
            && AllDigits(s[..2]) && DecimalValue(s[..2]) == (b.month0 + 1) % 100
            && AllDigits(s[3..5]) && DecimalValue(s[3..5]) == b.day % 100
            && AllDigits(s[6..]) && DecimalValue(s[6..]) == b.year
            && (|s| > 7 ==> s[6] != '0')
  {
    var s := FormattedDate(b);
    Pad2ReadsBack(b.month0 + 1);
    Pad2ReadsBack(b.day);
    DecimalRoundTrip(b.year);
    assert s[..2] == Pad2(b.month0 + 1) && s[3..5] == Pad2(b.day) && s[6..] == NatToDecimal(b.year);
  }
}
