/** `scanPackages` and `processPKG` over an abstract library tree. The tree
    is what `readdirSync` lists under `data/`, in listing order; a file
    carries its bytes and the local calendar date of its birth time. The
    scan is computed as the log of writes it performs (see `Catalog`), so
    its effect on the persisted store is `ApplyAll(store, log)`. */
module Scan {
  import opened Wrappers
  import opened Bytes
  import opened Signature
  import opened Sfo
  import opened Metadata
  import opened Catalog

  datatype PkgFile = PkgFile(data: seq<byte>, born: BirthDate)

  /** An entry of a directory listing. */
  datatype Node = File(name: string, file: PkgFile) | Dir(name: string, children: seq<Node>)

  /** The configured host and port, and `encodeURI`, whose escaping rules
      are not part of this model. */
  datatype Config = Config(host: string, port: string, encodeUri: string -> string)

  /** A file handed to `processPKG`: its path below `data/` as segments, the
      entry itself, and whether it was found at the top of its category
      (those are the ones `processedCount` counts). */
  datatype Candidate = Candidate(segments: seq<string>, node: Node, topLevel: bool)

  /** `IGNORED_DIRS`. */
  const IgnoredDirs: seq<string> := ["covers"]

  const PkgExtension: string := ".pkg"

  predicate HasSuffix(s: string, suffix: string) {
    |suffix| <= |s| && s[|s| - |suffix|..] == suffix
  }

  // ---------------------------------------------------------------------------
  // Candidate selection
  // ---------------------------------------------------------------------------

  /** A top-level `.pkg` file of a category. */
  predicate IsTopLevelPackage(e: Node) {
    e.File? && HasSuffix(e.name, PkgExtension)
  }

  /** The candidates one entry of a category contributes: a top-level file
      only when it ends in `.pkg`; a subdirectory all of its entries,
      whatever their name or kind. */
  function EntryCandidates(folder: string, e: Node): (cs: seq<Candidate>)
    ensures forall c :: c in cs <==>
              || (IsTopLevelPackage(e) && c == Candidate([folder, e.name], e, true))
              || (e.Dir? && (exists k :: 0 <= k < |e.children| &&
                               c == Candidate([folder, e.name, e.children[k].name], e.children[k], false)))
    ensures e.Dir? ==>
              && |cs| == |e.children|
              && forall k :: 0 <= k < |e.children| ==>
                   cs[k] == Candidate([folder, e.name, e.children[k].name], e.children[k], false)
    ensures e.File? ==> |cs| <= 1
  {
    match e
    case Dir(n, kids) =>
      var cs := seq(|kids|, k requires 0 <= k < |kids| => Candidate([folder, n, kids[k].name], kids[k], false));
      assert forall k :: 0 <= k < |kids| ==> cs[k] == Candidate([folder, n, kids[k].name], kids[k], false);
      cs
    case File(n, _) => if HasSuffix(n, PkgExtension) then [Candidate([folder, n], e, true)] else []
  }

  /** The candidates of a category, entry by entry in listing order. */
  function Candidates(folder: string, entries: seq<Node>): (cs: seq<Candidate>)
    ensures forall c :: c in cs <==> exists i :: 0 <= i < |entries| && c in EntryCandidates(folder, entries[i])
    decreases |entries|
  {
    if |entries| == 0 then []
    else
      var n := |entries| - 1;
      var pre := Candidates(folder, entries[..n]);
      assert forall i :: 0 <= i < n ==> entries[..n][i] == entries[i];
      pre + EntryCandidates(folder, entries[n])
  }

  /** The candidates of a listing split at any point are those of the first
      part followed by those of the second: listing order is kept. */
  lemma {:induction false} CandidatesConcat(folder: string, a: seq<Node>, b: seq<Node>)
    ensures Candidates(folder, a + b) == Candidates(folder, a) + Candidates(folder, b)
    decreases |b|
  {
    if |b| == 0 {
      assert a + b == a;
    } else {
      var n := |b| - 1;
      ConcatInit(a, b);
      CandidatesUnfold(folder, a + b);
      CandidatesUnfold(folder, b);
      CandidatesConcat(folder, a, b[..n]);
      AppendAssoc(Candidates(folder, a), Candidates(folder, b[..n]), EntryCandidates(folder, b[n]));
    }
  }

  /** Dropping the last element of `a + b` drops the last element of `b`. */
  lemma ConcatInit<T>(a: seq<T>, b: seq<T>)
    requires |b| > 0
    ensures (a + b)[..|a + b| - 1] == a + b[..|b| - 1]
    ensures (a + b)[|a + b| - 1] == b[|b| - 1]
  {
  }

  lemma AppendAssoc<T>(x: seq<T>, y: seq<T>, z: seq<T>)
    ensures (x + y) + z == x + (y + z)
  {
  }

  lemma CandidatesUnfold(folder: string, entries: seq<Node>)
    requires |entries| > 0
    ensures Candidates(folder, entries)
            == Candidates(folder, entries[..|entries| - 1]) + EntryCandidates(folder, entries[|entries| - 1])
  {
  }

  /** A one-entry listing contributes that entry's candidates, so with
      `CandidatesConcat` the candidates are each entry's in listing order. */
  lemma CandidatesSingle(folder: string, e: Node)
    ensures Candidates(folder, [e]) == EntryCandidates(folder, e)
  {
    assert [e][..0] == [];
  }

  /** How many candidates were found at the top of their category. */
  function TopLevelCount(cs: seq<Candidate>): nat
    decreases |cs|
  {
    if |cs| == 0 then 0
    else TopLevelCount(cs[..|cs| - 1]) + (if cs[|cs| - 1].topLevel then 1 else 0)
  }

  /** How many top-level `.pkg` files a category lists. */
  function PackageFileCount(entries: seq<Node>): nat
    decreases |entries|
  {
    if |entries| == 0 then 0
    else PackageFileCount(entries[..|entries| - 1]) + (if IsTopLevelPackage(entries[|entries| - 1]) then 1 else 0)
  }

  lemma {:induction false} TopLevelCountConcat(a: seq<Candidate>, b: seq<Candidate>)
    ensures TopLevelCount(a + b) == TopLevelCount(a) + TopLevelCount(b)
    decreases |b|
  {
    if |b| > 0 {
      var n := |b| - 1;
      assert (a + b)[..|a + b| - 1] == a + b[..n];
      TopLevelCountConcat(a, b[..n]);
    } else {
      assert a + b == a;
    }
  }

  lemma {:induction false} EntryTopLevelCount(folder: string, e: Node)
    ensures TopLevelCount(EntryCandidates(folder, e)) == if IsTopLevelPackage(e) then 1 else 0
  {
    var cs := EntryCandidates(folder, e);
    if e.Dir? {
      NoTopLevel(cs);
    } else if IsTopLevelPackage(e) {
      assert cs[..0] == [];
    }
  }

  lemma {:induction false} NoTopLevel(cs: seq<Candidate>)
    requires forall i :: 0 <= i < |cs| ==> !cs[i].topLevel
    ensures TopLevelCount(cs) == 0
    decreases |cs|
  {
    if |cs| > 0 {
      NoTopLevel(cs[..|cs| - 1]);
    }
  }

  /** Exactly the top-level `.pkg` files are top-level candidates. */
  lemma {:induction false} TopLevelCandidatesArePackageFiles(folder: string, entries: seq<Node>)
    ensures TopLevelCount(Candidates(folder, entries)) == PackageFileCount(entries)
    decreases |entries|
  {
    if |entries| > 0 {
      var n := |entries| - 1;
      TopLevelCandidatesArePackageFiles(folder, entries[..n]);
      TopLevelCountConcat(Candidates(folder, entries[..n]), EntryCandidates(folder, entries[n]));
      EntryTopLevelCount(folder, entries[n]);
    }
  }

  /** The category directories: directory entries of `data/` not named in
      `IGNORED_DIRS`, in listing order. */
  function Categories(root: seq<Node>): (cats: seq<Node>)
    ensures forall c :: c in cats <==> c in root && c.Dir? && c.name !in IgnoredDirs
    ensures forall i :: 0 <= i < |cats| ==> cats[i].Dir?
    decreases |root|
  {
    if |root| == 0 then []
    else
      var n := |root| - 1;
      var pre := Categories(root[..n]);
      assert forall c :: c in root <==> c in root[..n] || c == root[n];
      if root[n].Dir? && root[n].name !in IgnoredDirs then pre + [root[n]] else pre
  }

  /** The categories of a listing split at any point are those of the
      first part followed by those of the second. */
  lemma {:induction false} CategoriesConcat(a: seq<Node>, b: seq<Node>)
    ensures Categories(a + b) == Categories(a) + Categories(b)
    decreases |b|
  {
    if |b| == 0 {
      assert a + b == a;
    } else {
      var n := |b| - 1;
      ConcatInit(a, b);
      CategoriesUnfold(a + b);
      CategoriesUnfold(b);
      CategoriesConcat(a, b[..n]);
      AppendAssoc(Categories(a), Categories(b[..n]), Categories([b[n]]));
    }
  }

  lemma CategoriesUnfold(root: seq<Node>)
    requires |root| > 0
    ensures Categories(root)
            == Categories(root[..|root| - 1]) + Categories([root[|root| - 1]])
  {
    var e := root[|root| - 1];
    assert [e][..0] == [];
  }

  /** One entry is a category exactly when it is a directory not in
      `IGNORED_DIRS`; with `CategoriesConcat` the categories are the
      listing filtered in order, duplicates kept. */
  lemma CategoriesSingle(e: Node)
    ensures Categories([e]) == if e.Dir? && e.name !in IgnoredDirs then [e] else []
  {
    assert [e][..0] == [];
  }

  // ---------------------------------------------------------------------------
  // processPKG
  // ---------------------------------------------------------------------------

  /** `pkgPath.replace(BASE_DIR, "")`: the path below `data/`, each segment
      preceded by a separator. */
  function RelativePath(segments: seq<string>): string
    decreases |segments|
  {
    if |segments| == 0 then ""
    else RelativePath(segments[..|segments| - 1]) + "/" + segments[|segments| - 1]
  }

  /** `.replace(/\\/g, "/")`. */
  function Slashes(s: string): (r: string)
    ensures |r| == |s|
    ensures forall i :: 0 <= i < |s| ==> r[i] == if s[i] == '\\' then '/' else s[i]
  {
    seq(|s|, i requires 0 <= i < |s| => if s[i] == '\\' then '/' else s[i])
  }

  /** `http://HOSTNAME:PORT`. */
  function Origin(cfg: Config): string {
    "http://" + cfg.host + ":" + cfg.port
  }

  /** The package URL `processPKG` builds before `encodeURI`. */
  function PackageUrl(cfg: Config, segments: seq<string>): (url: string)
    ensures HasPrefix(url, Origin(cfg) + "/pkg")
    ensures var tail := url[|Origin(cfg) + "/pkg"|..];
            && |tail| == |RelativePath(segments)|
            && forall i :: 0 <= i < |tail| ==> tail[i] != '\\'
    ensures var rel, k := RelativePath(segments), |Origin(cfg) + "/pkg"|;
            forall i :: 0 <= i < |rel| ==> url[k + i] == if rel[i] == '\\' then '/' else rel[i]
  {
    var head := Origin(cfg) + "/pkg";
    var url := head + Slashes(RelativePath(segments));
    assert url[..|head|] == head;
    assert url[|head|..] == Slashes(RelativePath(segments));
    url
  }

  /** The cover file name, `${titleID}.png`. */
  function CoverFile(titleId: SfoValue): string {
    Text(titleId) + ".png"
  }

  /** `http://HOSTNAME:PORT/images/${details.TITLE_ID}.png`. */
  function CoverUrl(cfg: Config, titleId: SfoValue): string {
    Origin(cfg) + "/images/" + CoverFile(titleId)
  }

  /** The record `processPKG` hands to `generateJSON`. */
  function AssembleRecord(cfg: Config, details: map<string, SfoValue>, titleId: SfoValue,
                          region: Option<Region>, f: PkgFile): (rec: GameRecord)
    ensures rec.titleId == titleId && rec.region == region
    ensures Truthy(Lookup(details, "TITLE")) ==> rec.name == details["TITLE"]
    ensures !Truthy(Lookup(details, "TITLE")) ==> rec.name == Str("Unknown")
    ensures Truthy(Lookup(details, "VERSION")) ==> rec.version == details["VERSION"]
    ensures !Truthy(Lookup(details, "VERSION")) ==> rec.version == Str("0.00")
    ensures rec.minFw.None?
    ensures rec.coverUrl == Origin(cfg) + "/images/" + Text(titleId) + ".png"
    ensures rec.release == FormattedDate(f.born)
    ensures (forall i :: 0 <= i < |rec.size| ==> IsDigit(rec.size[i])) && DecimalValue(rec.size) == |f.data|
  {
    DecimalRoundTrip(|f.data|);
    GameRecord(region, titleId,
               Or(Lookup(details, "TITLE"), Str("Unknown")),
               Or(Lookup(details, "VERSION"), Str("0.00")),
               FormattedDate(f.born), NatToDecimal(|f.data|), None, CoverUrl(cfg, titleId))
  }

  /** What one `processPKG` call writes, and the exception it throws if any. */
  datatype Step = Step(writes: seq<Write>, crash: Option<Crash>)

  /** All upserts of `ws` go into `folder`'s catalog, and none of `ws` is a
      reset. */
  predicate OnlyUpsertsInto(ws: seq<Write>, folder: string) {
    forall i :: 0 <= i < |ws| ==> !ws[i].ResetCatalog? && (ws[i].Upsert? ==> ws[i].folder == folder)
  }

  /** `extractGameImage`: the cover window is written as `<title id>.png`
      when a `PNG` marker is found, and nothing is written otherwise. */
  function CoverWrites(f: PkgFile, titleId: SfoValue): (ws: seq<Write>)
    ensures |ws| <= 1
    ensures ws == [] <==> FindSignature(f.data, PngMarker).None?
    ensures forall i :: 0 <= i < |ws| ==> ws[i].PutCover?
    ensures forall i :: 0 <= i < |ws| ==>
              && ws[i].file == Text(titleId) + ".png"
              && |ws[i].image| == CoverWindowSize && ws[i].image == ExtractImage(f.data).value
  {
    match ExtractImage(f.data)
    case Some(img) => [PutCover(CoverFile(titleId), img)]
    case None => []
  }

  /** The end of `processPKG` once the title id is known to be truthy and
      the region has been computed: the cover is written first, then a
      thrown region error ends the call, or the record is upserted under
      the encoded URL. */
  function Emit(cfg: Config, folder: string, segments: seq<string>, f: PkgFile,
                details: map<string, SfoValue>, titleId: SfoValue,
                region: Result<Option<Region>, Crash>): (st: Step)
    ensures OnlyUpsertsInto(st.writes, folder)
    ensures st.crash == if region.Err? then Some(region.error) else None
    ensures region.Err? ==> st.writes == CoverWrites(f, titleId)
  {
    var cover := CoverWrites(f, titleId);
    assert OnlyUpsertsInto(cover, folder);
    match region
    case Err(e) => Step(cover, Some(e))
    case Ok(r) =>
      var w := RecordUpsert(cfg, folder, segments, f, details, titleId, r);
      OnlyUpsertsAppend(cover, w, folder);
      Step(cover + [w], None)
  }

  lemma OnlyUpsertsAppend(ws: seq<Write>, w: Write, folder: string)
    requires OnlyUpsertsInto(ws, folder) && w.Upsert? && w.folder == folder
    ensures OnlyUpsertsInto(ws + [w], folder)
  {
    assert forall i :: 0 <= i < |ws| ==> (ws + [w])[i] == ws[i];
  }

  /** `generateJSON(folder, encodeURI(url), gameInfo)` as a write. */
  function RecordUpsert(cfg: Config, folder: string, segments: seq<string>, f: PkgFile,
                        details: map<string, SfoValue>, titleId: SfoValue, region: Option<Region>): (w: Write)
    ensures w.Upsert? && w.folder == folder
  {
    Upsert(folder, cfg.encodeUri(PackageUrl(cfg, segments)), AssembleRecord(cfg, details, titleId, region, f))
  }

  /** The upsert `Emit` performs, if any: exactly one when the region did
      not throw, keyed by the encoded package URL. */
  lemma {:induction false} EmitRecord(cfg: Config, folder: string, segments: seq<string>, f: PkgFile,
                                      details: map<string, SfoValue>, titleId: SfoValue,
                                      region: Result<Option<Region>, Crash>)
    ensures var st := Emit(cfg, folder, segments, f, details, titleId, region);
            (exists i :: 0 <= i < |st.writes| && st.writes[i].Upsert?) <==> region.Ok?
    ensures var st := Emit(cfg, folder, segments, f, details, titleId, region);
            forall i :: 0 <= i < |st.writes| && st.writes[i].Upsert? ==>
              && st.crash.None?
              && st.writes[i].key == cfg.encodeUri(PackageUrl(cfg, segments))
              && st.writes[i].rec == AssembleRecord(cfg, details, titleId, region.value, f)
  {
    var st := Emit(cfg, folder, segments, f, details, titleId, region);
    var cover := CoverWrites(f, titleId);
    assert forall i :: 0 <= i < |cover| ==> cover[i].PutCover?;
    if region.Ok? {
      var w := Upsert(folder, cfg.encodeUri(PackageUrl(cfg, segments)),
                      AssembleRecord(cfg, details, titleId, region.value, f));
      assert st.writes == cover + [w];
      assert st.writes[|cover|] == w;
      assert forall i :: 0 <= i < |st.writes| && st.writes[i].Upsert? ==> i == |cover|;
    } else {
      assert st.writes == cover;
    }
  }

  /** The part of `processPKG` after the table was read: a falsy title id
      (after the fallback) writes nothing. */
  function Publish(cfg: Config, folder: string, segments: seq<string>, f: PkgFile,
                   details: map<string, SfoValue>): (st: Step)
    ensures OnlyUpsertsInto(st.writes, folder)
    ensures st.crash.Some? ==> st.crash == Some(StartsWithOnNumber)
  {
    var titleId := ResolveTitleId(details, f.data);
    if !Truthy(titleId) then Step([], None)
    else Emit(cfg, folder, segments, f, details, titleId.value, DetectRegion(Lookup(details, "CONTENT_ID")))
  }

  /** `processPKG(folder, pkgPath)`. A directory (possible one level down,
      where nothing is filtered) or a file without a readable table yields
      `null` details, and reading `TITLE_ID` of `null` throws. */
  function ProcessPkg(cfg: Config, folder: string, c: Candidate): (st: Step)
    ensures OnlyUpsertsInto(st.writes, folder)
    ensures st.crash == Some(NullDetails) <==> c.node.Dir? || ExtractDetails(c.node.file.data).None?
    ensures st.crash == Some(NullDetails) ==> st.writes == []
  {
    match c.node
    case Dir(_, _) => Step([], Some(NullDetails))
    case File(_, f) =>
      match ExtractDetails(f.data)
      case None => Step([], Some(NullDetails))
      case Some(details) => Publish(cfg, folder, c.segments, f, details)
  }

  /** A record is written exactly when the title id is truthy after the
      fallback and the region computation does not throw; it is keyed by
      the encoded package URL and carries the table's fields with their
      defaults. A region error is thrown only for a numeric content id, and
      keeps the cover already written. */
  lemma {:induction false} PublishRecord(cfg: Config, folder: string, segments: seq<string>, f: PkgFile,
                                         details: map<string, SfoValue>)
    ensures var st := Publish(cfg, folder, segments, f, details);
            (exists i :: 0 <= i < |st.writes| && st.writes[i].Upsert?) <==>
              Truthy(ResolveTitleId(details, f.data)) && DetectRegion(Lookup(details, "CONTENT_ID")).Ok?
    ensures var st := Publish(cfg, folder, segments, f, details);
            forall i :: 0 <= i < |st.writes| && st.writes[i].Upsert? ==>
              && st.crash.None?
              && st.writes[i].key == cfg.encodeUri(PackageUrl(cfg, segments))
              && st.writes[i].rec == AssembleRecord(cfg, details, ResolveTitleId(details, f.data).value,
                                                    DetectRegion(Lookup(details, "CONTENT_ID")).value, f)
    ensures var st := Publish(cfg, folder, segments, f, details);
            st.crash.Some? ==>
              && Lookup(details, "CONTENT_ID").Some? && Lookup(details, "CONTENT_ID").value.U32?
              && st.writes == CoverWrites(f, ResolveTitleId(details, f.data).value)
  {
    var titleId := ResolveTitleId(details, f.data);
    if Truthy(titleId) {
      EmitRecord(cfg, folder, segments, f, details, titleId.value, DetectRegion(Lookup(details, "CONTENT_ID")));
    }
  }

  // ---------------------------------------------------------------------------
  // scanPackages
  // ---------------------------------------------------------------------------

  /** The writes so far, the exception that ended the scan if any, and
      `processedCount`. */
  datatype Run = Run(writes: seq<Write>, crash: Option<Crash>, processed: nat)

  /** A `forEach` over parts that each write, may throw, and may add to
      `processedCount`: the first exception ends it. */
  function Sequence(parts: seq<Run>): (r: Run)
    decreases |parts|
  {
    if |parts| == 0 then Run([], None, 0)
    else
      var n := |parts| - 1;
      var prev := Sequence(parts[..n]);
      if prev.crash.Some? then prev
      else Run(prev.writes + parts[n].writes, parts[n].crash, prev.processed + parts[n].processed)
  }

  /** The sum of the parts' counts. */
  function TotalProcessed(parts: seq<Run>): nat
    decreases |parts|
  {
    if |parts| == 0 then 0 else TotalProcessed(parts[..|parts| - 1]) + parts[|parts| - 1].processed
  }

  /** A sequence completes exactly when no part throws, and then it counts
      every part and writes every part's writes in order. */
  lemma {:induction false} SequenceCompletes(parts: seq<Run>)
    ensures Sequence(parts).crash.None? <==> forall i :: 0 <= i < |parts| ==> parts[i].crash.None?
    ensures Sequence(parts).crash.None? ==> Sequence(parts).processed == TotalProcessed(parts)
    decreases |parts|
  {
    if |parts| > 0 {
      var n := |parts| - 1;
      assert forall i :: 0 <= i < n ==> parts[..n][i] == parts[i];
      SequenceCompletes(parts[..n]);
    }
  }

  /** Once a sequence has thrown, later parts change nothing. */
  lemma {:induction false} SequenceStaysStopped(parts: seq<Run>, k: nat)
    requires k <= |parts| && Sequence(parts[..k]).crash.Some?
    ensures Sequence(parts) == Sequence(parts[..k])
    decreases |parts|
  {
    if k < |parts| {
      var n := |parts| - 1;
      assert parts[..n][..k] == parts[..k];
      SequenceStaysStopped(parts[..n], k);
    } else {
      assert parts[..k] == parts;
    }
  }

  /** The first part that throws ends the sequence with its exception, and
      nothing after it runs. */
  lemma {:induction false} SequenceStops(parts: seq<Run>, i: nat)
    requires i < |parts| && parts[i].crash.Some?
    requires forall j :: 0 <= j < i ==> parts[j].crash.None?
    ensures Sequence(parts) == Sequence(parts[..i + 1])
    ensures Sequence(parts).crash == parts[i].crash
  {
    var pre := parts[..i + 1];
    assert pre[..i] == parts[..i];
    assert forall j :: 0 <= j < i ==> parts[..i][j] == parts[j];
    SequenceCompletes(parts[..i]);
    SequenceStaysStopped(parts, i + 1);
  }

  /** When every part writes reset-first, so does the sequence. */
  lemma {:induction false} SequenceResetFirst(parts: seq<Run>)
    requires forall i :: 0 <= i < |parts| ==> ResetFirst(parts[i].writes)
    ensures ResetFirst(Sequence(parts).writes)
    decreases |parts|
  {
    if |parts| > 0 {
      var n := |parts| - 1;
      assert forall i :: 0 <= i < n ==> parts[..n][i] == parts[i];
      SequenceResetFirst(parts[..n]);
      if Sequence(parts[..n]).crash.None? {
        ResetFirstConcat(Sequence(parts[..n]).writes, parts[n].writes);
      }
    }
  }

  /** When every part only upserts into `folder`, so does the sequence. */
  lemma {:induction false} SequenceUpsertsInto(parts: seq<Run>, folder: string)
    requires forall i :: 0 <= i < |parts| ==> OnlyUpsertsInto(parts[i].writes, folder)
    ensures OnlyUpsertsInto(Sequence(parts).writes, folder)
    decreases |parts|
  {
    if |parts| > 0 {
      var n := |parts| - 1;
      assert forall i :: 0 <= i < n ==> parts[..n][i] == parts[i];
      SequenceUpsertsInto(parts[..n], folder);
    }
  }

  /** A completed sequence keeps every write of every part. */
  lemma {:induction false} SequenceKeepsWrites(parts: seq<Run>, k: nat, j: nat)
    requires k < |parts| && j < |parts[k].writes|
    requires Sequence(parts).crash.None?
    ensures exists m :: 0 <= m < |Sequence(parts).writes| && Sequence(parts).writes[m] == parts[k].writes[j]
    decreases |parts|
  {
    var n := |parts| - 1;
    var prev := Sequence(parts[..n]);
    var ws := Sequence(parts).writes;
    if k < n {
      assert parts[..n][k] == parts[k];
      SequenceKeepsWrites(parts[..n], k, j);
      var m :| 0 <= m < |prev.writes| && prev.writes[m] == parts[k].writes[j];
      assert ws[m] == prev.writes[m];
    } else {
      assert ws[|prev.writes| + j] == parts[k].writes[j];
    }
  }

  lemma {:induction false} ResetFirstConcat(a: seq<Write>, b: seq<Write>)
    requires ResetFirst(a) && ResetFirst(b)
    ensures ResetFirst(a + b)
  {
    var ab := a + b;
    forall i | 0 <= i < |ab| && ab[i].Upsert?
      ensures exists j :: 0 <= j < i && ab[j] == ResetCatalog(ab[i].folder)
    {
      if i < |a| {
        var j :| 0 <= j < i && a[j] == ResetCatalog(a[i].folder);
        assert ab[j] == a[j];
      } else {
        assert ab[i] == b[i - |a|];
        var j :| 0 <= j < i - |a| && b[j] == ResetCatalog(b[i - |a|].folder);
        assert ab[|a| + j] == b[j];
      }
    }
  }

  /** One candidate as a part: a completed top-level candidate counts. */
  function Tally(cfg: Config, folder: string, c: Candidate): Run {
    var st := ProcessPkg(cfg, folder, c);
    Run(st.writes, st.crash, if c.topLevel && st.crash.None? then 1 else 0)
  }

  function Tallies(cfg: Config, folder: string, cs: seq<Candidate>): (parts: seq<Run>)
    ensures |parts| == |cs|
    ensures forall i :: 0 <= i < |cs| ==> parts[i] == Tally(cfg, folder, cs[i])
  {
    seq(|cs|, i requires 0 <= i < |cs| => Tally(cfg, folder, cs[i]))
  }

  /** The `forEach` over a category's candidates. */
  function RunCandidates(cfg: Config, folder: string, cs: seq<Candidate>): (r: Run)
    ensures OnlyUpsertsInto(r.writes, folder)
  {
    var parts := Tallies(cfg, folder, cs);
    SequenceUpsertsInto(parts, folder);
    Sequence(parts)
  }

  /** When no candidate throws, the count is that of the top-level ones. */
  lemma {:induction false} TalliesCount(cfg: Config, folder: string, cs: seq<Candidate>)
    requires forall i :: 0 <= i < |cs| ==> ProcessPkg(cfg, folder, cs[i]).crash.None?
    ensures TotalProcessed(Tallies(cfg, folder, cs)) == TopLevelCount(cs)
    decreases |cs|
  {
    if |cs| > 0 {
      var n := |cs| - 1;
      var parts := Tallies(cfg, folder, cs);
      assert parts[..n] == Tallies(cfg, folder, cs[..n]);
      TalliesCount(cfg, folder, cs[..n]);
    }
  }

  /** A pass over a category completes exactly when no candidate throws,
      and then counts its top-level candidates. */
  lemma CandidatesComplete(cfg: Config, folder: string, cs: seq<Candidate>)
    ensures RunCandidates(cfg, folder, cs).crash.None? <==>
            forall i :: 0 <= i < |cs| ==> ProcessPkg(cfg, folder, cs[i]).crash.None?
    ensures RunCandidates(cfg, folder, cs).crash.None? ==>
            RunCandidates(cfg, folder, cs).processed == TopLevelCount(cs)
  {
    SequenceCompletes(Tallies(cfg, folder, cs));
    TalliesCrash(cfg, folder, cs);
    if RunCandidates(cfg, folder, cs).crash.None? {
      TalliesCount(cfg, folder, cs);
    }
  }

  /** The first candidate that throws ends the pass with its exception:
      nothing after it is processed. */
  lemma CrashStopsRun(cfg: Config, folder: string, cs: seq<Candidate>, i: nat)
    requires i < |cs| && ProcessPkg(cfg, folder, cs[i]).crash.Some?
    requires forall j :: 0 <= j < i ==> ProcessPkg(cfg, folder, cs[j]).crash.None?
    ensures RunCandidates(cfg, folder, cs) == RunCandidates(cfg, folder, cs[..i + 1])
    ensures RunCandidates(cfg, folder, cs).crash == ProcessPkg(cfg, folder, cs[i]).crash
  {
    var parts := Tallies(cfg, folder, cs);
    TalliesCrash(cfg, folder, cs);
    SequenceStops(parts, i);
    TalliesPrefix(cfg, folder, cs, i + 1);
  }

  /** Each part throws what its candidate's `processPKG` throws. */
  lemma TalliesCrash(cfg: Config, folder: string, cs: seq<Candidate>)
    ensures forall j :: 0 <= j < |cs| ==> Tallies(cfg, folder, cs)[j].crash == ProcessPkg(cfg, folder, cs[j]).crash
  {
  }

  /** The parts of a prefix are the prefix of the parts. */
  lemma TalliesPrefix(cfg: Config, folder: string, cs: seq<Candidate>, k: nat)
    requires k <= |cs|
    ensures Tallies(cfg, folder, cs)[..k] == Tallies(cfg, folder, cs[..k])
  {
    var parts := Tallies(cfg, folder, cs);
    assert forall j :: 0 <= j < k ==> parts[..k][j] == Tally(cfg, folder, cs[..k][j]);
  }

  /** One category: its catalog is reset to `{ DATA: {} }`, then its
      candidates are processed. */
  function RunFolder(cfg: Config, cat: Node): (r: Run)
    requires cat.Dir?
    ensures |r.writes| > 0 && r.writes[0] == ResetCatalog(cat.name)
    ensures ResetFirst(r.writes)
  {
    var inner := RunCandidates(cfg, cat.name, Candidates(cat.name, cat.children));
    var ws := [ResetCatalog(cat.name)] + inner.writes;
    assert forall i :: 1 <= i < |ws| ==> ws[i] == inner.writes[i - 1];
    Run(ws, inner.crash, inner.processed)
  }

  function Folders(cfg: Config, cats: seq<Node>): (parts: seq<Run>)
    requires forall i :: 0 <= i < |cats| ==> cats[i].Dir?
    ensures |parts| == |cats|
    ensures forall i :: 0 <= i < |cats| ==> parts[i] == RunFolder(cfg, cats[i])
  {
    seq(|cats|, i requires 0 <= i < |cats| => RunFolder(cfg, cats[i]))
  }

  /** `processedCount` at the end of a completed scan. */
  function TotalPackageFiles(cats: seq<Node>): nat
    decreases |cats|
  {
    if |cats| == 0 then 0
    else TotalPackageFiles(cats[..|cats| - 1]) + (if cats[|cats| - 1].Dir? then PackageFileCount(cats[|cats| - 1].children) else 0)
  }

  lemma {:induction false} FoldersCount(cfg: Config, cats: seq<Node>)
    requires forall i :: 0 <= i < |cats| ==> cats[i].Dir?
    requires forall i :: 0 <= i < |cats| ==> RunFolder(cfg, cats[i]).crash.None?
    ensures TotalProcessed(Folders(cfg, cats)) == TotalPackageFiles(cats)
    decreases |cats|
  {
    if |cats| > 0 {
      var n := |cats| - 1;
      var cat := cats[n];
      assert Folders(cfg, cats)[..n] == Folders(cfg, cats[..n]);
      FoldersCount(cfg, cats[..n]);
      CandidatesComplete(cfg, cat.name, Candidates(cat.name, cat.children));
      TopLevelCandidatesArePackageFiles(cat.name, cat.children);
    }
  }

  datatype Outcome = Completed(processedCount: nat) | Aborted(crash: Crash)

  datatype ScanResult = ScanResult(store: Store, outcome: Outcome)

  /** The log of `scanPackages` over the listing of `data/`: the `forEach`
      over the categories, which the first exception ends. */
  function ScanLog(cfg: Config, root: seq<Node>): (r: Run)
    ensures ResetFirst(r.writes)
  {
    var parts := Folders(cfg, Categories(root));
    SequenceResetFirst(parts);
    Sequence(parts)
  }

  /** No category's pass throws. */
  predicate AllFoldersComplete(cfg: Config, cats: seq<Node>)
    requires forall i :: 0 <= i < |cats| ==> cats[i].Dir?
  {
    forall k :: 0 <= k < |cats| ==> RunFolder(cfg, cats[k]).crash.None?
  }

  /** The scan's `forEach` completes exactly when no category's pass
      throws, and then counts the top-level `.pkg` files of every category. */
  lemma ScanLogCompletes(cfg: Config, root: seq<Node>)
    ensures ScanLog(cfg, root).crash.None? <==> AllFoldersComplete(cfg, Categories(root))
    ensures ScanLog(cfg, root).crash.None? ==> ScanLog(cfg, root).processed == TotalPackageFiles(Categories(root))
  {
    var cats := Categories(root);
    var parts := Folders(cfg, cats);
    assert ScanLog(cfg, root) == Sequence(parts);
    SequenceCompletes(parts);
    if Sequence(parts).crash.None? {
      forall k | 0 <= k < |cats| ensures RunFolder(cfg, cats[k]).crash.None? {
        assert parts[k].crash.None?;
      }
      FoldersCount(cfg, cats);
    } else {
      var k :| 0 <= k < |parts| && parts[k].crash.Some?;
      assert parts[k] == RunFolder(cfg, cats[k]);
    }
  }

  /** `scanPackages()` run on `store`: it completes exactly when no
      category's pass throws, and then reports the top-level `.pkg` files of
      all categories. */
  function ScanPackages(cfg: Config, root: seq<Node>, store: Store): (res: ScanResult)
    ensures res.outcome.Completed? <==> AllFoldersComplete(cfg, Categories(root))
    ensures res.outcome.Completed? ==> res.outcome.processedCount == TotalPackageFiles(Categories(root))
  {
    var r := ScanLog(cfg, root);
    ScanLogCompletes(cfg, root);
    if r.crash.Some? then ScanResult(ApplyAll(store, r.writes), Aborted(r.crash.value))
    else ScanResult(ApplyAll(store, r.writes), Completed(r.processed))
  }

  /** A scan rebuilds: the catalogs it touches come out as they would from
      an empty store, and every other document and file is left as it was. */
  lemma ScanRebuilds(cfg: Config, root: seq<Node>, store: Store)
    ensures ScanPackages(cfg, root, store).store
            == Overlay(store, ScanPackages(cfg, root, EmptyStore).store)
  {
    Rebuild(store, ScanLog(cfg, root).writes);
  }

  /** Scanning twice with no change to the library gives the same store and
      the same outcome as scanning once. */
  lemma ScanIdempotent(cfg: Config, root: seq<Node>, store: Store)
    ensures var once := ScanPackages(cfg, root, store);
            ScanPackages(cfg, root, once.store) == once
  {
    ReplayIdempotent(store, ScanLog(cfg, root).writes);
  }

  /** A completed scan reports the number of top-level `.pkg` files across
      the categories, and has reset the catalog of every category. */
  lemma ScanCompleted(cfg: Config, root: seq<Node>, store: Store)
    requires ScanPackages(cfg, root, store).outcome.Completed?
    ensures ScanPackages(cfg, root, store).outcome.processedCount == TotalPackageFiles(Categories(root))
    ensures forall c :: c in root && c.Dir? && c.name !in IgnoredDirs ==>
              c.name in ScanPackages(cfg, root, store).store.catalogs
  {
    forall c | c in root && c.Dir? && c.name !in IgnoredDirs
      ensures c.name in ScanPackages(cfg, root, store).store.catalogs
    {
      CategoryRebuilt(cfg, root, store, c);
    }
  }

  /** A completed scan leaves a catalog for the given category folder. */
  lemma CategoryRebuilt(cfg: Config, root: seq<Node>, store: Store, c: Node)
    requires ScanPackages(cfg, root, store).outcome.Completed?
    requires c in root && c.Dir? && c.name !in IgnoredDirs
    ensures c.name in ScanPackages(cfg, root, store).store.catalogs
  {
    var cats := Categories(root);
    var parts := Folders(cfg, cats);
    var log := ScanLog(cfg, root).writes;
    SequenceCompletes(parts);
    var k :| 0 <= k < |cats| && cats[k] == c;
    SequenceKeepsWrites(parts, k, 0);
    var j :| 0 <= j < |log| && log[j] == ResetCatalog(c.name);
    ResetCatalogPresent(log, j);
    ScanRebuilds(cfg, root, store);
  }

  /** A scan stops at the first category whose pass throws. */
  lemma ScanAborts(cfg: Config, root: seq<Node>, store: Store, k: nat)
    requires k < |Categories(root)|
    requires RunFolder(cfg, Categories(root)[k]).crash.Some?
    requires forall j :: 0 <= j < k ==> RunFolder(cfg, Categories(root)[j]).crash.None?
    ensures ScanPackages(cfg, root, store).outcome == Aborted(RunFolder(cfg, Categories(root)[k]).crash.value)
    ensures ScanLog(cfg, root) == Sequence(Folders(cfg, Categories(root)[..k + 1]))
  {
    var cats := Categories(root);
    var parts := Folders(cfg, cats);
    SequenceStops(parts, k);
    FoldersPrefix(cfg, cats, k + 1);
  }

  /** The passes over a prefix of the categories are a prefix of the passes. */
  lemma FoldersPrefix(cfg: Config, cats: seq<Node>, m: nat)
    requires forall i :: 0 <= i < |cats| ==> cats[i].Dir?
    requires m <= |cats|
    ensures Folders(cfg, cats)[..m] == Folders(cfg, cats[..m])
  {
    assert forall i :: 0 <= i < m ==> Folders(cfg, cats)[..m][i] == Folders(cfg, cats[..m])[i];
  }
}
