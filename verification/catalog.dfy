/** The persisted side of a scan: one catalog document per category
    (`json/<folder>.json`, holding `{ DATA: { <key>: record } }`) and the
    cover files (`data/covers/<title id>.png`). A scan is described by the
    log of writes it performs, in order; `ApplyAll` replays a log on a
    store. */
module Catalog {
  import opened Wrappers
  import opened Bytes
  import opened Sfo
  import opened Metadata

  /** One entry of a catalog's `DATA` object, as `generateJSON` builds it.
      `titleId`, `name` and `version` keep the table value they came from, so
      a number stays a number. */
  datatype GameRecord = GameRecord(
    region: Option<Region>,
    titleId: SfoValue,
    name: SfoValue,
    version: SfoValue,
    release: string,
    size: string,
    minFw: Option<string>,
    coverUrl: string)

  /** The `DATA` object of one catalog document. */
  type Catalog = map<string, GameRecord>

  /** Catalog documents by category folder, and cover files by file name. */
  datatype Store = Store(catalogs: map<string, Catalog>, covers: map<string, seq<byte>>)

  const EmptyStore: Store := Store(map[], map[])

  /** The writes a scan performs. */
  datatype Write =
    | ResetCatalog(folder: string)                         // `{ DATA: {} }` written over `<folder>.json`
    | PutCover(file: string, image: seq<byte>)             // `writeFileSync` of a cover window
    | Upsert(folder: string, key: string, rec: GameRecord) // `generateJSON`

  /** The `DATA` object `generateJSON` starts from: the document on disk,
      or `{ DATA: {} }` when there is none. */
  function CatalogOf(s: Store, folder: string): Catalog {
    if folder in s.catalogs then s.catalogs[folder] else map[]
  }

  /** `generateJSON(folder, details)`: read the document, set one key of
      `DATA`, write the document back. */
  function UpsertRecord(s: Store, folder: string, key: string, rec: GameRecord): (r: Store)
    ensures r.covers == s.covers
    ensures r.catalogs.Keys == s.catalogs.Keys + {folder}
    ensures r.catalogs[folder].Keys == CatalogOf(s, folder).Keys + {key}
    ensures r.catalogs[folder][key] == rec
    ensures forall k :: k in CatalogOf(s, folder) && k != key ==> r.catalogs[folder][k] == CatalogOf(s, folder)[k]
    ensures forall f :: f in s.catalogs && f != folder ==> r.catalogs[f] == s.catalogs[f]
  {
    s.(catalogs := s.catalogs[folder := CatalogOf(s, folder)[key := rec]])
  }

  function Apply(s: Store, w: Write): Store {
    match w
    case ResetCatalog(f) => s.(catalogs := s.catalogs[f := map[]])
    case PutCover(n, img) => s.(covers := s.covers[n := img])
    case Upsert(f, k, rec) => UpsertRecord(s, f, k, rec)
  }

  /** The store after the writes of `log`, in order. */
  function ApplyAll(s: Store, log: seq<Write>): Store
    decreases |log|
  {
    if |log| == 0 then s else Apply(ApplyAll(s, log[..|log| - 1]), log[|log| - 1])
  }

  /** Every upsert into a catalog comes after a reset of that catalog. */
  predicate ResetFirst(log: seq<Write>) {
    forall i :: 0 <= i < |log| && log[i].Upsert? ==>
      exists j :: 0 <= j < i && log[j] == ResetCatalog(log[i].folder)
  }

  /** The files and documents written by `e` laid over those of `s`. */
  function Overlay(s: Store, e: Store): Store {
    Store(s.catalogs + e.catalogs, s.covers + e.covers)
  }

  lemma ResetFirstPrefix(log: seq<Write>, n: nat)
    requires ResetFirst(log) && n <= |log|
    ensures ResetFirst(log[..n])
  {
    forall i | 0 <= i < n && log[..n][i].Upsert?
      ensures exists j :: 0 <= j < i && log[..n][j] == ResetCatalog(log[..n][i].folder)
    {
      var j :| 0 <= j < i && log[j] == ResetCatalog(log[i].folder);
      assert log[..n][j] == log[j];
    }
  }

  /** A catalog reset by the log is present in the store the log builds
      from nothing. */
  lemma {:induction false} ResetCatalogPresent(log: seq<Write>, j: nat)
    requires j < |log| && log[j].ResetCatalog?
    ensures log[j].folder in ApplyAll(EmptyStore, log).catalogs
    decreases |log|
  {
    var n := |log| - 1;
    if j < n {
      assert log[..n][j] == log[j];
      ResetCatalogPresent(log[..n], j);
    }
  }

  lemma OverlayReset(s: Store, e: Store, f: string)
    ensures Apply(Overlay(s, e), ResetCatalog(f)) == Overlay(s, Apply(e, ResetCatalog(f)))
  {
    assert (s.catalogs + e.catalogs)[f := map[]] == s.catalogs + e.catalogs[f := map[]];
  }

  lemma OverlayCover(s: Store, e: Store, n: string, img: seq<byte>)
    ensures Apply(Overlay(s, e), PutCover(n, img)) == Overlay(s, Apply(e, PutCover(n, img)))
  {
    assert (s.covers + e.covers)[n := img] == s.covers + e.covers[n := img];
  }

  lemma OverlayUpsert(s: Store, e: Store, f: string, k: string, rec: GameRecord)
    requires f in e.catalogs
    ensures Apply(Overlay(s, e), Upsert(f, k, rec)) == Overlay(s, Apply(e, Upsert(f, k, rec)))
  {
    var m := e.catalogs[f][k := rec];
    assert CatalogOf(Overlay(s, e), f) == e.catalogs[f];
    assert (s.catalogs + e.catalogs)[f := m] == s.catalogs + e.catalogs[f := m];
  }

  /** Rebuild: a reset-first log leaves every catalog it touches exactly as
      it would build them from an empty store; everything else is kept. */
  lemma {:induction false} Rebuild(s: Store, log: seq<Write>)
    requires ResetFirst(log)
    ensures ApplyAll(s, log) == Overlay(s, ApplyAll(EmptyStore, log))
    decreases |log|
  {
    if |log| == 0 {
      assert Overlay(s, EmptyStore) == s;
    } else {
      var n := |log| - 1;
      var pre := log[..n];
      ResetFirstPrefix(log, n);
      Rebuild(s, pre);
      var e := ApplyAll(EmptyStore, pre);
      match log[n]
      case ResetCatalog(f) =>
        OverlayReset(s, e, f);
      case PutCover(nm, img) =>
        OverlayCover(s, e, nm, img);
      case Upsert(f, k, rec) =>
        var j :| 0 <= j < n && log[j] == ResetCatalog(f);
        assert pre[j] == log[j];
        ResetCatalogPresent(pre, j);
        OverlayUpsert(s, e, f, k, rec);
    }
  }

  /** Replaying a reset-first log a second time changes nothing. */
  lemma {:induction false} ReplayIdempotent(s: Store, log: seq<Write>)
    requires ResetFirst(log)
    ensures ApplyAll(ApplyAll(s, log), log) == ApplyAll(s, log)
  {
    var e := ApplyAll(EmptyStore, log);
    Rebuild(s, log);
    Rebuild(ApplyAll(s, log), log);
    assert Overlay(Overlay(s, e), e) == Overlay(s, e);
  }

  /** The catalogs a reset-first log ends with do not depend on the
      catalogs it starts from, as long as the log resets every catalog
      present in them. */
  lemma {:induction false} ReplayForgetsPriorCatalogs(s: Store, t: Store, log: seq<Write>)
    requires ResetFirst(log)
    requires s.catalogs.Keys <= ApplyAll(EmptyStore, log).catalogs.Keys
    requires t.catalogs.Keys <= ApplyAll(EmptyStore, log).catalogs.Keys
    ensures ApplyAll(s, log).catalogs == ApplyAll(t, log).catalogs
  {
    var e := ApplyAll(EmptyStore, log);
    Rebuild(s, log);
    Rebuild(t, log);
    assert s.catalogs + e.catalogs == e.catalogs;
    assert t.catalogs + e.catalogs == e.catalogs;
  }
}
