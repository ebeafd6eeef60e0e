/**
 * The torrent controller over an in-memory catalog: the listing filter, upload with its metadata
 * mapping and duplicate check, the lucky and top selections, and download tracking. The parsed
 * metadata of an uploaded `.torrent` file is an input; reading, parsing and deleting files is not
 * modelled beyond whether a cleanup of the uploaded file is requested.
 */
module TorrentController {
  import opened Wrappers
  import opened Text
  import opened Collections
  import opened Models

  // ----- getTorrents -----

  /** The Mongo filter `getTorrents` builds: a name pattern and a category list, each optional. */
  datatype QueryFilter = QueryFilter(name: Option<string>, categories: Option<seq<string>>)

  /**
   * The filter object of `getTorrents`, built field by field: a `name` condition only for a
   * truthy `q`, a `category` condition only for a truthy `categories`, split on `,`.
   */
  method BuildQueryFilter(q: Option<string>, categories: Option<string>) returns (f: QueryFilter)
    ensures f.name.Some? <==> Truthy(q)
    ensures f.name.Some? ==> f.name.value == q.value
    ensures f.categories.Some? <==> Truthy(categories)
    ensures f.categories.Some? ==> f.categories.value == Split(categories.value, ',')
  {
    f := QueryFilter(None, None);
    if Truthy(q) {
      f := f.(name := Some(q.value));
    }
    if Truthy(categories) {
      f := f.(categories := Some(Split(categories.value, ',')));
    }
  }

  /** `{ $regex: q, $options: 'i' }` on the name, read as a literal case-insensitive substring. */
  predicate NameMatches(t: TorrentRecord, name: Option<string>)
  {
    name.None? || ContainsIgnoreCase(t.name, name.value)
  }

  /** `{ $in: categories }` on the stored category string. */
  predicate CategoryIn(t: TorrentRecord, categories: Option<seq<string>>)
  {
    categories.None? || CategoryName(t.category) in categories.value
  }

  function MatchesFilter(f: QueryFilter): TorrentRecord -> bool
  {
    (t: TorrentRecord) => NameMatches(t, f.name) && CategoryIn(t, f.categories)
  }

  /** `Torrent.find(queryFilter)`: the matching torrents in store order, all of them. */
  function GetTorrents(torrents: seq<TorrentRecord>, f: QueryFilter): (r: seq<TorrentRecord>)
    ensures forall t :: t in r <==> t in torrents && NameMatches(t, f.name) && CategoryIn(t, f.categories)
    ensures forall t :: multiset(r)[t] == if NameMatches(t, f.name) && CategoryIn(t, f.categories) then multiset(torrents)[t] else 0
  {
    Filter(torrents, MatchesFilter(f))
  }

  /** Filtering by two conditions is filtering by one and then the other. */
  lemma {:induction false} FilterBoth<T(!new)>(s: seq<T>, p: T -> bool, q: T -> bool, pq: T -> bool)
    requires forall x :: pq(x) == (p(x) && q(x))
    ensures Filter(s, pq) == Filter(Filter(s, p), q)
    decreases |s|
  {
    if s != [] {
      FilterBoth(s[1..], p, q, pq);
      var rest := Filter(s[1..], p);
      assert Filter(s, pq) == (if pq(s[0]) then [s[0]] else []) + Filter(s[1..], pq);
      if p(s[0]) {
        assert Filter(s, p) == [s[0]] + rest;
        assert ([s[0]] + rest)[1..] == rest;
      } else {
        assert Filter(s, p) == rest;
      }
    }
  }

  /** The two conditions are conjunctive: the listing is the name search narrowed by the category list. */
  lemma FiltersAreConjunctive(torrents: seq<TorrentRecord>, f: QueryFilter)
    ensures GetTorrents(torrents, f)
         == GetTorrents(GetTorrents(torrents, QueryFilter(f.name, None)), QueryFilter(None, f.categories))
  {
    FilterBoth(torrents, MatchesFilter(QueryFilter(f.name, None)), MatchesFilter(QueryFilter(None, f.categories)),
               MatchesFilter(f));
  }

  /** Without `q` and `categories` every torrent is listed. */
  lemma EmptyQueryListsEverything(torrents: seq<TorrentRecord>)
    ensures GetTorrents(torrents, QueryFilter(None, None)) == torrents
  {
    FilterKeepsAll(torrents, MatchesFilter(QueryFilter(None, None)));
  }

  // ----- uploadTorrent -----

  /** One entry of `parsed.files`. */
  datatype ParsedFile = ParsedFile(path: string, length: nat)

  /** What `parseTorrent` returns that the upload reads: `files` and `length` may be absent. */
  datatype ParsedTorrent = ParsedTorrent(name: string, infoHash: string, length: Option<nat>,
                                         files: Option<seq<ParsedFile>>)

  /** `parsed.length || 0`. */
  function TotalSize(p: ParsedTorrent): nat
  {
    if p.length.Some? then p.length.value else 0
  }

  /** `parsed.files ? parsed.files.map(f => ({ path: f.path, size: f.length })) : [{ path: name, size }]`;
      an empty `files` array is truthy and maps to an empty list. */
  function FileList(p: ParsedTorrent): (r: seq<FileEntry>)
    ensures p.files.Some? ==> |r| == |p.files.value|
                               && forall k :: 0 <= k < |r| ==> r[k] == FileEntry(p.files.value[k].path, p.files.value[k].length)
    ensures p.files.None? ==> r == [FileEntry(p.name, TotalSize(p))]
  {
    if p.files.Some? then
      seq(|p.files.value|, k requires 0 <= k < |p.files.value| => FileEntry(p.files.value[k].path, p.files.value[k].length))
    else [FileEntry(p.name, TotalSize(p))]
  }

  function FileSize(): FileEntry -> nat
  {
    (e: FileEntry) => e.size
  }

  function ParsedLength(): ParsedFile -> nat
  {
    (f: ParsedFile) => f.length
  }

  /** The stored file sizes add up to what the parsed file list adds up to; for a single-file torrent
      the one entry carries the whole size. */
  lemma FileListSize(p: ParsedTorrent)
    ensures p.files.Some? ==> SumOf(FileList(p), FileSize()) == SumOf(p.files.value, ParsedLength())
    ensures p.files.None? ==> SumOf(FileList(p), FileSize()) == TotalSize(p)
  {
    if p.files.Some? {
      MappedSum(p.files.value, FileList(p));
    } else {
      assert FileList(p)[1..] == [];
    }
  }

  lemma {:induction false} MappedSum(fs: seq<ParsedFile>, es: seq<FileEntry>)
    requires |es| == |fs| && forall k :: 0 <= k < |fs| ==> es[k] == FileEntry(fs[k].path, fs[k].length)
    ensures SumOf(es, FileSize()) == SumOf(fs, ParsedLength())
    decreases |fs|
  {
    if fs != [] {
      MappedSum(fs[1..], es[1..]);
    }
  }

  /** The uploaded `.torrent` file as multer stored it. */
  datatype UploadedFile = UploadedFile(path: string)

  datatype UploadStatus = UploadCreated(torrent: TorrentRecord) | MissingTorrentFile | DuplicateTorrent | UploadServerError

  /** The new catalog, the response, and whether the uploaded `.torrent` file is deleted. */
  datatype UploadOutcome = UploadOutcome(catalog: seq<TorrentRecord>, status: UploadStatus, cleanup: bool)

  predicate HashTaken(torrents: seq<TorrentRecord>, infoHash: string)
  {
    exists k :: 0 <= k < |torrents| && torrents[k].infoHash == infoHash
  }

  /** The document `new Torrent({...})` builds: name, hash, size and files from the parsed file. */
  function UploadRecord(p: ParsedTorrent, description: string, category: Category, uploader: Id,
                        file: UploadedFile, images: seq<UploadedFile>, id: Id, now: Time): TorrentRecord
  {
    NewTorrent(id, p.name, description, category, TotalSize(p), p.infoHash, uploader, FileList(p), file.path,
               seq(|images|, k requires 0 <= k < |images| => images[k].path), now)
  }

  /**
   * `uploadTorrent`: 400 without a `.torrent` file; 500 with cleanup when it does not parse; 400
   * with cleanup when its info hash is already catalogued; 500 with cleanup when the document fails
   * validation (a missing or empty name, description or hash, or a category outside the enum);
   * otherwise 201 and exactly one new record. `parsed` is `None` when `parseTorrent` throws.
   */
  function UploadTorrent(torrents: seq<TorrentRecord>, description: Option<string>, category: Option<string>,
                         uploader: Id, file: Option<UploadedFile>, parsed: Option<ParsedTorrent>,
                         images: seq<UploadedFile>, id: Id, now: Time): (r: UploadOutcome)
    ensures r.status.MissingTorrentFile? <==> file.None?
    ensures r.status.DuplicateTorrent? <==> file.Some? && parsed.Some? && HashTaken(torrents, parsed.value.infoHash)
    ensures r.status.UploadCreated? <==>
              && file.Some? && parsed.Some? && !HashTaken(torrents, parsed.value.infoHash)
              && Present(parsed.value.name) && Present(parsed.value.infoHash) && Present(file.value.path)
              && description.Some? && Present(description.value)
              && category.Some? && ParseCategory(category.value).Some?
    ensures r.status.UploadCreated? ==>
              && r.status.torrent == UploadRecord(parsed.value, description.value, ParseCategory(category.value).value,
                                                  uploader, file.value, images, id, now)
              && r.catalog == torrents + [r.status.torrent]
    ensures !r.status.UploadCreated? ==> r.catalog == torrents
    ensures r.cleanup <==> file.Some? && !r.status.UploadCreated?
  {
    if file.None? then UploadOutcome(torrents, MissingTorrentFile, false)
    else if parsed.None? then UploadOutcome(torrents, UploadServerError, true)
    else
      var p := parsed.value;
      if HashTaken(torrents, p.infoHash) then UploadOutcome(torrents, DuplicateTorrent, true)
      else if !Present(p.name) || !Present(p.infoHash) || !Present(file.value.path)
              || description.None? || !Present(description.value)
              || category.None? || ParseCategory(category.value).None? then
        UploadOutcome(torrents, UploadServerError, true)
      else
        var t := UploadRecord(p, description.value, ParseCategory(category.value).value, uploader, file.value, images, id, now);
        UploadOutcome(torrents + [t], UploadCreated(t), false)
  }

  /** An upload keeps the catalog valid: info hashes stay unique, and, given a fresh id, so do ids. */
  lemma UploadKeepsCatalogValid(torrents: seq<TorrentRecord>, description: Option<string>, category: Option<string>,
                                uploader: Id, file: Option<UploadedFile>, parsed: Option<ParsedTorrent>,
                                images: seq<UploadedFile>, id: Id, now: Time)
    requires ValidCatalog(torrents)
    requires forall k :: 0 <= k < |torrents| ==> torrents[k].id != id
    ensures ValidCatalog(UploadTorrent(torrents, description, category, uploader, file, parsed, images, id, now).catalog)
  {
    var r := UploadTorrent(torrents, description, category, uploader, file, parsed, images, id, now);
    if r.status.UploadCreated? {
      var c := r.catalog;
      assert forall k :: 0 <= k < |torrents| ==> c[k] == torrents[k];
      assert c[|torrents|] == r.status.torrent;
    }
  }

  /** The new record starts with no seeders, leechers or downloads, and keeps the images in upload order. */
  lemma UploadedRecordDefaults(p: ParsedTorrent, description: string, category: Category, uploader: Id,
                               file: UploadedFile, images: seq<UploadedFile>, id: Id, now: Time)
    ensures var t := UploadRecord(p, description, category, uploader, file, images, id, now);
            && t.seeders == 0 && t.leechers == 0 && t.downloads == 0
            && t.name == p.name && t.infoHash == p.infoHash
            && |t.imagePaths| == |images| && forall k :: 0 <= k < |images| ==> t.imagePaths[k] == images[k].path
  {
  }

  // ----- getLuckyTorrent, getTopTorrents -----

  function Seeders(): TorrentRecord -> int
  {
    (t: TorrentRecord) => t.seeders as int
  }

  function MostSeededFirst(): TorrentRecord -> int
  {
    (t: TorrentRecord) => -(t.seeders as int)
  }

  /** The name condition of the lucky search, present only for a truthy `q`. */
  function LuckyKeyword(q: Option<string>): TorrentRecord -> bool
  {
    (t: TorrentRecord) => NameMatches(t, if Truthy(q) then Some(q.value) else None)
  }

  datatype LuckyResult = Lucky(torrent: TorrentRecord) | NoLuckyMatch

  /** `getLuckyTorrent`: a matching torrent with the most seeders; 404 exactly when nothing matches. */
  function GetLuckyTorrent(torrents: seq<TorrentRecord>, q: Option<string>): (r: LuckyResult)
    ensures r.NoLuckyMatch? <==> forall k :: 0 <= k < |torrents| ==> !LuckyKeyword(q)(torrents[k])
    ensures r.Lucky? ==> r.torrent in torrents && LuckyKeyword(q)(r.torrent)
    ensures r.Lucky? ==> forall k :: 0 <= k < |torrents| && LuckyKeyword(q)(torrents[k]) ==> torrents[k].seeders <= r.torrent.seeders
  {
    var matches := Filter(torrents, LuckyKeyword(q));
    assert forall k :: 0 <= k < |torrents| && LuckyKeyword(q)(torrents[k]) ==> torrents[k] in matches by {
      forall k | 0 <= k < |torrents| && LuckyKeyword(q)(torrents[k]) ensures torrents[k] in matches {
        assert torrents[k] in torrents;
      }
    }
    match MaxBy(matches, Seeders())
    case None => NoLuckyMatch
    case Some(t) =>
      assert forall u :: u in matches ==> Seeders()(u) <= Seeders()(t);
      Lucky(t)
  }

  const TopLimit: nat := 100

  /** `{ category }` for a truthy `category` parameter, compared with the stored name exactly. */
  function TopFilter(category: Option<string>): TorrentRecord -> bool
  {
    (t: TorrentRecord) => !Truthy(category) || CategoryName(t.category) == category.value
  }

  /** The matching torrents in the order `.sort({ seeders: -1 })` lists them. */
  function BySeeders(torrents: seq<TorrentRecord>, category: Option<string>): (r: seq<TorrentRecord>)
    ensures multiset(r) == multiset(Filter(torrents, TopFilter(category)))
    ensures |r| == |Filter(torrents, TopFilter(category))|
    ensures forall i, j :: 0 <= i < j < |r| ==> r[i].seeders >= r[j].seeders
    ensures forall k :: 0 <= k < |r| ==> TopFilter(category)(r[k])
  {
    var sorted := SortBy(Filter(torrents, TopFilter(category)), MostSeededFirst());
    assert forall i, j :: 0 <= i < j < |sorted| ==> MostSeededFirst()(sorted[i]) <= MostSeededFirst()(sorted[j]);
    SortedAllSatisfy(Filter(torrents, TopFilter(category)), MostSeededFirst(), TopFilter(category));
    sorted
  }

  /**
   * `getTopTorrents`: at most 100 matching torrents, most seeded first; every match left out has
   * no more seeders than any listed one.
   */
  function GetTopTorrents(torrents: seq<TorrentRecord>, category: Option<string>): (r: seq<TorrentRecord>)
    ensures var all := BySeeders(torrents, category);
            && |r| == (if |all| <= TopLimit then |all| else TopLimit)
            && r == all[..|r|]
            && (forall i, j :: 0 <= i < |r| && |r| <= j < |all| ==> r[i].seeders >= all[j].seeders)
    ensures forall k :: 0 <= k < |r| ==> TopFilter(category)(r[k])
    ensures forall i, j :: 0 <= i < j < |r| ==> r[i].seeders >= r[j].seeders
  {
    var all := BySeeders(torrents, category);
    var n := if |all| <= TopLimit then |all| else TopLimit;
    TopOfDescending(all, n, TopFilter(category));
    all[..n]
  }

  /** A prefix of a list in descending order of seeders is itself descending, and outranks the rest. */
  lemma TopOfDescending(all: seq<TorrentRecord>, n: nat, p: TorrentRecord -> bool)
    requires n <= |all|
    requires forall i, j :: 0 <= i < j < |all| ==> all[i].seeders >= all[j].seeders
    requires forall k :: 0 <= k < |all| ==> p(all[k])
    ensures forall i, j :: 0 <= i < j < n ==> all[..n][i].seeders >= all[..n][j].seeders
    ensures forall i, j :: 0 <= i < n <= j < |all| ==> all[..n][i].seeders >= all[j].seeders
    ensures forall k :: 0 <= k < n ==> p(all[..n][k])
  {
    assert forall k :: 0 <= k < n ==> all[..n][k] == all[k];
  }

  /** With at most 100 matches the top list holds every one of them. */
  lemma TopListsAllWhenFew(torrents: seq<TorrentRecord>, category: Option<string>)
    requires |Filter(torrents, TopFilter(category))| <= TopLimit
    ensures multiset(GetTopTorrents(torrents, category)) == multiset(Filter(torrents, TopFilter(category)))
  {
    var all := BySeeders(torrents, category);
    assert GetTopTorrents(torrents, category) == all[..|all|];
    assert all[..|all|] == all;
  }

  // ----- trackDownload -----

  /** `$inc: { downloads: 1, leechers: 1 }`. */
  function Tracked(t: TorrentRecord): (r: TorrentRecord)
    ensures r.downloads == t.downloads + 1 && r.leechers == t.leechers + 1
    ensures r.(downloads := t.downloads, leechers := t.leechers) == t
  {
    t.(downloads := t.downloads + 1, leechers := t.leechers + 1)
  }

  /** The position `findById` finds: the first record with the id. */
  function PositionOf(torrents: seq<TorrentRecord>, id: Id): (r: Option<nat>)
    ensures r.Some? ==> r.value < |torrents| && torrents[r.value].id == id
    ensures r.Some? ==> forall k :: 0 <= k < r.value ==> torrents[k].id != id
    ensures r.None? <==> forall k :: 0 <= k < |torrents| ==> torrents[k].id != id
  {
    if torrents == [] then None
    else if torrents[0].id == id then Some(0)
    else
      var rest := PositionOf(torrents[1..], id);
      assert forall k :: 1 <= k < |torrents| ==> torrents[k] == torrents[1..][k - 1];
      if rest.None? then None else Some(rest.value + 1)
  }

  /** The catalog, as the collection that `findByIdAndUpdate` changes in place. */
  class Catalog {
    var torrents: seq<TorrentRecord>

    ghost predicate Valid()
      reads this
    {
      ValidCatalog(torrents)
    }

    constructor (initial: seq<TorrentRecord>)
      ensures torrents == initial
    {
      torrents := initial;
    }

    /**
     * `trackDownload`: the record with the id gets one more download and one more leecher;
     * every other field and every other record stays as it was. An unknown id gives 404 and no change.
     */
    method TrackDownload(id: Id) returns (found: bool)
      modifies this
      ensures found <==> exists k :: 0 <= k < |old(torrents)| && old(torrents)[k].id == id
      ensures found ==> var i := PositionOf(old(torrents), id).value;
                        torrents == old(torrents)[i := Tracked(old(torrents)[i])]
      ensures !found ==> torrents == old(torrents)
      ensures old(Valid()) ==> Valid()
    {
      var i := PositionOf(torrents, id);
      if i.None? {
        return false;
      }
      var before := torrents;
      torrents := torrents[i.value := Tracked(torrents[i.value])];
      assert forall k :: 0 <= k < |torrents| ==> torrents[k].id == before[k].id && torrents[k].infoHash == before[k].infoHash;
      found := true;
    }

    /** A successful upload, applied to the catalog. */
    method Upload(description: Option<string>, category: Option<string>, uploader: Id, file: Option<UploadedFile>,
                  parsed: Option<ParsedTorrent>, images: seq<UploadedFile>, id: Id, now: Time)
        returns (status: UploadStatus, cleanup: bool)
      requires forall k :: 0 <= k < |torrents| ==> torrents[k].id != id
      modifies this
      ensures var r := UploadTorrent(old(torrents), description, category, uploader, file, parsed, images, id, now);
              torrents == r.catalog && status == r.status && cleanup == r.cleanup
      ensures old(Valid()) ==> Valid()
    {
      var r := UploadTorrent(torrents, description, category, uploader, file, parsed, images, id, now);
      if Valid() {
        UploadKeepsCatalogValid(torrents, description, category, uploader, file, parsed, images, id, now);
      }
      torrents, status, cleanup := r.catalog, r.status, r.cleanup;
    }
  }
}
