/**
 * The torrent details page script: the magnet link built from the info hash, the name and a fixed
 * tracker list (a magnet URI as BitTorrent BEP 9 describes it), the displayed hash and file count,
 * and the bookmark button that mirrors the logged-in user's bookmark list kept in local storage.
 */
module TorrentPage {
  import opened Wrappers
  import opened Text
  import opened Collections
  import opened Models
  import TorrentController
  import opened Uri

  // ----- The magnet link -----

  /** The public trackers every magnet link names. */
  const Trackers: seq<string> := [
    "udp://tracker.openbittorrent.com:80",
    "udp://tracker.opentrackr.org:1337/announce",
    "udp://tracker.coppersurfer.tk:6969/announce",
    "udp://9.rarbg.to:2920/announce",
    "udp://9.rarbg.me:2780/announce"
  ]

  function TrackerParams(trackers: seq<string>): (r: seq<string>)
    ensures |r| == |trackers|
    ensures forall k :: 0 <= k < |r| ==> r[k] == "tr=" + EncodeURIComponent(trackers[k])
  {
    seq(|trackers|, k requires 0 <= k < |trackers| => "tr=" + EncodeURIComponent(trackers[k]))
  }

  /** `trackers.map(t => 'tr=' + encodeURIComponent(t)).join('&')`: splitting it on `&` gives back
      one encoded `tr` parameter per tracker, in order. */
  function TrackerQuery(trackers: seq<string>): (r: string)
    ensures |trackers| >= 1 ==> Split(r, '&') == TrackerParams(trackers)
  {
    TrackerParamsHaveNoSeparator(trackers);
    if |trackers| >= 1 then SplitJoin(TrackerParams(trackers), '&'); Join(TrackerParams(trackers), '&')
    else Join(TrackerParams(trackers), '&')
  }

  const MagnetPrefix: string := "magnet:?xt=urn:btih:"

  /** `magnet:?xt=urn:btih:${infoHash}&dn=${encodeURIComponent(name)}&${trackerQueryString}`. */
  function MagnetLink(infoHash: string, name: string, trackers: seq<string>): string
  {
    MagnetPrefix + infoHash + "&" + ("dn=" + EncodeURIComponent(name)) + "&" + TrackerQuery(trackers)
  }

  lemma TrackerParamsHaveNoSeparator(trackers: seq<string>)
    ensures forall k :: 0 <= k < |trackers| ==> '&' !in TrackerParams(trackers)[k]
  {
    forall k | 0 <= k < |trackers| ensures '&' !in TrackerParams(trackers)[k] {
      NoSeparatorInEncoded(trackers[k]);
    }
  }

  /** The tracker query of the page holds one `tr` parameter per tracker: five of them. */
  lemma FiveTrackerParameters()
    ensures Split(TrackerQuery(Trackers), '&') == TrackerParams(Trackers)
    ensures |Split(TrackerQuery(Trackers), '&')| == 5
  {
    TrackerParamsHaveNoSeparator(Trackers);
    SplitJoin(TrackerParams(Trackers), '&');
  }

  lemma MagnetPrefixHasNoSeparator()
    ensures '&' !in MagnetPrefix
  {
  }

  /** Joining two leading pieces in front of a non-empty list. */
  lemma JoinTwoMore(x: string, y: string, zs: seq<string>, c: char)
    requires |zs| >= 1
    ensures Join([x, y] + zs, c) == x + [c] + y + [c] + Join(zs, c)
  {
    var all := [x, y] + zs;
    assert all[1..] == [y] + zs && ([y] + zs)[1..] == zs;
    assert Join(all, c) == x + [c] + (y + [c] + Join(zs, c));
  }

  /**
   * The magnet link's `&`-separated parameters are the exact topic `xt=urn:btih:<hash>`, the
   * display name `dn=` with the encoded name, then one `tr=` per tracker in list order.
   */
  lemma MagnetParameters(infoHash: string, name: string, trackers: seq<string>)
    requires '&' !in infoHash && |trackers| >= 1
    ensures Split(MagnetLink(infoHash, name, trackers), '&')
         == [MagnetPrefix + infoHash, "dn=" + EncodeURIComponent(name)] + TrackerParams(trackers)
  {
    var xt := MagnetPrefix + infoHash;
    var dn := "dn=" + EncodeURIComponent(name);
    var trs := TrackerParams(trackers);
    var all := [xt, dn] + trs;
    JoinTwoMore(xt, dn, trs, '&');
    assert MagnetLink(infoHash, name, trackers) == Join(all, '&');
    assert '&' !in xt by {
      MagnetPrefixHasNoSeparator();
    }
    assert '&' !in dn by {
      NoSeparatorInEncoded(name);
    }
    TrackerParamsHaveNoSeparator(trackers);
    assert forall k :: 0 <= k < |all| ==> '&' !in all[k] by {
      forall k | 0 <= k < |all| ensures '&' !in all[k] {
        if k >= 2 {
          assert all[k] == trs[k - 2];
        }
      }
    }
    SplitJoin(all, '&');
  }

  // ----- Details shown -----

  /** `infoHash.toUpperCase()`: same length, the same up to case, and no lower-case letter left. */
  function DisplayedHash(infoHash: string): (r: string)
    ensures |r| == |infoHash|
    ensures forall k :: 0 <= k < |r| ==> !('a' <= r[k] <= 'z')
    ensures ToLower(r) == ToLower(infoHash)
  {
    var r := ToUpper(infoHash);
    assert forall k :: 0 <= k < |r| ==> LowerChar(r[k]) == LowerChar(infoHash[k]);
    r
  }

  /** `torrent.files ? torrent.files.length : 0`; the file list is shown exactly when this is positive. */
  function FileCount(files: Option<seq<FileEntry>>): (r: nat)
    ensures r == 0 <==> files.None? || files.value == []
    ensures files.Some? ==> r == |files.value|
  {
    if files.Some? then |files.value| else 0
  }

  /** A single-file upload shows one file; a multi-file upload shows as many files as it lists. */
  lemma UploadedFileCount(p: TorrentController.ParsedTorrent)
    ensures FileCount(Some(TorrentController.FileList(p))) == if p.files.Some? then |p.files.value| else 1
  {
  }

  // ----- The bookmark button -----

  datatype HttpMethod = Delete | Put

  /** `bookmarkedTorrents ?? []`. */
  function Existing(bookmarks: Option<seq<Id>>): seq<Id>
  {
    if bookmarks.Some? then bookmarks.value else []
  }

  /** The bookmark button of one torrent and the logged-in user's bookmark list it updates. */
  class BookmarkButton {
    const torrentId: Id
    var bookmarks: Option<seq<Id>>
    var isBookmarked: bool

    /** The button shows whether the list holds the torrent. */
    ghost predicate Valid()
      reads this
    {
      isBookmarked <==> bookmarks.Some? && torrentId in bookmarks.value
    }

    /** `renderBookmarkButton(torrent._id, bookmarkedTorrents?.includes(torrent._id))`. */
    constructor Render(torrentId: Id, bookmarks: Option<seq<Id>>)
      ensures this.torrentId == torrentId && this.bookmarks == bookmarks
      ensures isBookmarked <==> bookmarks.Some? && torrentId in bookmarks.value
      ensures Valid()
    {
      this.torrentId := torrentId;
      this.bookmarks := bookmarks;
      isBookmarked := bookmarks.Some? && torrentId in bookmarks.value;
    }

    /**
     * A click: DELETE when bookmarked, PUT otherwise. Only a successful response changes the list:
     * a DELETE removes every occurrence of the torrent, a PUT appends it (creating the list if
     * there is none), and the button flips. The appended list is what the server's add-if-absent
     * produces.
     */
    method Click(responseOk: bool) returns (m: HttpMethod)
      requires Valid()
      modifies this
      ensures m == if old(isBookmarked) then Delete else Put
      ensures !responseOk ==> bookmarks == old(bookmarks) && isBookmarked == old(isBookmarked)
      ensures responseOk && old(isBookmarked) ==> bookmarks == Some(RemoveAll(old(bookmarks).value, torrentId))
      ensures responseOk && !old(isBookmarked) ==> bookmarks == Some(Existing(old(bookmarks)) + [torrentId])
      ensures responseOk && !old(isBookmarked) ==> bookmarks == Some(AddIfAbsent(Existing(old(bookmarks)), torrentId))
      ensures responseOk ==> isBookmarked == !old(isBookmarked)
      ensures Valid()
    {
      m := if isBookmarked then Delete else Put;
      if !responseOk {
        return;
      }
      if isBookmarked {
        bookmarks := Some(RemoveAll(bookmarks.value, torrentId));
      } else {
        if bookmarks.None? {
          bookmarks := Some([]);
        }
        bookmarks := Some(bookmarks.value + [torrentId]);
      }
      isBookmarked := !isBookmarked;
    }

    /** Bookmarking and then unbookmarking, both successful, leaves the list as it was (or empty if there was none). */
    method BookmarkThenUnbookmark() returns (first: HttpMethod, second: HttpMethod)
      requires Valid() && !isBookmarked
      modifies this
      ensures first == Put && second == Delete
      ensures bookmarks == Some(Existing(old(bookmarks))) && !isBookmarked
    {
      ghost var before := Existing(bookmarks);
      first := Click(true);
      second := Click(true);
      RemoveAfterAdd(before, torrentId);
      RemoveAllAbsent(before, torrentId);
    }
  }
}
