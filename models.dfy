/**
 * The stored documents: the Torrent, User, Thread and Forum schemas, and the Post documents the
 * controllers read and write. Object ids and timestamps are naturals. A Mongoose `required`
 * String path rejects both a missing value and the empty string; that test is `Present`.
 */
module Models {
  import opened Wrappers

  type Id = nat
  type Time = nat

  /** A `required: true` String path accepts the value. */
  predicate Present(s: string)
  {
    s != []
  }

  // ----- Torrent -----

  /** The `enum` of the `category` path. */
  datatype Category = Movies | TVShows | Games | Music | Applications | Other

  function CategoryName(c: Category): string
  {
    match c
    case Movies => "Movies"
    case TVShows => "TV Shows"
    case Games => "Games"
    case Music => "Music"
    case Applications => "Applications"
    case Other => "Other"
  }

  /** Enum validation of a submitted category string: accepted exactly when it is one of the six names. */
  function ParseCategory(s: string): (r: Option<Category>)
    ensures r.Some? ==> CategoryName(r.value) == s
    ensures r.None? ==> forall c: Category :: CategoryName(c) != s
    ensures forall c: Category :: CategoryName(c) == s ==> r == Some(c)
  {
    if s == "Movies" then Some(Movies)
    else if s == "TV Shows" then Some(TVShows)
    else if s == "Games" then Some(Games)
    else if s == "Music" then Some(Music)
    else if s == "Applications" then Some(Applications)
    else if s == "Other" then Some(Other)
    else None
  }

  /** One `{ path, size }` entry of the `files` array. */
  datatype FileEntry = FileEntry(path: string, size: nat)

  datatype TorrentRecord = TorrentRecord(
    id: Id,
    name: string,
    description: string,
    category: Category,
    size: nat,
    infoHash: string,
    uploader: Id,
    seeders: nat,
    leechers: nat,
    downloads: nat,
    files: seq<FileEntry>,
    torrentFilePath: string,
    imagePaths: seq<string>,
    createdAt: Time)

  /** The required String paths of the Torrent schema hold values. (`category` is valid by its
      type, `size` and `uploader` are always present once they are naturals.) */
  predicate ValidTorrent(t: TorrentRecord)
  {
    Present(t.name) && Present(t.description) && Present(t.infoHash) && Present(t.torrentFilePath)
  }

  /** A new document as the schema builds it: `seeders`, `leechers` and `downloads` default to 0. */
  function NewTorrent(id: Id, name: string, description: string, category: Category, size: nat,
                      infoHash: string, uploader: Id, files: seq<FileEntry>, torrentFilePath: string,
                      imagePaths: seq<string>, now: Time): TorrentRecord
  {
    TorrentRecord(id, name, description, category, size, infoHash, uploader, 0, 0, 0,
                  files, torrentFilePath, imagePaths, now)
  }

  /** The unique index on `infoHash`, and distinct `_id`s. */
  ghost predicate ValidCatalog(ts: seq<TorrentRecord>)
  {
    && (forall k :: 0 <= k < |ts| ==> ValidTorrent(ts[k]))
    && (forall i, j :: 0 <= i < |ts| && 0 <= j < |ts| && ts[i].infoHash == ts[j].infoHash ==> i == j)
    && (forall i, j :: 0 <= i < |ts| && 0 <= j < |ts| && ts[i].id == ts[j].id ==> i == j)
  }

  /** A new torrent starts with no seeders, leechers or downloads, and holds the given fields; it
      is valid exactly when its required strings are present. */
  lemma NewTorrentDefaults(id: Id, name: string, description: string, category: Category, size: nat,
                           infoHash: string, uploader: Id, files: seq<FileEntry>, torrentFilePath: string,
                           imagePaths: seq<string>, now: Time)
    ensures var t := NewTorrent(id, name, description, category, size, infoHash, uploader, files,
                                torrentFilePath, imagePaths, now);
            && t.seeders == 0 && t.leechers == 0 && t.downloads == 0
            && t.files == files && t.imagePaths == imagePaths && t.infoHash == infoHash
            && (ValidTorrent(t) <==> Present(name) && Present(description) && Present(infoHash) && Present(torrentFilePath))
  {
  }

  /** A valid catalog stays valid when a torrent is added exactly when the torrent is valid and
      neither its info hash nor its id is in use. */
  lemma CatalogExtends(ts: seq<TorrentRecord>, t: TorrentRecord)
    requires ValidCatalog(ts)
    ensures ValidCatalog(ts + [t]) <==>
              && ValidTorrent(t)
              && (forall k :: 0 <= k < |ts| ==> ts[k].infoHash != t.infoHash)
              && (forall k :: 0 <= k < |ts| ==> ts[k].id != t.id)
  {
    var all := ts + [t];
    if ValidCatalog(all) {
      forall k | 0 <= k < |ts| ensures ts[k].infoHash != t.infoHash && ts[k].id != t.id {
        assert all[k] == ts[k] && all[|ts|] == t;
      }
      assert all[|ts|] == t;
    }
  }

  // ----- User -----

  const DefaultAvatarPath: string := "uploads/avatars/default.png"

  datatype User = User(
    id: Id,
    username: string,
    email: string,
    password: string,
    avatarPath: string,
    following: seq<Id>,
    bookmarkedTorrents: seq<Id>,
    createdAt: Time)

  predicate ValidUser(u: User)
  {
    Present(u.username) && Present(u.email) && Present(u.password)
  }

  /** The unique indexes on `username` and `email`, and distinct `_id`s. */
  ghost predicate ValidUsers(us: seq<User>)
  {
    && (forall k :: 0 <= k < |us| ==> ValidUser(us[k]))
    && (forall i, j :: 0 <= i < |us| && 0 <= j < |us| && us[i].id == us[j].id ==> i == j)
    && (forall i, j :: 0 <= i < |us| && 0 <= j < |us| && us[i].username == us[j].username ==> i == j)
    && (forall i, j :: 0 <= i < |us| && 0 <= j < |us| && us[i].email == us[j].email ==> i == j)
  }

  /**
   * A User document held in memory, as a controller holds it between `findById` (or `create`) and
   * `save`. `passwordModified` is Mongoose's `isModified('password')`.
   */
  class UserDocument {
    var id: Id
    var username: string
    var email: string
    var password: string
    var avatarPath: string
    var following: seq<Id>
    var bookmarkedTorrents: seq<Id>
    var createdAt: Time
    var passwordModified: bool

    /** The document a query returns: the stored fields, nothing modified yet. */
    constructor Load(u: User)
      ensures Snapshot() == u && !passwordModified
    {
      id, username, email, password := u.id, u.username, u.email, u.password;
      avatarPath, following, bookmarkedTorrents, createdAt := u.avatarPath, u.following, u.bookmarkedTorrents, u.createdAt;
      passwordModified := false;
    }

    /** `new User({ username, email, password })`: the default avatar, empty lists, and a
        password that counts as modified, so the first save hashes it. */
    constructor Create(id: Id, username: string, email: string, password: string, now: Time)
      ensures Snapshot() == User(id, username, email, password, DefaultAvatarPath, [], [], now)
      ensures passwordModified
    {
      this.id, this.username, this.email, this.password := id, username, email, password;
      avatarPath, following, bookmarkedTorrents, createdAt := DefaultAvatarPath, [], [], now;
      passwordModified := true;
    }

    function Snapshot(): User
      reads this
    {
      User(id, username, email, password, avatarPath, following, bookmarkedTorrents, createdAt)
    }

    /**
     * The `pre('save')` hook, then the write: the password is replaced by its salted hash only when
     * it was modified since loading; otherwise the stored hash is left as it is. `salt` is what
     * `genSalt` produced and `hash` is bcrypt's hash function.
     */
    method Save(salt: string, hash: (string, string) -> string)
      modifies this
      ensures old(passwordModified) ==> password == hash(old(password), salt)
      ensures !old(passwordModified) ==> password == old(password)
      ensures !passwordModified
      ensures Snapshot() == old(Snapshot()).(password := password)
    {
      if passwordModified {
        password := hash(password, salt);
      }
      passwordModified := false;
    }
  }

  /** `matchPassword`: bcrypt's `compare` of the entered password against the stored hash. */
  function MatchPassword(u: User, entered: string, compare: (string, string) -> bool): bool
  {
    compare(entered, u.password)
  }

  // ----- Thread, Forum, Post -----

  /** No reply count or last post is stored on a thread. */
  datatype Thread = Thread(id: Id, forum: Id, title: string, user: Id, isLocked: bool,
                           createdAt: Time, updatedAt: Time)

  predicate ValidThread(t: Thread)
  {
    Present(t.title)
  }

  /** `isLocked` defaults to false; the timestamps start equal. */
  function NewThread(id: Id, forum: Id, title: string, user: Id, now: Time): Thread
  {
    Thread(id, forum, title, user, false, now, now)
  }

  /** A new thread is unlocked, its timestamps start equal, and it is valid exactly when it has a title. */
  lemma NewThreadDefaults(id: Id, forum: Id, title: string, user: Id, now: Time)
    ensures var t := NewThread(id, forum, title, user, now);
            && !t.isLocked && t.createdAt == t.updatedAt == now
            && t.forum == forum && t.user == user
            && (ValidThread(t) <==> Present(title))
  {
  }

  /** The schema declares no `type` path, so a stored forum has none. */
  datatype Forum = Forum(id: Id, name: string, description: string, createdAt: Time, updatedAt: Time)

  predicate ValidForum(f: Forum)
  {
    Present(f.name) && Present(f.description)
  }

  /** The unique index on `name`. */
  ghost predicate ValidForums(fs: seq<Forum>)
  {
    && (forall k :: 0 <= k < |fs| ==> ValidForum(fs[k]))
    && (forall i, j :: 0 <= i < |fs| && 0 <= j < |fs| && fs[i].name == fs[j].name ==> i == j)
    && (forall i, j :: 0 <= i < |fs| && 0 <= j < |fs| && fs[i].id == fs[j].id ==> i == j)
  }

  datatype Post = Post(id: Id, thread: Id, user: Id, content: string, createdAt: Time)
}
