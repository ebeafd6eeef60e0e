/**
 * The user controller over in-memory stores of users, torrents and posts: registration and login,
 * the public profile with its derived statistics and follower list, the upload and post lists of
 * a profile, and the follow and bookmark handlers that edit the current user's document and save it.
 * bcrypt's hash and compare and the JWT signer are parameters.
 */
module UserController {
  import opened Wrappers
  import opened Collections
  import opened Models

  // ----- Lookups -----

  function HasUsername(name: string): User -> bool
  {
    (u: User) => u.username == name
  }

  /** The filter `{ email }` from the request body. When the body has no email the key is
      undefined, Mongoose drops it, and the filter is `{}`, which every stored user satisfies. */
  function HasEmail(email: Option<string>): User -> bool
  {
    (u: User) => email.None? || u.email == email.value
  }

  function HasUserId(id: Id): User -> bool
  {
    (u: User) => u.id == id
  }

  function FindByUsername(users: seq<User>, name: string): (r: Option<User>)
    ensures r.Some? ==> r.value in users && r.value.username == name
    ensures r.Some? ==> exists i :: FirstAt(users, HasUsername(name), i) && users[i] == r.value
    ensures r.None? <==> forall k :: 0 <= k < |users| ==> users[k].username != name
  {
    First(users, HasUsername(name))
  }

  /** `User.findOne({ email })`: the first user with the email; with no email in the body, the
      first stored user, if there is one. */
  function FindByEmail(users: seq<User>, email: Option<string>): (r: Option<User>)
    ensures r.Some? ==> r.value in users && (email.Some? ==> r.value.email == email.value)
    ensures r.Some? ==> exists i :: FirstAt(users, HasEmail(email), i) && users[i] == r.value
    ensures email.None? ==> r == if users == [] then None else Some(users[0])
    ensures r.None? <==> if email.None? then users == []
                         else forall k :: 0 <= k < |users| ==> users[k].email != email.value
  {
    var r := First(users, HasEmail(email));
    assert email.None? && users != [] ==> FirstAt(users, HasEmail(email), 0);
    r
  }

  function FindUserById(users: seq<User>, id: Id): (r: Option<User>)
    ensures r.Some? ==> r.value in users && r.value.id == id
    ensures r.Some? ==> exists i :: FirstAt(users, HasUserId(id), i) && users[i] == r.value
    ensures r.None? <==> forall k :: 0 <= k < |users| ==> users[k].id != id
  {
    First(users, HasUserId(id))
  }

  // ----- registerUser -----

  datatype RegisterResult =
    | Registered(id: Id, username: string, email: string, token: string)
    | UserExists
    | RegisterServerError

  predicate Supplied(field: Option<string>)
  {
    field.Some? && Present(field.value)
  }

  /** `findOne({ email })` finds a document: a user has the email, or the body has no email and
      the store is not empty. */
  predicate EmailFindsUser(users: seq<User>, email: Option<string>)
  {
    exists k :: 0 <= k < |users| && (email.None? || users[k].email == email.value)
  }

  /** A stored user already has the name: the unique index on `username` refuses the insert. */
  predicate UsernameTaken(users: seq<User>, name: string)
  {
    exists k :: 0 <= k < |users| && users[k].username == name
  }

  /**
   * `registerUser`: 400 when the email lookup finds a user, which a body without an email does on
   * any non-empty store; otherwise `User.create`, which fails with
   * 500 when a field is missing or empty or the username is taken, and otherwise stores the user
   * with the password hashed by the save hook and answers 201 with a token for the new id.
   */
  method RegisterUser(users: seq<User>, username: Option<string>, email: Option<string>, password: Option<string>,
                      id: Id, now: Time, salt: string, hash: (string, string) -> string, sign: Id -> string)
      returns (store: seq<User>, r: RegisterResult)
    ensures r.UserExists? <==> EmailFindsUser(users, email)
    ensures email.None? ==> (r.UserExists? <==> users != []) && (r.RegisterServerError? <==> users == [])
    ensures r.RegisterServerError? <==>
              !EmailFindsUser(users, email)
              && (!Supplied(username) || !Supplied(email) || !Supplied(password) || UsernameTaken(users, username.value))
    ensures r.Registered? ==>
              && r == Registered(id, username.value, email.value, sign(id))
              && store == users + [User(id, username.value, email.value, hash(password.value, salt),
                                        DefaultAvatarPath, [], [], now)]
    ensures !r.Registered? ==> store == users
  {
    if FindByEmail(users, email).Some? {
      return users, UserExists;
    }
    if !Supplied(username) || !Supplied(email) || !Supplied(password) || FindByUsername(users, username.value).Some? {
      return users, RegisterServerError;
    }
    var doc := new UserDocument.Create(id, username.value, email.value, password.value, now);
    doc.Save(salt, hash);
    store := users + [doc.Snapshot()];
    r := Registered(doc.id, doc.username, doc.email, sign(doc.id));
  }

  /** A registration keeps the user store valid, given a fresh id and a hash that is never empty. */
  lemma RegisteredUserKeepsStoreValid(users: seq<User>, u: User)
    requires ValidUsers(users) && ValidUser(u)
    requires forall k :: 0 <= k < |users| ==> users[k].id != u.id && users[k].username != u.username && users[k].email != u.email
    ensures ValidUsers(users + [u])
  {
    var s := users + [u];
    assert forall k :: 0 <= k < |users| ==> s[k] == users[k];
    AppendKeepsDistinct(users, u, (x: User) => x.id);
    AppendKeepsDistinct(users, u, (x: User) => x.username);
    AppendKeepsDistinct(users, u, (x: User) => x.email);
  }

  /** Appending an element whose key no element has keeps the keys distinct. */
  lemma AppendKeepsDistinct<K>(us: seq<User>, u: User, key: User -> K)
    requires forall i, j :: 0 <= i < |us| && 0 <= j < |us| && key(us[i]) == key(us[j]) ==> i == j
    requires forall k :: 0 <= k < |us| ==> key(us[k]) != key(u)
    ensures forall i, j :: 0 <= i < |us + [u]| && 0 <= j < |us + [u]| && key((us + [u])[i]) == key((us + [u])[j]) ==> i == j
  {
    var s := us + [u];
    assert forall k :: 0 <= k < |us| ==> s[k] == us[k];
    assert s[|us|] == u;
  }

  // ----- loginUser -----

  datatype LoginResult =
    | LoggedIn(id: Id, username: string, email: string, token: string)
    | InvalidCredentials
    | LoginServerError

  /**
   * `loginUser`: a token for the user with that email when the password matches; one and the same
   * 401 when there is no such user or the password does not match. bcrypt refuses to compare a
   * missing password, which throws and gives 500 for a known email. A body without an email is
   * checked against the first stored user.
   */
  function LoginUser(users: seq<User>, email: Option<string>, password: Option<string>,
                     compare: (string, string) -> bool, sign: Id -> string): (r: LoginResult)
    ensures r.LoggedIn? <==>
              exists k :: 0 <= k < |users| && FindByEmail(users, email) == Some(users[k])
                          && password.Some? && MatchPassword(users[k], password.value, compare)
    ensures r.LoggedIn? ==> var u := FindByEmail(users, email).value;
              r == LoggedIn(u.id, u.username, u.email, sign(u.id))
    ensures r.LoginServerError? <==> EmailFindsUser(users, email) && password.None?
    ensures email.None? && users != [] && password.Some? ==>
              (r.LoggedIn? <==> MatchPassword(users[0], password.value, compare))
    ensures r.InvalidCredentials? <==>
              !EmailFindsUser(users, email)
              || (password.Some? && !MatchPassword(FindByEmail(users, email).value, password.value, compare))
  {
    var user := FindByEmail(users, email);
    if user.None? then
      assert !EmailFindsUser(users, email);
      InvalidCredentials
    else
      assert EmailFindsUser(users, email) by {
        var k :| 0 <= k < |users| && users[k] == user.value;
      }
      if password.None? then LoginServerError
      else if MatchPassword(user.value, password.value, compare) then
        LoggedIn(user.value.id, user.value.username, user.value.email, sign(user.value.id))
      else InvalidCredentials
  }

  /** A user who has just registered can log in with the same email and password, provided bcrypt
      accepts a password against its own hash. */
  lemma LoginAfterRegistration(users: seq<User>, username: string, email: string, password: string, id: Id, now: Time,
                               salt: string, hash: (string, string) -> string, compare: (string, string) -> bool,
                               sign: Id -> string)
    requires !EmailFindsUser(users, Some(email))
    requires compare(password, hash(password, salt))
    ensures var u := User(id, username, email, hash(password, salt), DefaultAvatarPath, [], [], now);
            LoginUser(users + [u], Some(email), Some(password), compare, sign) == LoggedIn(id, username, email, sign(id))
  {
    var u := User(id, username, email, hash(password, salt), DefaultAvatarPath, [], [], now);
    var s := users + [u];
    assert forall k :: 0 <= k < |users| ==> s[k] == users[k] && s[k].email != email;
    assert FindByEmail(s, Some(email)) == Some(u) by {
      FirstAfterNone(users, u, HasEmail(Some(email)));
    }
  }

  /** Looking through a prefix with no match reaches the appended element. */
  lemma {:induction false} FirstAfterNone(s: seq<User>, x: User, p: User -> bool)
    requires forall k :: 0 <= k < |s| ==> !p(s[k])
    requires p(x)
    ensures First(s + [x], p) == Some(x)
    decreases |s|
  {
    if s != [] {
      assert (s + [x])[1..] == s[1..] + [x];
      assert forall k :: 0 <= k < |s[1..]| ==> s[1..][k] == s[k + 1];
      FirstAfterNone(s[1..], x, p);
    }
  }

  // ----- getUserProfile -----

  /** `populate('following', 'username avatarPath')` and the follower projection `select('username avatarPath')`. */
  datatype UserCard = UserCard(id: Id, username: string, avatarPath: string)

  /** `populate('bookmarkedTorrents', 'name category')`. */
  datatype TorrentCard = TorrentCard(id: Id, name: string, category: Category)

  datatype Stats = Stats(uploads: nat, posts: nat, totalDownloads: nat)

  datatype Profile = Profile(
    id: Id,
    username: string,
    avatarPath: string,
    createdAt: Time,
    bookmarkedTorrents: seq<TorrentCard>,
    following: seq<UserCard>,
    followers: seq<UserCard>,
    isFollowing: bool,
    stats: Stats)

  datatype ProfileResult = ProfileFound(profile: Profile) | ProfileNotFound

  function Card(u: User): UserCard
  {
    UserCard(u.id, u.username, u.avatarPath)
  }

  function Resolves(users: seq<User>): Id -> bool
  {
    (id: Id) => FindUserById(users, id).Some?
  }

  /** Populating an id array: each id in order is replaced by its user's card, and an id with no
      user is dropped. The result is the card of every resolving id, in the array's order and
      with its multiplicity. */
  function PopulateUsers(ids: seq<Id>, users: seq<User>): (r: seq<UserCard>)
    ensures var live := Filter(ids, Resolves(users));
            |r| == |live| && forall k :: 0 <= k < |live| ==> r[k] == Card(FindUserById(users, live[k]).value)
    decreases |ids|
  {
    if ids == [] then []
    else
      var rest := PopulateUsers(ids[1..], users);
      var head := FindUserById(users, ids[0]);
      PopulateUsersHead(ids, users, rest);
      (if head.Some? then [Card(head.value)] else []) + rest
  }

  lemma PopulateUsersHead(ids: seq<Id>, users: seq<User>, rest: seq<UserCard>)
    requires ids != []
    requires var live := Filter(ids[1..], Resolves(users));
             |rest| == |live| && forall k :: 0 <= k < |live| ==> rest[k] == Card(FindUserById(users, live[k]).value)
    ensures var head := FindUserById(users, ids[0]);
            var r := (if head.Some? then [Card(head.value)] else []) + rest;
            var live := Filter(ids, Resolves(users));
            |r| == |live| && forall k :: 0 <= k < |live| ==> r[k] == Card(FindUserById(users, live[k]).value)
  {
    if FindUserById(users, ids[0]).Some? {
      PopulateUsersResolvingHead(ids, users, rest);
    } else {
      assert Filter(ids, Resolves(users)) == Filter(ids[1..], Resolves(users));
    }
  }

  lemma PopulateUsersResolvingHead(ids: seq<Id>, users: seq<User>, rest: seq<UserCard>)
    requires ids != [] && FindUserById(users, ids[0]).Some?
    requires var live := Filter(ids[1..], Resolves(users));
             |rest| == |live| && forall k :: 0 <= k < |live| ==> rest[k] == Card(FindUserById(users, live[k]).value)
    ensures var r := [Card(FindUserById(users, ids[0]).value)] + rest;
            var live := Filter(ids, Resolves(users));
            |r| == |live| && forall k :: 0 <= k < |live| ==> r[k] == Card(FindUserById(users, live[k]).value)
  {
    FilterHead(ids, Resolves(users));
    CardsCons(users, Filter(ids, Resolves(users)), ids[0], Filter(ids[1..], Resolves(users)), rest);
  }

  /** Putting a resolving id in front of the ids puts its card in front of their cards. */
  lemma CardsCons(users: seq<User>, live: seq<Id>, x: Id, tail: seq<Id>, rest: seq<UserCard>)
    requires live == [x] + tail && FindUserById(users, x).Some?
    requires forall k :: 0 <= k < |tail| ==> FindUserById(users, tail[k]).Some?
    requires |rest| == |tail| && forall k :: 0 <= k < |tail| ==> rest[k] == Card(FindUserById(users, tail[k]).value)
    ensures var r := [Card(FindUserById(users, x).value)] + rest;
            |r| == |live| && forall k :: 0 <= k < |live| ==> r[k] == Card(FindUserById(users, live[k]).value)
  {
    var f := (id: Id) requires FindUserById(users, id).Some? => Card(FindUserById(users, id).value);
    ConsMapped(x, tail, f(x), rest, f);
  }

  /** Exactly the ids that have a user survive populating. */
  lemma PopulateUsersCount(ids: seq<Id>, users: seq<User>)
    ensures |PopulateUsers(ids, users)| == Count(ids, Resolves(users))
  {
  }

  function TorrentResolves(torrents: seq<TorrentRecord>): Id -> bool
  {
    (id: Id) => exists k :: 0 <= k < |torrents| && torrents[k].id == id
  }

  function HasTorrentId(id: Id): TorrentRecord -> bool
  {
    (t: TorrentRecord) => t.id == id
  }

  /** `Torrent.findById(id)` over the store: the torrent with that id, none exactly when there is none. */
  function FindTorrent(torrents: seq<TorrentRecord>, id: Id): (r: Option<TorrentRecord>)
    ensures r.Some? <==> exists k :: 0 <= k < |torrents| && torrents[k].id == id
    ensures r.Some? ==> r.value in torrents && r.value.id == id
    ensures r.Some? ==> exists i :: FirstAt(torrents, HasTorrentId(id), i) && torrents[i] == r.value
  {
    var r := First(torrents, HasTorrentId(id));
    assert r.None? ==> forall k :: 0 <= k < |torrents| ==> torrents[k].id != id;
    r
  }

  function TorrentCardOf(t: TorrentRecord): TorrentCard
  {
    TorrentCard(t.id, t.name, t.category)
  }

  /** Populating the bookmark array: each id in order is replaced by its torrent's card, and a
      bookmark of a torrent that no longer exists is dropped. */
  function PopulateTorrents(ids: seq<Id>, torrents: seq<TorrentRecord>): (r: seq<TorrentCard>)
    ensures var live := Filter(ids, TorrentResolves(torrents));
            |r| == |live| && forall k :: 0 <= k < |live| ==> r[k] == TorrentCardOf(FindTorrent(torrents, live[k]).value)
    decreases |ids|
  {
    if ids == [] then []
    else
      var rest := PopulateTorrents(ids[1..], torrents);
      var head := FindTorrent(torrents, ids[0]);
      PopulateTorrentsHead(ids, torrents, rest);
      (if head.Some? then [TorrentCardOf(head.value)] else []) + rest
  }

  lemma PopulateTorrentsHead(ids: seq<Id>, torrents: seq<TorrentRecord>, rest: seq<TorrentCard>)
    requires ids != []
    requires var live := Filter(ids[1..], TorrentResolves(torrents));
             |rest| == |live| && forall k :: 0 <= k < |live| ==> rest[k] == TorrentCardOf(FindTorrent(torrents, live[k]).value)
    ensures var head := FindTorrent(torrents, ids[0]);
            var r := (if head.Some? then [TorrentCardOf(head.value)] else []) + rest;
            var live := Filter(ids, TorrentResolves(torrents));
            |r| == |live| && forall k :: 0 <= k < |live| ==> r[k] == TorrentCardOf(FindTorrent(torrents, live[k]).value)
  {
    if FindTorrent(torrents, ids[0]).Some? {
      PopulateTorrentsResolvingHead(ids, torrents, rest);
    } else {
      assert Filter(ids, TorrentResolves(torrents)) == Filter(ids[1..], TorrentResolves(torrents));
    }
  }

  lemma PopulateTorrentsResolvingHead(ids: seq<Id>, torrents: seq<TorrentRecord>, rest: seq<TorrentCard>)
    requires ids != [] && FindTorrent(torrents, ids[0]).Some?
    requires var live := Filter(ids[1..], TorrentResolves(torrents));
             |rest| == |live| && forall k :: 0 <= k < |live| ==> rest[k] == TorrentCardOf(FindTorrent(torrents, live[k]).value)
    ensures var r := [TorrentCardOf(FindTorrent(torrents, ids[0]).value)] + rest;
            var live := Filter(ids, TorrentResolves(torrents));
            |r| == |live| && forall k :: 0 <= k < |live| ==> r[k] == TorrentCardOf(FindTorrent(torrents, live[k]).value)
  {
    FilterHead(ids, TorrentResolves(torrents));
    TorrentCardsCons(torrents, Filter(ids, TorrentResolves(torrents)), ids[0], Filter(ids[1..], TorrentResolves(torrents)), rest);
  }

  /** Putting a resolving bookmark in front of the bookmarks puts its card in front of their cards. */
  lemma TorrentCardsCons(torrents: seq<TorrentRecord>, live: seq<Id>, x: Id, tail: seq<Id>, rest: seq<TorrentCard>)
    requires live == [x] + tail && FindTorrent(torrents, x).Some?
    requires forall k :: 0 <= k < |tail| ==> FindTorrent(torrents, tail[k]).Some?
    requires |rest| == |tail| && forall k :: 0 <= k < |tail| ==> rest[k] == TorrentCardOf(FindTorrent(torrents, tail[k]).value)
    ensures var r := [TorrentCardOf(FindTorrent(torrents, x).value)] + rest;
            |r| == |live| && forall k :: 0 <= k < |live| ==> r[k] == TorrentCardOf(FindTorrent(torrents, live[k]).value)
  {
    var f := (id: Id) requires FindTorrent(torrents, id).Some? => TorrentCardOf(FindTorrent(torrents, id).value);
    ConsMapped(x, tail, f(x), rest, f);
  }

  /** Exactly the bookmarks of existing torrents survive populating. */
  lemma PopulateTorrentsCount(ids: seq<Id>, torrents: seq<TorrentRecord>)
    ensures |PopulateTorrents(ids, torrents)| == Count(ids, TorrentResolves(torrents))
  {
  }

  function FollowsUser(id: Id): User -> bool
  {
    (u: User) => id in u.following
  }

  /** `User.find({ following: id })`: the cards of exactly the users who follow `id`, in store order. */
  function Followers(users: seq<User>, id: Id): (r: seq<UserCard>)
    ensures |r| == Count(users, FollowsUser(id))
    ensures forall c :: c in r <==> exists k :: 0 <= k < |users| && id in users[k].following && c == Card(users[k])
  {
    var fs := Filter(users, FollowsUser(id));
    var r := seq(|fs|, k requires 0 <= k < |fs| => Card(fs[k]));
    MappedFilterMembers(users, FollowsUser(id), Card, r);
    r
  }

  /** `isFollowing`: false without a viewer or when the viewer's document is gone; otherwise whether
      the viewer's `following` holds the profile id. */
  function IsFollowing(users: seq<User>, viewer: Option<Id>, id: Id): (r: bool)
    ensures viewer.None? ==> !r
    ensures r <==> viewer.Some? && exists k :: 0 <= k < |users| && FindUserById(users, viewer.value) == Some(users[k])
                                                && id in users[k].following
  {
    if viewer.None? then false
    else match FindUserById(users, viewer.value)
      case None => false
      case Some(current) =>
        assert exists k :: 0 <= k < |users| && users[k] == current;
        id in current.following
  }

  function UploadedBy(id: Id): TorrentRecord -> bool
  {
    (t: TorrentRecord) => t.uploader == id
  }

  function WrittenBy(id: Id): Post -> bool
  {
    (p: Post) => p.user == id
  }

  function Downloads(): TorrentRecord -> nat
  {
    (t: TorrentRecord) => t.downloads
  }

  /** The profile statistics: uploads, posts, and the `$group` sum of downloads, which is 0 for a
      user without uploads because the aggregation then yields no document. */
  function ProfileStats(torrents: seq<TorrentRecord>, posts: seq<Post>, id: Id): (r: Stats)
    ensures r.uploads == |Filter(torrents, UploadedBy(id))|
    ensures r.posts == |Filter(posts, WrittenBy(id))|
    ensures r.totalDownloads == SumOf(Filter(torrents, UploadedBy(id)), Downloads())
    ensures r.uploads == 0 ==> r.totalDownloads == 0
  {
    Stats(Count(torrents, UploadedBy(id)), Count(posts, WrittenBy(id)),
          SumOf(Filter(torrents, UploadedBy(id)), Downloads()))
  }

  /** A new upload counts once for its uploader and adds its downloads to the sum; nobody else's
      statistics move. */
  lemma StatsAfterUpload(torrents: seq<TorrentRecord>, posts: seq<Post>, t: TorrentRecord, id: Id)
    ensures var before := ProfileStats(torrents, posts, id);
            var after := ProfileStats(torrents + [t], posts, id);
            if t.uploader == id then
              after == Stats(before.uploads + 1, before.posts, before.totalDownloads + t.downloads)
            else after == before
  {
    FilterConcat(torrents, [t], UploadedBy(id));
    assert Filter([t], UploadedBy(id)) == (if t.uploader == id then [t] else []) by {
      assert [t][1..] == [];
    }
    SumConcat(Filter(torrents, UploadedBy(id)), Filter([t], UploadedBy(id)), Downloads());
    assert SumOf([t], Downloads()) == t.downloads by {
      assert [t][1..] == [];
    }
    assert Filter(torrents, UploadedBy(id)) + [] == Filter(torrents, UploadedBy(id));
  }

  /**
   * `getUserProfile`: 404 for an unknown username; otherwise the profile with its populated
   * bookmarks and following list, its followers, the viewer's follow status and the statistics.
   * The password is not part of the answer.
   */
  function GetUserProfile(users: seq<User>, torrents: seq<TorrentRecord>, posts: seq<Post>,
                          username: string, viewer: Option<Id>): (r: ProfileResult)
    ensures r.ProfileNotFound? <==> forall k :: 0 <= k < |users| ==> users[k].username != username
    ensures r.ProfileFound? ==> var u := FindByUsername(users, username).value;
              && r.profile.id == u.id && r.profile.username == username
              && r.profile.avatarPath == u.avatarPath && r.profile.createdAt == u.createdAt
              && r.profile.bookmarkedTorrents == PopulateTorrents(u.bookmarkedTorrents, torrents)
              && r.profile.following == PopulateUsers(u.following, users)
              && r.profile.followers == Followers(users, u.id)
              && r.profile.isFollowing == IsFollowing(users, viewer, u.id)
              && r.profile.stats == ProfileStats(torrents, posts, u.id)
  {
    match FindByUsername(users, username)
    case None => ProfileNotFound
    case Some(u) =>
      ProfileFound(Profile(u.id, u.username, u.avatarPath, u.createdAt,
                           PopulateTorrents(u.bookmarkedTorrents, torrents),
                           PopulateUsers(u.following, users),
                           Followers(users, u.id),
                           IsFollowing(users, viewer, u.id),
                           ProfileStats(torrents, posts, u.id)))
  }

  /** Once the viewer's stored `following` holds the profile id (what `followUser` saves), the profile
      reports the viewer as following and lists the viewer among the followers. */
  lemma FollowShowsOnProfile(users: seq<User>, i: nat, target: Id)
    requires ValidUsers(users) && i < |users|
    requires target in users[i].following
    ensures IsFollowing(users, Some(users[i].id), target)
    ensures Card(users[i]) in Followers(users, target)
  {
    var found := FindUserById(users, users[i].id);
    var j :| 0 <= j < |users| && found == Some(users[j]);
    assert users[j].id == users[i].id;
  }

  // ----- getUserUploads, getUserPosts -----

  function NewestTorrentFirst(): TorrentRecord -> int
  {
    (t: TorrentRecord) => -(t.createdAt as int)
  }

  function NewestPostFirst(): Post -> int
  {
    (p: Post) => -(p.createdAt as int)
  }

  datatype UploadsResult = Uploads(torrents: seq<TorrentRecord>) | UploadsUserNotFound

  /** The torrents a user uploaded in the order `.sort({ createdAt: -1 })` lists them. */
  function UploadOrder(torrents: seq<TorrentRecord>, id: Id): (r: seq<TorrentRecord>)
    ensures multiset(r) == multiset(Filter(torrents, UploadedBy(id)))
    ensures forall k :: 0 <= k < |r| ==> r[k].uploader == id
    ensures forall i, j :: 0 <= i < j < |r| ==> r[i].createdAt >= r[j].createdAt
  {
    var sorted := SortBy(Filter(torrents, UploadedBy(id)), NewestTorrentFirst());
    assert forall i, j :: 0 <= i < j < |sorted| ==> NewestTorrentFirst()(sorted[i]) <= NewestTorrentFirst()(sorted[j]);
    SortedAllSatisfy(Filter(torrents, UploadedBy(id)), NewestTorrentFirst(), UploadedBy(id));
    sorted
  }

  /** `getUserUploads`: the user's torrents, newest first; 404 for an unknown username. */
  function GetUserUploads(users: seq<User>, torrents: seq<TorrentRecord>, username: string): (r: UploadsResult)
    ensures r.UploadsUserNotFound? <==> forall k :: 0 <= k < |users| ==> users[k].username != username
    ensures r.Uploads? ==> r.torrents == UploadOrder(torrents, FindByUsername(users, username).value.id)
  {
    match FindByUsername(users, username)
    case None => UploadsUserNotFound
    case Some(u) => Uploads(UploadOrder(torrents, u.id))
  }

  /** `populate({ path: 'thread', select: 'title' })`: the thread's id and title, or null when the
      thread does not exist. */
  datatype ThreadTitle = ThreadTitle(id: Id, title: string)

  datatype PostWithThread = PostWithThread(post: Post, thread: Option<ThreadTitle>)

  datatype UserPostsResult = UserPosts(posts: seq<PostWithThread>) | PostsUserNotFound

  function WithThread(threads: seq<Thread>, p: Post): (r: PostWithThread)
    ensures r.post == p
    ensures r.thread.Some? ==> exists k :: 0 <= k < |threads| && threads[k].id == p.thread
                                           && r.thread.value == ThreadTitle(threads[k].id, threads[k].title)
    ensures r.thread.None? <==> forall k :: 0 <= k < |threads| ==> threads[k].id != p.thread
    ensures r.thread.Some? ==> exists i :: FirstAt(threads, HasThreadId(p.thread), i)
                                           && r.thread.value == ThreadTitle(threads[i].id, threads[i].title)
  {
    match First(threads, HasThreadId(p.thread))
    case None => PostWithThread(p, None)
    case Some(t) =>
      assert exists k :: 0 <= k < |threads| && threads[k] == t;
      PostWithThread(p, Some(ThreadTitle(t.id, t.title)))
  }

  function HasThreadId(id: Id): Thread -> bool
  {
    (t: Thread) => t.id == id
  }

  /** The posts of a user in the order `.sort({ createdAt: -1 })` lists them. */
  function UserPostOrder(posts: seq<Post>, id: Id): (r: seq<Post>)
    ensures multiset(r) == multiset(Filter(posts, WrittenBy(id)))
    ensures forall k :: 0 <= k < |r| ==> r[k].user == id
    ensures forall i, j :: 0 <= i < j < |r| ==> r[i].createdAt >= r[j].createdAt
  {
    var mine := Filter(posts, WrittenBy(id));
    var sorted := SortBy(mine, NewestPostFirst());
    assert forall i, j :: 0 <= i < j < |sorted| ==> NewestPostFirst()(sorted[i]) <= NewestPostFirst()(sorted[j]);
    SortedAllSatisfy(mine, NewestPostFirst(), WrittenBy(id));
    sorted
  }

  /** `getUserPosts`: the user's posts, newest first, each with its thread's title; 404 for an unknown username. */
  function GetUserPosts(users: seq<User>, threads: seq<Thread>, posts: seq<Post>, username: string): (r: UserPostsResult)
    ensures r.PostsUserNotFound? <==> forall k :: 0 <= k < |users| ==> users[k].username != username
    ensures r.UserPosts? ==>
              var order := UserPostOrder(posts, FindByUsername(users, username).value.id);
              |r.posts| == |order| && forall k :: 0 <= k < |order| ==> r.posts[k] == WithThread(threads, order[k])
  {
    match FindByUsername(users, username)
    case None => PostsUserNotFound
    case Some(u) =>
      var order := UserPostOrder(posts, u.id);
      UserPosts(seq(|order|, k requires 0 <= k < |order| => WithThread(threads, order[k])))
  }

  // ----- followUser, unfollowUser, bookmarkTorrent, unbookmarkTorrent -----

  datatype FollowResult = NowFollowing(username: string) | Unfollowed(username: string) | FollowUserNotFound | FollowServerError

  /**
   * `followUser`: 404 when no user has the name, whatever the current user; 500 when the current
   * user's document is gone (`currentUser` is null and reading its list throws); otherwise the
   * target id is appended unless already present, and the document is saved only then.
   */
  method FollowUser(users: seq<User>, targetName: string, current: UserDocument?,
                    salt: string, hash: (string, string) -> string) returns (r: FollowResult)
    requires current != null ==> !current.passwordModified
    modifies current
    ensures FindByUsername(users, targetName).None? ==> r == FollowUserNotFound
    ensures FindByUsername(users, targetName).Some? && current == null ==> r == FollowServerError
    ensures current != null && FindByUsername(users, targetName).None? ==> unchanged(current)
    ensures current != null && FindByUsername(users, targetName).Some? ==>
              var target := FindByUsername(users, targetName).value;
              && r == NowFollowing(target.username)
              && current.Snapshot() == old(current.Snapshot()).(following := AddIfAbsent(old(current.following), target.id))
              && !current.passwordModified
  {
    var target := FindByUsername(users, targetName);
    if target.None? {
      return FollowUserNotFound;
    }
    if current == null {
      return FollowServerError;
    }
    if target.value.id !in current.following {
      current.following := current.following + [target.value.id];
      current.Save(salt, hash);
    }
    r := NowFollowing(target.value.username);
  }

  /**
   * `unfollowUser`: the same 404 and 500 cases; otherwise every occurrence of the target id is
   * pulled and the document saved, also when the id was not there.
   */
  method UnfollowUser(users: seq<User>, targetName: string, current: UserDocument?,
                      salt: string, hash: (string, string) -> string) returns (r: FollowResult)
    requires current != null ==> !current.passwordModified
    modifies current
    ensures FindByUsername(users, targetName).None? ==> r == FollowUserNotFound
    ensures FindByUsername(users, targetName).Some? && current == null ==> r == FollowServerError
    ensures current != null && FindByUsername(users, targetName).None? ==> unchanged(current)
    ensures current != null && FindByUsername(users, targetName).Some? ==>
              var target := FindByUsername(users, targetName).value;
              && r == Unfollowed(target.username)
              && current.Snapshot() == old(current.Snapshot()).(following := RemoveAll(old(current.following), target.id))
              && !current.passwordModified
  {
    var target := FindByUsername(users, targetName);
    if target.None? {
      return FollowUserNotFound;
    }
    if current == null {
      return FollowServerError;
    }
    current.following := RemoveAll(current.following, target.value.id);
    current.Save(salt, hash);
    r := Unfollowed(target.value.username);
  }

  datatype BookmarkResult = Bookmarked | BookmarkRemoved | BookmarkServerError

  /** `bookmarkTorrent`: the id is appended unless present; nothing checks that the torrent exists. */
  method BookmarkTorrent(torrent: Id, current: UserDocument?, salt: string, hash: (string, string) -> string)
      returns (r: BookmarkResult)
    requires current != null ==> !current.passwordModified
    modifies current
    ensures current == null ==> r == BookmarkServerError
    ensures current != null ==>
              && r == Bookmarked
              && current.Snapshot() == old(current.Snapshot()).(bookmarkedTorrents := AddIfAbsent(old(current.bookmarkedTorrents), torrent))
              && !current.passwordModified
  {
    if current == null {
      return BookmarkServerError;
    }
    if torrent !in current.bookmarkedTorrents {
      current.bookmarkedTorrents := current.bookmarkedTorrents + [torrent];
      current.Save(salt, hash);
    }
    r := Bookmarked;
  }

  /** `unbookmarkTorrent`: every occurrence of the id is pulled and the document saved. */
  method UnbookmarkTorrent(torrent: Id, current: UserDocument?, salt: string, hash: (string, string) -> string)
      returns (r: BookmarkResult)
    requires current != null ==> !current.passwordModified
    modifies current
    ensures current == null ==> r == BookmarkServerError
    ensures current != null ==>
              && r == BookmarkRemoved
              && current.Snapshot() == old(current.Snapshot()).(bookmarkedTorrents := RemoveAll(old(current.bookmarkedTorrents), torrent))
              && !current.passwordModified
  {
    if current == null {
      return BookmarkServerError;
    }
    current.bookmarkedTorrents := RemoveAll(current.bookmarkedTorrents, torrent);
    current.Save(salt, hash);
    r := BookmarkRemoved;
  }

  /** Following twice is following once: the second call leaves the document as the first left it,
      and the stored password stays the loaded hash throughout. */
  method FollowTwice(users: seq<User>, targetName: string, current: UserDocument,
                     salt: string, hash: (string, string) -> string)
    requires !current.passwordModified
    requires FindByUsername(users, targetName).Some?
    modifies current
    ensures current.following == AddIfAbsent(old(current.following), FindByUsername(users, targetName).value.id)
    ensures current.password == old(current.password)
  {
    var r1 := FollowUser(users, targetName, current, salt, hash);
    var afterFirst := current.Snapshot();
    var r2 := FollowUser(users, targetName, current, salt, hash);
    AddIfAbsentIdempotent(old(current.following), FindByUsername(users, targetName).value.id);
    assert current.Snapshot() == afterFirst;
  }
}
