/**
 * The decision logic of social_insecurity/routes.py over the in-memory
 * tables: the login and registration branches of `index`, adding and
 * listing friends, creating a post with an optional image, and the feed.
 * bcrypt is a pair of opaque functions: `hash` for generate_password_hash
 * and `check(stored, candidate)` for check_password_hash.
 */
module Routes {
  import opened Wrappers
  import opened Tables
  import opened Utils
  import opened Forms

  // ---------------------------------------------------------------- index: login

  /** What the login branch ends in; the two failures flash different messages. */
  datatype LoginResult = UnknownUser | WrongPassword | LoggedIn(id: nat)

  /** The login branch: look the username up, then ask bcrypt about the stored value. */
  function Login(users: seq<User>, username: string, password: string, check: (string, string) -> bool)
    : (r: LoginResult)
    ensures r == UnknownUser <==> !NameTaken(users, username)
    ensures r.LoggedIn? ==>
      exists u :: u in users && u.id == r.id && u.username == username && check(u.password, password)
    ensures r == WrongPassword ==>
      exists u :: u in users && u.username == username && !check(u.password, password)
  {
    match FindByUsername(users, username)
    case None => UnknownUser
    case Some(u) => if check(u.password, password) then LoggedIn(u.id) else WrongPassword
  }

  /** With unique usernames, login succeeds exactly when the named user's stored value checks. */
  lemma LoginIffCredentialsCheck(users: seq<User>, username: string, password: string, check: (string, string) -> bool)
    requires UniqueUsernames(users)
    ensures Login(users, username, password, check).LoggedIn? <==>
      exists u :: u in users && u.username == username && check(u.password, password)
  {
    var found := FindByUsername(users, username);
    if u :| u in users && u.username == username && check(u.password, password) {
      assert found.Some? && found.value == u;
    }
  }

  /** With unique usernames, a user whose stored value checks against the password logs in as that user. */
  lemma StoredRowLogsIn(users: seq<User>, k: nat, password: string, check: (string, string) -> bool)
    requires UniqueUsernames(users)
    requires k < |users| && check(users[k].password, password)
    ensures Login(users, users[k].username, password, check) == LoggedIn(users[k].id)
  {
    var found := FindByUsername(users, users[k].username);
    assert found == Some(users[k]) by {
      assert users[k] in users;
    }
  }

  // ---------------------------------------------------------------- index: registration

  /** What the registration branch ends in. */
  datatype RegisterResult = FormInvalid | HashRaised | UsernameTaken | Registered(id: nat)

  /**
   * The registration branch as the route has it: the form's validators are
   * never run, so any password is hashed and stored. The password is hashed
   * before the username lookup, and bcrypt raises `ValueError` on an empty
   * password, so that request ends in an error with nothing inserted.
   */
  method Register(db: Database, username: string, firstName: string, lastName: string, password: string,
                  hash: string -> string)
    returns (r: RegisterResult)
    requires db.Valid()
    modifies db
    ensures db.Valid()
    ensures r != FormInvalid
    ensures r == HashRaised <==> password == ""
    ensures r == UsernameTaken <==> password != "" && NameTaken(old(db.users), username)
    ensures !r.Registered? ==> db.users == old(db.users)
    ensures r.Registered? ==>
      db.users == old(db.users) + [User(r.id, username, firstName, lastName, hash(password))]
      && forall u :: u in old(db.users) ==> u.id != r.id
    ensures db.friends == old(db.friends) && db.posts == old(db.posts)
  {
    if password == "" {
      r := HashRaised;
      return;
    }
    var passwordHashed := hash(password);
    var existing := FindByUsername(db.users, username);
    if existing.Some? {
      r := UsernameTaken;
    } else {
      var id := db.InsertUser(username, firstName, lastName, passwordHashed);
      r := Registered(id);
    }
  }

  /** A one-character password is registered by the route, though the form's policy rejects it. */
  method WeakPasswordIsRegistered(hash: string -> string) returns (r: RegisterResult, policyAccepts: bool)
    ensures r.Registered?
    ensures !policyAccepts
  {
    var db := new Database();
    r := Register(db, "mallory", "Mal", "Lory", "a", hash);
    policyAccepts := PasswordErrors(Some("a")) == [];
  }

  /** Registration that runs the form's validators first, as the form declares them. */
  method RegisterValidated(db: Database, form: RegisterForm, hash: string -> string) returns (r: RegisterResult)
    requires db.Valid()
    modifies db
    ensures db.Valid()
    ensures r == FormInvalid <==> !RegisterFormValid(form)
    ensures r != HashRaised
    ensures !r.Registered? ==> db.users == old(db.users)
    ensures r == UsernameTaken <==> RegisterFormValid(form) && NameTaken(old(db.users), form.username.value)
    ensures r.Registered? ==>
      PasswordErrors(form.password) == []
      && db.users == old(db.users) + [User(r.id, form.username.value, form.firstName.value,
                                           form.lastName.value, hash(form.password.value))]
    ensures db.friends == old(db.friends) && db.posts == old(db.posts)
  {
    if !RegisterFormValid(form) {
      r := FormInvalid;
    } else {
      r := Register(db, form.username.value, form.firstName.value, form.lastName.value,
                    form.password.value, hash);
    }
  }

  /**
   * After a registration, logging in with the same username and password
   * succeeds, given that bcrypt's check accepts a hash of the password.
   */
  lemma RegisteredUserCanLogIn(users: seq<User>, newUser: User, password: string,
                               hash: string -> string, check: (string, string) -> bool)
    requires !NameTaken(users, newUser.username)
    requires newUser.password == hash(password)
    requires check(hash(password), password)
    ensures Login(users + [newUser], newUser.username, password, check) == LoggedIn(newUser.id)
  {
    var found := FindByUsername(users + [newUser], newUser.username);
    assert found.Some? && found.value == newUser by {
      assert newUser in users + [newUser];
    }
  }

  // ---------------------------------------------------------------- friends

  /** What adding a friend ends in. */
  datatype FriendResult = Redirected | CallerMissing | NoSuchUser | SelfFriend | AlreadyFriends | FriendAdded

  /** `SELECT f_id FROM Friends WHERE u_id = ?`, in table order. */
  function FriendIds(friends: seq<Friendship>, user: nat): (ids: seq<nat>)
    ensures forall f :: f in ids <==> Friendship(user, f) in friends
  {
    if friends == [] then []
    else
      var rest := FriendIds(friends[1..], user);
      assert forall g :: g in friends <==> g == friends[0] || g in friends[1..];
      (if friends[0].user == user then [friends[0].friend] else []) + rest
  }

  /** No row pairs a user with itself and no row appears twice. */
  predicate FriendsSound(friends: seq<Friendship>)
  {
    (forall f :: f in friends ==> f.user != f.friend)
    && forall i, j :: 0 <= i < j < |friends| ==> friends[i] != friends[j]
  }

  /** Appending a new row between two different users keeps Friends free of self rows and duplicates. */
  lemma AppendKeepsFriendsSound(friends: seq<Friendship>, row: Friendship)
    requires FriendsSound(friends) && row !in friends && row.user != row.friend
    ensures FriendsSound(friends + [row])
  {
    var after := friends + [row];
    forall i, j | 0 <= i < j < |after| ensures after[i] != after[j] {
      if j == |friends| {
        assert after[i] in friends;
      }
    }
  }

  /**
   * Adding a friend: `me` is the session's username, `friendName` what the
   * form names. An empty session username redirects before any query.
   */
  method AddFriend(db: Database, me: string, friendName: string) returns (r: FriendResult)
    requires db.Valid()
    modifies db
    ensures db.Valid()
    ensures db.users == old(db.users) && db.posts == old(db.posts)
    ensures var user := FindByUsername(old(db.users), me);
            var friend := FindByUsername(old(db.users), friendName);
      && (r == Redirected <==> me == "")
      && (r == CallerMissing <==> me != "" && user.None?)
      && (r == NoSuchUser <==> me != "" && user.Some? && friend.None?)
      && (r == SelfFriend <==> me != "" && user.Some? && friend.Some? && friend.value.id == user.value.id)
      && (r == AlreadyFriends <==> me != "" && user.Some? && friend.Some? && friend.value.id != user.value.id
                                   && Friendship(user.value.id, friend.value.id) in old(db.friends))
      && (r == FriendAdded ==> db.friends == old(db.friends) + [Friendship(user.value.id, friend.value.id)])
    ensures r != FriendAdded ==> db.friends == old(db.friends)
    ensures FriendsSound(old(db.friends)) ==> FriendsSound(db.friends)
  {
    if me == "" {
      r := Redirected;
      return;
    }
    var user := FindByUsername(db.users, me);
    var friend := FindByUsername(db.users, friendName);
    if user.None? {
      // the route fails on `user["id"]` before touching any table
      r := CallerMissing;
      return;
    }
    var ids := FriendIds(db.friends, user.value.id);
    if friend.None? {
      r := NoSuchUser;
    } else if friend.value.id == user.value.id {
      r := SelfFriend;
    } else if friend.value.id in ids {
      r := AlreadyFriends;
    } else {
      var row := Friendship(user.value.id, friend.value.id);
      if FriendsSound(db.friends) {
        AppendKeepsFriendsSound(db.friends, row);
      }
      db.InsertFriendship(user.value.id, friend.value.id);
      r := FriendAdded;
    }
  }

  /** The users of `users` whose id is `id`: one side of a join on the id. */
  function UsersWithId(users: seq<User>, id: nat): (r: seq<User>)
    ensures forall u :: u in r <==> u in users && u.id == id
  {
    if users == [] then []
    else
      var rest := UsersWithId(users[1..], id);
      assert forall u :: u in users <==> u == users[0] || u in users[1..];
      (if users[0].id == id then [users[0]] else []) + rest
  }

  /** The friend listing: the users the caller added, joined on f_id, the caller excluded. */
  function FriendList(users: seq<User>, friends: seq<Friendship>, me: nat): (r: seq<User>)
    ensures forall u :: u in r <==> u in users && u.id != me && Friendship(me, u.id) in friends
  {
    if friends == [] then []
    else
      var f := friends[0];
      var rest := FriendList(users, friends[1..], me);
      assert forall g :: g in friends <==> g == f || g in friends[1..];
      (if f.user == me && f.friend != me then UsersWithId(users, f.friend) else []) + rest
  }

  // ---------------------------------------------------------------- stream: new post

  /** The upload folder: stored file names and their bytes. */
  class UploadFolder {
    var files: map<string, seq<bv8>>

    constructor ()
      ensures files == map[]
    {
      files := map[];
    }

    /** `file.save(path)`: writes what remains of the stream from its position, leaving it at the end. */
    method Save(name: string, stream: FileStream)
      modifies this, stream`pos
      ensures files == old(files)[name := Remaining(stream.data, old(stream.pos))]
      ensures stream.pos == if old(stream.pos) <= |stream.data| then |stream.data| else old(stream.pos)
    {
      files := files[name := Remaining(stream.data, stream.pos)];
      if stream.pos <= |stream.data| {
        stream.Seek(|stream.data|);
      }
    }
  }

  /** The bytes of `data` from position `pos` on. */
  function Remaining(data: seq<bv8>, pos: nat): seq<bv8>
  {
    if pos <= |data| then data[pos..] else []
  }

  /** A file part of the post form: the client's filename and the byte stream. */
  datatype Upload = Upload(filename: string, stream: FileStream)

  /** The form carries an image when a file part with a non-empty filename was sent. */
  predicate HasImage(image: Option<Upload>)
  {
    image.Some? && image.value.filename != ""
  }

  /** The name an accepted image is stored under. */
  function StoredName(uuidHex: string, filename: string, secureFilename: string -> string): string
  {
    uuidHex + "_" + secureFilename(filename)
  }

  /** Both checks of the upload gate pass on this upload. */
  predicate UploadPasses(upload: Upload, allowedExtensions: set<string>,
                         sniff: seq<bv8> -> string, allowedMimeTypes: set<string>)
  {
    AllowedFile(upload.filename, allowedExtensions) && MimeAllowed(upload.stream.data, sniff, allowedMimeTypes)
  }

  /** What submitting the post form ends in. */
  datatype PostResult = UserNotFound | UploadRejected | Posted(id: nat)

  /**
   * Submitting the post form: an image is kept only if both upload checks
   * pass; a failed check creates no post and stores no file. `uuidHex`
   * stands for `uuid4().hex` and `now` for the insert-time timestamp.
   */
  method CreatePost(db: Database, folder: UploadFolder, me: string, content: string, image: Option<Upload>,
                    uuidHex: string, now: int, secureFilename: string -> string,
                    allowedExtensions: set<string>, sniff: seq<bv8> -> string, allowedMimeTypes: set<string>)
    returns (r: PostResult)
    requires db.Valid()
    modifies db, folder, if image.Some? then {image.value.stream} else {}
    ensures db.Valid()
    ensures db.users == old(db.users) && db.friends == old(db.friends)
    ensures r == UserNotFound <==> !NameTaken(old(db.users), me)
    ensures r == UploadRejected <==>
      NameTaken(old(db.users), me) && HasImage(image)
      && !UploadPasses(image.value, allowedExtensions, sniff, allowedMimeTypes)
    ensures !r.Posted? ==> db.posts == old(db.posts) && folder.files == old(folder.files)
    ensures r.Posted? ==>
      var author := FindByUsername(old(db.users), me).value.id;
      var stored := if HasImage(image) then Some(StoredName(uuidHex, image.value.filename, secureFilename)) else None;
      db.posts == old(db.posts) + [Post(r.id, author, content, stored, now)]
      && forall p :: p in old(db.posts) ==> p.id != r.id
    ensures r.Posted? && HasImage(image) ==>
      folder.files == old(folder.files)[StoredName(uuidHex, image.value.filename, secureFilename) := image.value.stream.data]
    ensures !HasImage(image) ==> folder.files == old(folder.files)
    ensures r == UploadRejected ==>
      image.value.stream.pos
      == if AllowedFile(image.value.filename, allowedExtensions) then 0 else old(image.value.stream.pos)
    ensures r.Posted? && HasImage(image) ==> image.value.stream.pos == |image.value.stream.data|
    ensures image.Some? && (r == UserNotFound || !HasImage(image)) ==>
      image.value.stream.pos == old(image.value.stream.pos)
  {
    var user := FindByUsername(db.users, me);
    if user.None? {
      r := UserNotFound;
      return;
    }
    var imageName: Option<string> := None;
    if HasImage(image) {
      var file := image.value;
      var ok := AllowedFile(file.filename, allowedExtensions);
      if ok {
        ok := AllowedMimeType(file.stream, sniff, allowedMimeTypes);
      }
      if !ok {
        r := UploadRejected;
        return;
      }
      var name := StoredName(uuidHex, file.filename, secureFilename);
      folder.Save(name, file.stream);
      imageName := Some(name);
    }
    var id := db.InsertPost(user.value.id, content, imageName, now);
    r := Posted(id);
  }

  // ---------------------------------------------------------------- stream: the feed

  /** A post by `author` is in `me`'s feed: own posts, and posts of anyone linked by a Friends row either way. */
  predicate Visible(friends: seq<Friendship>, me: nat, author: nat)
  {
    author == me || Friendship(author, me) in friends || Friendship(me, author) in friends
  }

  predicate HasUserId(users: seq<User>, id: nat)
  {
    exists u :: u in users && u.id == id
  }

  /** The feed's WHERE clause and join, before ordering: each kept post as often as it is stored. */
  function VisiblePosts(users: seq<User>, friends: seq<Friendship>, posts: seq<Post>, me: nat): (r: seq<Post>)
    ensures forall p :: multiset(r)[p] == (if Visible(friends, me, p.author) && HasUserId(users, p.author)
                                           then multiset(posts)[p] else 0)
  {
    if posts == [] then []
    else
      var p := posts[0];
      assert posts == [p] + posts[1..];
      (if Visible(friends, me, p.author) && HasUserId(users, p.author) then [p] else [])
      + VisiblePosts(users, friends, posts[1..], me)
  }

  /** Newest first: creation times never increase along the sequence. */
  predicate NewestFirst(ps: seq<Post>)
  {
    forall i, j :: 0 <= i < j < |ps| ==> ps[i].createdAt >= ps[j].createdAt
  }

  /**
   * Every post of a rearrangement of the tail of a newest-first sequence,
   * plus an older post, is no newer than the head.
   */
  lemma NoNewerThanHead(ps: seq<Post>, p: Post, rest: seq<Post>)
    requires ps != [] && NewestFirst(ps) && p.createdAt < ps[0].createdAt
    requires multiset(rest) == multiset(ps[1..]) + multiset{p}
    ensures forall q :: q in rest ==> q.createdAt <= ps[0].createdAt
  {
    forall q | q in rest ensures q.createdAt <= ps[0].createdAt {
      assert q in multiset(rest);
      if q != p {
        assert q in multiset(ps[1..]);
        var k :| 0 <= k < |ps[1..]| && ps[1..][k] == q;
        assert q == ps[k + 1];
      }
    }
  }

  /** A post no older than any post of a newest-first sequence can go in front of it. */
  lemma PrependNewest(h: Post, rest: seq<Post>)
    requires NewestFirst(rest)
    requires forall q :: q in rest ==> q.createdAt <= h.createdAt
    ensures NewestFirst([h] + rest)
  {
    var r := [h] + rest;
    forall i, j | 0 <= i < j < |r| ensures r[i].createdAt >= r[j].createdAt {
      assert r[j] == rest[j - 1] && r[j] in rest;
      if i > 0 {
        assert r[i] == rest[i - 1];
      }
    }
  }

  /** Puts `p` into a newest-first sequence, after every strictly newer post. */
  function InsertByTime(p: Post, ps: seq<Post>): (r: seq<Post>)
    requires NewestFirst(ps)
    ensures NewestFirst(r)
    ensures multiset(r) == multiset(ps) + multiset{p}
  {
    if ps == [] || ps[0].createdAt <= p.createdAt then [p] + ps
    else
      var rest := InsertByTime(p, ps[1..]);
      assert ps == [ps[0]] + ps[1..];
      NoNewerThanHead(ps, p, rest);
      PrependNewest(ps[0], rest);
      [ps[0]] + rest
  }

  /** `ORDER BY creation_time DESC`. */
  function SortNewestFirst(ps: seq<Post>): (r: seq<Post>)
    ensures NewestFirst(r)
    ensures multiset(r) == multiset(ps)
  {
    if ps == [] then []
    else
      assert ps == [ps[0]] + ps[1..];
      InsertByTime(ps[0], SortNewestFirst(ps[1..]))
  }

  /** The feed shown on the stream page. */
  function Feed(users: seq<User>, friends: seq<Friendship>, posts: seq<Post>, me: nat): (r: seq<Post>)
    ensures NewestFirst(r)
    ensures forall p :: multiset(r)[p] == (if Visible(friends, me, p.author) && HasUserId(users, p.author)
                                           then multiset(posts)[p] else 0)
  {
    SortNewestFirst(VisiblePosts(users, friends, posts, me))
  }
}
