/**
 * The Users, Friends and Posts tables the routes and the migration script
 * read and write, held in memory as sequences of rows in insertion order.
 * Only the columns the modelled code touches are kept.
 */
module Tables {
  import opened Wrappers

  /** A row of Users. `password` holds whatever the application stored. */
  datatype User = User(id: nat, username: string, firstName: string, lastName: string, password: string)

  /** A row of Friends: (u_id, f_id), read as "`user` added `friend`". */
  datatype Friendship = Friendship(user: nat, friend: nat)

  /** A row of Posts; `createdAt` stands for the insert-time timestamp. */
  datatype Post = Post(id: nat, author: nat, content: string, image: Option<string>, createdAt: int)

  predicate UniqueIds(users: seq<User>)
  {
    forall i, j :: 0 <= i < j < |users| ==> users[i].id != users[j].id
  }

  predicate UniqueUsernames(users: seq<User>)
  {
    forall i, j :: 0 <= i < j < |users| ==> users[i].username != users[j].username
  }

  predicate NameTaken(users: seq<User>, username: string)
  {
    exists u :: u in users && u.username == username
  }

  /** `SELECT * FROM Users WHERE username = ?` fetched with `one=True`: the first matching row. */
  function FindByUsername(users: seq<User>, username: string): (r: Option<User>)
    ensures r.None? <==> !NameTaken(users, username)
    ensures r.Some? ==> r.value in users && r.value.username == username
    ensures r.Some? && UniqueUsernames(users) ==>
      forall u :: u in users && u.username == username ==> u == r.value
  {
    if users == [] then None
    else if users[0].username == username then Some(users[0])
    else
      var r := FindByUsername(users[1..], username);
      assert forall u :: u in users && u != users[0] ==> u in users[1..];
      assert UniqueUsernames(users) ==> UniqueUsernames(users[1..]);
      r
  }

  /**
   * `password` replaces the stored password of every row whose id is `id`:
   * the effect of `UPDATE Users SET password = ? WHERE id = ?`.
   */
  function SetPassword(users: seq<User>, id: nat, password: string): seq<User>
  {
    seq(|users|, k requires 0 <= k < |users| =>
      if users[k].id == id then users[k].(password := password) else users[k])
  }

  /** The in-memory database: the three tables plus the next fresh row ids. */
  class Database {
    var users: seq<User>
    var friends: seq<Friendship>
    var posts: seq<Post>
    var nextUserId: nat
    var nextPostId: nat

    /** Ids are unique and below the next fresh id; usernames are unique. */
    ghost predicate Valid()
      reads this
    {
      UniqueIds(users) && UniqueUsernames(users)
      && (forall u :: u in users ==> u.id < nextUserId)
      && (forall i, j :: 0 <= i < j < |posts| ==> posts[i].id != posts[j].id)
      && (forall p :: p in posts ==> p.id < nextPostId)
    }

    /** An empty database. */
    constructor ()
      ensures Valid()
      ensures users == [] && friends == [] && posts == []
    {
      users, friends, posts := [], [], [];
      nextUserId, nextPostId := 1, 1;
    }

    /** `INSERT INTO Users`, with a fresh id. */
    method InsertUser(username: string, firstName: string, lastName: string, password: string)
      returns (id: nat)
      requires Valid()
      requires !NameTaken(users, username)
      modifies this
      ensures Valid()
      ensures users == old(users) + [User(id, username, firstName, lastName, password)]
      ensures forall u :: u in old(users) ==> u.id != id
      ensures friends == old(friends) && posts == old(posts)
    {
      id := nextUserId;
      users := users + [User(id, username, firstName, lastName, password)];
      nextUserId := nextUserId + 1;
    }

    /** `INSERT INTO Friends (u_id, f_id)`. */
    method InsertFriendship(user: nat, friend: nat)
      requires Valid()
      modifies this
      ensures Valid()
      ensures friends == old(friends) + [Friendship(user, friend)]
      ensures users == old(users) && posts == old(posts)
    {
      friends := friends + [Friendship(user, friend)];
    }

    /** `INSERT INTO Posts`, with a fresh id. */
    method InsertPost(author: nat, content: string, image: Option<string>, createdAt: int)
      returns (id: nat)
      requires Valid()
      modifies this
      ensures Valid()
      ensures posts == old(posts) + [Post(id, author, content, image, createdAt)]
      ensures forall p :: p in old(posts) ==> p.id != id
      ensures users == old(users) && friends == old(friends)
    {
      id := nextPostId;
      posts := posts + [Post(id, author, content, image, createdAt)];
      nextPostId := nextPostId + 1;
    }

    /** `UPDATE Users SET password = ? WHERE id = ?`. */
    method UpdatePassword(id: nat, password: string)
      requires Valid()
      modifies this
      ensures Valid()
      ensures users == SetPassword(old(users), id, password)
      ensures friends == old(friends) && posts == old(posts)
    {
      users := SetPassword(users, id, password);
    }
  }
}
