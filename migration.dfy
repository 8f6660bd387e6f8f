/**
 * migrate_passwords.py: one pass over the (id, password) rows of Users that
 * rehashes every stored value lacking bcrypt's `$2b$` prefix. The script
 * as written never issues its UPDATE: it hands the new hash to the database
 * as the statement text. `MigratePasswordsAsWritten` models that;
 * `MigratePasswords` is the pass with the UPDATE issued.
 */
module Migration {
  import opened Wrappers
  import opened Tables
  import Routes

  /** The prefix by which a stored value is recognised as a bcrypt hash. */
  const HashPrefix := "$2b$"

  predicate IsHashed(password: string)
  {
    HashPrefix <= password
  }

  /** One row after migration: a value without the prefix is replaced by its hash. */
  function MigrateRow(u: User, hash: string -> string): User
  {
    if IsHashed(u.password) then u else u.(password := hash(u.password))
  }

  /** The Users table after the intended pass: every row migrated where it stands. */
  function Migrated(users: seq<User>, hash: string -> string): (r: seq<User>)
    ensures |r| == |users|
    ensures forall k :: 0 <= k < |users| ==> r[k] == MigrateRow(users[k], hash)
  {
    if users == [] then [] else [MigrateRow(users[0], hash)] + Migrated(users[1..], hash)
  }

  /**
   * The positions of the rows whose stored value lacks the prefix: each such
   * position once, in increasing order.
   */
  function LegacyPositions(rows: seq<User>): (ix: seq<nat>)
    ensures forall a, b :: 0 <= a < b < |ix| ==> ix[a] < ix[b]
    ensures forall k :: 0 <= k < |ix| ==> ix[k] < |rows|
    ensures forall i: nat :: i in ix <==> i < |rows| && !IsHashed(rows[i].password)
  {
    if rows == [] then []
    else
      var n := |rows| - 1;
      var init := LegacyPositions(rows[..n]);
      assert forall i: nat :: i < n ==> rows[..n][i] == rows[i];
      init + (if IsHashed(rows[n].password) then [] else [n])
  }

  /** The rows whose stored value lacks the prefix, in fetch order. */
  function LegacyRows(rows: seq<User>): (r: seq<User>)
    ensures |r| <= |rows|
  {
    if rows == [] then []
    else
      var last := rows[|rows| - 1];
      assert rows == rows[..|rows| - 1] + [last];
      LegacyRows(rows[..|rows| - 1]) + (if IsHashed(last.password) then [] else [last])
  }

  /** No row is selected when every stored value carries the prefix. */
  lemma {:induction false} NoLegacyRowsWhenAllHashed(rows: seq<User>)
    requires forall k :: 0 <= k < |rows| ==> IsHashed(rows[k].password)
    ensures LegacyRows(rows) == []
  {
    if rows != [] {
      NoLegacyRowsWhenAllHashed(rows[..|rows| - 1]);
    }
  }

  /**
   * The legacy rows come one per legacy position, in fetch order: the k-th
   * is the row at the k-th position whose value lacks the prefix.
   */
  lemma {:induction false} LegacyRowsInFetchOrder(rows: seq<User>)
    ensures |LegacyRows(rows)| == |LegacyPositions(rows)|
    ensures forall k :: 0 <= k < |LegacyRows(rows)| ==>
      LegacyRows(rows)[k] == rows[LegacyPositions(rows)[k]]
  {
    if rows != [] {
      var n := |rows| - 1;
      var front := rows[..n];
      LegacyRowsInFetchOrder(front);
      var init, ix := LegacyRows(front), LegacyPositions(front);
      var r, jx := LegacyRows(rows), LegacyPositions(rows);
      forall k | 0 <= k < |r| ensures r[k] == rows[jx[k]] {
        if k < |init| {
          assert r[k] == init[k] && jx[k] == ix[k];
          assert init[k] == front[ix[k]] == rows[ix[k]];
        } else {
          assert r[k] == rows[n] && jx[k] == n;
        }
      }
    }
  }

  /** A row is selected exactly when it is in the table and its value lacks the prefix. */
  lemma LegacyRowsMembers(rows: seq<User>)
    ensures forall u :: u in LegacyRows(rows) <==> u in rows && !IsHashed(u.password)
  {
    LegacyRowsInFetchOrder(rows);
    var r, ix := LegacyRows(rows), LegacyPositions(rows);
    forall u | u in r ensures u in rows && !IsHashed(u.password) {
      var k :| 0 <= k < |r| && r[k] == u;
      assert ix[k] in ix;
    }
    forall u | u in rows && !IsHashed(u.password) ensures u in r {
      var i :| 0 <= i < |rows| && rows[i] == u;
      assert i in ix;
      var k :| 0 <= k < |ix| && ix[k] == i;
      assert r[k] == u;
    }
  }

  /** What `SELECT id, password FROM Users` fetches. */
  function Credentials(users: seq<User>): seq<(nat, string)>
  {
    seq(|users|, k requires 0 <= k < |users| => (users[k].id, users[k].password))
  }

  /** A statement handed to the database: its text and its parameters. */
  datatype Statement = Statement(text: string, args: seq<nat>)

  /** The script's console output: the fetched rows, then the completion message. */
  datatype Output = RowsDump(rows: seq<(nat, string)>) | Completed

  /**
   * The statements the script as written sends: for each legacy row, in
   * fetch order, the new hash as statement text with the row's id as parameter.
   */
  function StrayStatements(rows: seq<User>, hash: string -> string): (r: seq<Statement>)
    ensures |r| == |LegacyRows(rows)|
    ensures forall k :: 0 <= k < |r| ==>
      r[k] == Statement(hash(LegacyRows(rows)[k].password), [LegacyRows(rows)[k].id])
  {
    if rows == [] then []
    else
      var last := rows[|rows| - 1];
      StrayStatements(rows[..|rows| - 1], hash)
      + (if IsHashed(last.password) then [] else [Statement(hash(last.password), [last.id])])
  }

  /** The statements sent for a prefix of the rows begin the statements sent for all of them. */
  lemma {:induction false} StrayStatementsPrefix(rows: seq<User>, i: nat, hash: string -> string)
    requires i <= |rows|
    ensures StrayStatements(rows[..i], hash) <= StrayStatements(rows, hash)
    decreases |rows| - i
  {
    if i < |rows| {
      var longer := rows[..i + 1];
      assert longer[..i] == rows[..i];
      StrayStatementsPrefix(rows, i + 1, hash);
    } else {
      assert rows[..i] == rows;
    }
  }

  /** One more fetched row adds its statement, if it is a legacy row, at the end. */
  lemma StrayStatementsStep(rows: seq<User>, i: nat, hash: string -> string)
    requires i < |rows|
    ensures StrayStatements(rows[..i + 1], hash) == StrayStatements(rows[..i], hash)
      + (if IsHashed(rows[i].password) then [] else [Statement(hash(rows[i].password), [rows[i].id])])
  {
    var next := rows[..i + 1];
    assert next[..i] == rows[..i] && next[i] == rows[i];
  }

  /** No statement is sent for a run of rows that all carry the prefix. */
  lemma {:induction false} NoStatementsForHashedRows(rows: seq<User>, n: nat, hash: string -> string)
    requires n <= |rows|
    requires forall k :: 0 <= k < n ==> IsHashed(rows[k].password)
    ensures StrayStatements(rows[..n], hash) == []
  {
    if n > 0 {
      NoStatementsForHashedRows(rows, n - 1, hash);
      StrayStatementsStep(rows, n - 1, hash);
    }
  }

  /** A table with a row lacking the prefix has a legacy row. */
  lemma LegacyRowsNonEmpty(rows: seq<User>, i: nat)
    requires i < |rows| && !IsHashed(rows[i].password)
    ensures |LegacyRows(rows)| > 0
  {
    LegacyRowsInFetchOrder(rows);
    assert i in LegacyPositions(rows);
  }

  /**
   * When the row at `i` is the first legacy row, the first statement sent is
   * its hash with its id.
   */
  lemma FirstLegacyRow(rows: seq<User>, i: nat, hash: string -> string)
    requires i < |rows| && !IsHashed(rows[i].password)
    requires forall k :: 0 <= k < i ==> IsHashed(rows[k].password)
    ensures |StrayStatements(rows, hash)| > 0
    ensures StrayStatements(rows, hash)[0] == Statement(hash(rows[i].password), [rows[i].id])
  {
    StrayStatementsStep(rows, i, hash);
    NoStatementsForHashedRows(rows, i, hash);
    StrayStatementsPrefix(rows, i + 1, hash);
  }

  /**
   * The loop as written. It has no `modifies` clause: no table changes.
   * `strayStatementRaises` says whether the database module raises on a
   * statement text that is not SQL; if it does, the script stops at the
   * first legacy row and never prints the completion message.
   */
  method MigratePasswordsAsWritten(db: Database, hash: string -> string, strayStatementRaises: bool)
    returns (issued: seq<Statement>, output: seq<Output>)
    ensures !strayStatementRaises ==>
      issued == StrayStatements(db.users, hash)
      && output == [RowsDump(Credentials(db.users)), Completed]
    ensures strayStatementRaises ==>
      issued == StrayStatements(db.users, hash)[..if |LegacyRows(db.users)| == 0 then 0 else 1]
      && output == if |LegacyRows(db.users)| == 0 then [RowsDump(Credentials(db.users)), Completed]
                   else [RowsDump(Credentials(db.users))]
  {
    var fetched := db.users;
    output := [RowsDump(Credentials(fetched))];
    issued := [];
    for i := 0 to |fetched|
      invariant issued == StrayStatements(fetched[..i], hash)
      invariant strayStatementRaises ==> issued == []
      invariant strayStatementRaises ==> forall k :: 0 <= k < i ==> IsHashed(fetched[k].password)
    {
      var row := fetched[i];
      StrayStatementsStep(fetched, i, hash);
      if !IsHashed(row.password) {
        var hashedPassword := hash(row.password);
        issued := issued + [Statement(hashedPassword, [row.id])];
        if strayStatementRaises {
          FirstLegacyRow(fetched, i, hash);
          LegacyRowsNonEmpty(fetched, i);
          assert issued == StrayStatements(fetched, hash)[..1];
          return;
        }
      }
    }
    assert fetched[..|fetched|] == fetched;
    if strayStatementRaises {
      NoLegacyRowsWhenAllHashed(fetched);
    }
    output := output + [Completed];
  }

  /** The pass with its UPDATE issued, keyed by id, for every legacy row in fetch order. */
  method MigratePasswords(db: Database, hash: string -> string) returns (output: seq<Output>)
    requires db.Valid()
    modifies db
    ensures db.Valid()
    ensures db.users == Migrated(old(db.users), hash)
    ensures db.friends == old(db.friends) && db.posts == old(db.posts)
    ensures output == [RowsDump(Credentials(old(db.users))), Completed]
  {
    var fetched := db.users;
    assert UniqueIds(fetched);
    output := [RowsDump(Credentials(fetched))];
    for i := 0 to |fetched|
      invariant db.Valid()
      invariant db.friends == old(db.friends) && db.posts == old(db.posts)
      invariant |db.users| == |fetched|
      invariant forall k :: 0 <= k < |fetched| ==>
        db.users[k] == if k < i then MigrateRow(fetched[k], hash) else fetched[k]
    {
      var row := fetched[i];
      if !IsHashed(row.password) {
        var hashedPassword := hash(row.password);
        db.UpdatePassword(row.id, hashedPassword);
      }
    }
    assert db.users == Migrated(fetched, hash);
    output := output + [Completed];
  }

  /** After the pass, every stored value carries the prefix, if every hash does. */
  lemma MigratedAllHashed(users: seq<User>, hash: string -> string)
    requires forall p :: IsHashed(hash(p))
    ensures forall u :: u in Migrated(users, hash) ==> IsHashed(u.password)
  {
  }

  /** The pass keeps ids, usernames and names, and leaves prefixed values byte for byte. */
  lemma MigrationChangesOnlyLegacyPasswords(users: seq<User>, hash: string -> string, k: nat)
    requires k < |users|
    ensures Migrated(users, hash)[k].(password := users[k].password) == users[k]
    ensures IsHashed(users[k].password) ==> Migrated(users, hash)[k] == users[k]
    ensures !IsHashed(users[k].password) ==> Migrated(users, hash)[k].password == hash(users[k].password)
  {
  }

  /** Running the pass twice is running it once, if every hash carries the prefix. */
  lemma {:induction false} MigrationIdempotent(users: seq<User>, hash: string -> string)
    requires forall p :: IsHashed(hash(p))
    ensures Migrated(Migrated(users, hash), hash) == Migrated(users, hash)
  {
    if users != [] {
      MigrationIdempotent(users[1..], hash);
      assert Migrated(users, hash)[1..] == Migrated(users[1..], hash);
    }
  }

  /** A second pass finds no legacy row, if every hash carries the prefix. */
  lemma SecondPassSelectsNothing(users: seq<User>, hash: string -> string)
    requires forall p :: IsHashed(hash(p))
    ensures LegacyRows(Migrated(users, hash)) == []
  {
    var after := Migrated(users, hash);
    MigratedAllHashed(users, hash);
    assert forall k :: 0 <= k < |after| ==> after[k] in after;
    NoLegacyRowsWhenAllHashed(after);
  }

  /** The pass keeps usernames unique. */
  lemma MigrationKeepsUsernames(users: seq<User>, hash: string -> string)
    requires UniqueUsernames(users)
    ensures UniqueUsernames(Migrated(users, hash))
  {
    var after := Migrated(users, hash);
    forall i, j | 0 <= i < j < |after| ensures after[i].username != after[j].username {
      assert after[i].username == users[i].username && after[j].username == users[j].username;
    }
  }

  /**
   * A legacy user can log in with the old plaintext after the pass, given
   * that bcrypt's check accepts the hash of a password.
   */
  lemma MigratedUserCanLogIn(users: seq<User>, k: nat, hash: string -> string, check: (string, string) -> bool)
    requires UniqueUsernames(users)
    requires k < |users| && !IsHashed(users[k].password)
    requires forall p :: check(hash(p), p)
    ensures Routes.Login(Migrated(users, hash), users[k].username, users[k].password, check)
         == Routes.LoggedIn(users[k].id)
  {
    var after := Migrated(users, hash);
    MigrationKeepsUsernames(users, hash);
    assert after[k] == users[k].(password := hash(users[k].password));
    Routes.StoredRowLogsIn(after, k, users[k].password, check);
  }

  /**
   * A run of the script as written on a one-row table whose password is
   * plaintext: the table comes back unchanged, still plaintext, while the
   * intended pass would have replaced that value.
   */
  method AsWrittenKeepsPlaintext(hash: string -> string) returns (before: seq<User>, after: seq<User>)
    requires forall p :: IsHashed(hash(p))
    ensures |before| == 1 && after == before && !IsHashed(after[0].password)
    ensures Migrated(before, hash) != after
  {
    var db := new Database();
    var id := db.InsertUser("alice", "Alice", "Liddell", "hunter2");
    before := db.users;
    var issued, output := MigratePasswordsAsWritten(db, hash, false);
    after := db.users;
    assert !IsHashed("hunter2") by { assert "hunter2"[0] != HashPrefix[0]; }
    assert Migrated(before, hash)[0].password == hash("hunter2");
  }
}
