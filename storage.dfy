/**
  `DatabaseStorage`: the three tables held in memory, in insertion order.
  The database's `serial` ids and `defaultNow()` clock are fields of the
  store; the clock only moves forward.
*/
module Storage {
  import opened Wrappers
  import opened Text
  import opened Sequences
  import opened Schema

  // ---- Tables as sequences of rows ----

  /** No two rows agree on `field` (a unique column). */
  ghost predicate Unique<T, K>(rows: seq<T>, field: T -> K)
  {
    forall i, j :: 0 <= i < j < |rows| ==> field(rows[i]) != field(rows[j])
  }

  /** Every id was drawn from the table's sequence, which starts at 1 and is now at `next`. */
  ghost predicate IdsBelow<T>(rows: seq<T>, id: T -> int, next: int)
  {
    1 <= next && forall x :: x in rows ==> 1 <= id(x) < next
  }

  /** Rows were stamped in insertion order by a clock now reading `clock`. */
  ghost predicate Chronological<T>(rows: seq<T>, at: T -> Timestamp, clock: Timestamp)
  {
    && (forall x :: x in rows ==> at(x) <= clock)
    && (forall i, j :: 0 <= i < j < |rows| ==> at(rows[i]) <= at(rows[j]))
  }

  /** `orderBy(desc(createdAt))`: newest first. */
  ghost predicate NewestFirst<T>(rows: seq<T>, at: T -> Timestamp)
  {
    forall i, j :: 0 <= i < j < |rows| ==> at(rows[i]) >= at(rows[j])
  }

  /** Two rows of a table that agree on a unique column are the same row. */
  lemma UniqueRow<T, K>(rows: seq<T>, field: T -> K, x: T, y: T)
    requires Unique(rows, field) && x in rows && y in rows && field(x) == field(y)
    ensures x == y
  {
    var i :| 0 <= i < |rows| && rows[i] == x;
    var j :| 0 <= j < |rows| && rows[j] == y;
    if i < j || j < i { assert false; }
  }

  /** `select ... where field = k`, first row: the row carrying `k`, if any. */
  function FindBy<T, K(==)>(rows: seq<T>, field: T -> K, k: K): (r: Option<T>)
    ensures r.Some? ==> r.value in rows && field(r.value) == k
    ensures r.None? ==> forall i :: 0 <= i < |rows| ==> field(rows[i]) != k
  {
    if rows == [] then None
    else if field(rows[0]) == k then Some(rows[0])
    else FindBy(rows[1..], field, k)
  }

  /** `delete ... where field = k`: the rows carrying `k` go, the others stay in their order. */
  function RemoveBy<T(==,!new), K(==)>(rows: seq<T>, field: T -> K, k: K): (r: seq<T>)
    ensures forall x :: x in r <==> x in rows && field(x) != k
    ensures Subsequence(r, rows)
    ensures FindBy(rows, field, k).None? ==> r == rows
  {
    if rows == [] then []
    else if field(rows[0]) == k then
      var rest := RemoveBy(rows[1..], field, k);
      SubsequenceOfTail(rest, rows);
      rest
    else
      assert rows == [rows[0]] + rows[1..];
      [rows[0]] + RemoveBy(rows[1..], field, k)
  }

  lemma SubsequenceOfTail<T>(r: seq<T>, s: seq<T>)
    requires s != [] && Subsequence(r, s[1..])
    ensures Subsequence(r, s)
  {
  }

  /** How many rows carry `k` in `field`. */
  function CountBy<T, K(==)>(rows: seq<T>, field: T -> K, k: K): nat
  {
    if rows == [] then 0 else (if field(rows[0]) == k then 1 else 0) + CountBy(rows[1..], field, k)
  }

  /** A unique column holds each value at most once: exactly once when it is found, never otherwise. */
  lemma {:induction false} UniqueCount<T(!new), K>(rows: seq<T>, field: T -> K, k: K)
    requires Unique(rows, field)
    ensures CountBy(rows, field, k) == (if FindBy(rows, field, k).Some? then 1 else 0)
  {
    if rows != [] {
      UniqueCount(rows[1..], field, k);
    }
  }

  /** Deleting by a unique column removes exactly one row when the value is present and none otherwise. */
  lemma {:induction false} RemoveByCount<T(!new), K>(rows: seq<T>, field: T -> K, k: K)
    requires Unique(rows, field)
    ensures |RemoveBy(rows, field, k)| == |rows| - (if FindBy(rows, field, k).Some? then 1 else 0)
  {
    if rows != [] {
      RemoveByCount(rows[1..], field, k);
    }
  }

  /** Deleting rows keeps every other column unique. */
  lemma {:induction false} RemoveByKeepsUnique<T(!new), K, L>(rows: seq<T>, field: T -> K, k: K, other: T -> L)
    requires Unique(rows, other)
    ensures Unique(RemoveBy(rows, field, k), other)
  {
    if rows != [] {
      var tail := rows[1..];
      RemoveByKeepsUnique(tail, field, k, other);
      var rest := RemoveBy(tail, field, k);
      if field(rows[0]) != k {
        var r := [rows[0]] + rest;
        assert r == RemoveBy(rows, field, k);
        forall i, j | 0 <= i < j < |r|
          ensures other(r[i]) != other(r[j])
        {
          if i == 0 {
            assert r[j] in tail;
            var m :| 0 <= m < |tail| && tail[m] == r[j];
            assert rows[m + 1] == r[j];
          } else {
            assert r[i] == rest[i - 1] && r[j] == rest[j - 1];
          }
        }
      }
    }
  }

  /** Deleting rows keeps the others in stamp order. */
  lemma {:induction false} RemoveByKeepsChronological<T(!new), K>(
    rows: seq<T>, field: T -> K, k: K, at: T -> Timestamp, clock: Timestamp)
    requires Chronological(rows, at, clock)
    ensures Chronological(RemoveBy(rows, field, k), at, clock)
  {
    if rows != [] {
      var tail := rows[1..];
      RemoveByKeepsChronological(tail, field, k, at, clock);
      var rest := RemoveBy(tail, field, k);
      if field(rows[0]) != k {
        var r := [rows[0]] + rest;
        assert r == RemoveBy(rows, field, k);
        forall i, j | 0 <= i < j < |r|
          ensures at(r[i]) <= at(r[j])
        {
          if i == 0 {
            assert r[j] in tail;
            var m :| 0 <= m < |tail| && tail[m] == r[j];
            assert rows[m + 1] == r[j];
          } else {
            assert r[i] == rest[i - 1] && r[j] == rest[j - 1];
          }
        }
      }
    }
  }

  /** Rows kept in stamp order read back to front are newest first, and are the same rows. */
  lemma ReverseIsNewestFirst<T>(rows: seq<T>, at: T -> Timestamp, clock: Timestamp)
    requires Chronological(rows, at, clock)
    ensures NewestFirst(Reverse(rows), at)
    ensures multiset(Reverse(rows)) == multiset(rows)
  {
    var r := Reverse(rows);
    forall i, j | 0 <= i < j < |r|
      ensures at(r[i]) >= at(r[j])
    {
      assert r[i] == rows[|rows| - 1 - i] && r[j] == rows[|rows| - 1 - j];
    }
  }

  /** No row is newer than `row`. */
  ghost predicate Latest<T>(rows: seq<T>, at: T -> Timestamp, row: T)
  {
    forall x :: x in rows ==> at(x) <= at(row)
  }

  /** Appending a row whose value in `field` no row carries keeps the column unique. */
  lemma AppendUnique<T, K>(rows: seq<T>, field: T -> K, row: T)
    requires Unique(rows, field) && forall x :: x in rows ==> field(x) != field(row)
    ensures Unique(rows + [row], field)
  {
    var r := rows + [row];
    forall i, j | 0 <= i < j < |r|
      ensures field(r[i]) != field(r[j])
    {
      assert r[i] in rows;
      if j < |rows| { assert r[i] == rows[i] && r[j] == rows[j]; }
    }
  }

  /** Appending a row with the sequence's next id keeps the ids unique and drawn from the sequence, now one further on. */
  lemma AppendNextId<T>(rows: seq<T>, id: T -> int, next: int, row: T)
    requires Unique(rows, id) && IdsBelow(rows, id, next) && id(row) == next
    ensures Unique(rows + [row], id) && IdsBelow(rows + [row], id, next + 1)
  {
    AppendUnique(rows, id, row);
  }

  /** Rows stamped by a clock still are once that clock has moved on. */
  lemma ClockAdvances<T>(rows: seq<T>, at: T -> Timestamp, clock: Timestamp, later: Timestamp)
    requires Chronological(rows, at, clock) && clock <= later
    ensures Chronological(rows, at, later)
  {
  }

  /** A row stamped no earlier than the clock, appended, is the latest row and appears in the newest-first list. */
  lemma AppendLatest<T>(rows: seq<T>, at: T -> Timestamp, clock: Timestamp, row: T)
    requires Chronological(rows, at, clock) && clock <= at(row)
    ensures Chronological(rows + [row], at, at(row))
    ensures Latest(rows + [row], at, row)
    ensures row in Reverse(rows + [row])
  {
    var r := rows + [row];
    assert r[|r| - 1] == row;
    assert row in multiset(r);
    assert row in multiset(Reverse(r));
  }

  // ---- Passwords ----

  /** What `hashPassword` needs from `scrypt`: a derived key for a password and a salt. */
  type KeyDerivation = (string, string) -> seq<byte>

  /**
    `hashPassword`: the 16 random salt bytes are written as 32 hex digits, and
    the stored value is the hex of the key derived from the password and that
    salt text, a dot, and the salt text. Reading it back at the first dot
    gives the derived key's hex and the salt, so the password itself is never
    part of what is stored.
  */
  function HashPassword(password: string, salt: seq<byte>, kdf: KeyDerivation): (stored: string)
    requires |salt| == 16
    ensures BeforeFirst(stored, '.') == Hex(kdf(password, Hex(salt)))
    ensures AfterFirst(stored, '.') == Hex(salt) && |AfterFirst(stored, '.')| == 32
    ensures forall c :: c in AfterFirst(stored, '.') ==> c in HexAlphabet
  {
    var saltText := Hex(salt);
    var derived := Hex(kdf(password, saltText));
    assert '.' !in derived;
    SplitJoin(derived, '.', saltText);
    derived + "." + saltText
  }

  datatype StoreError = DuplicateUsername | DuplicateAccessKey

  // ---- The store ----

  /** The database's constraints over the three tables, their id sequences and its clock. */
  ghost predicate Tables(
    users: seq<User>, documents: seq<Document>, accessKeys: seq<AccessKey>,
    nextUserId: int, nextDocumentId: int, nextAccessKeyId: int, clock: Timestamp)
  {
    && Unique(users, UserId) && Unique(users, Username) && IdsBelow(users, UserId, nextUserId)
    && Unique(documents, DocumentId) && IdsBelow(documents, DocumentId, nextDocumentId)
    && Chronological(documents, DocumentCreatedAt, clock)
    && Unique(accessKeys, AccessKeyId) && Unique(accessKeys, AccessKeyValue)
    && IdsBelow(accessKeys, AccessKeyId, nextAccessKeyId)
    && Chronological(accessKeys, AccessKeyCreatedAt, clock)
  }

  /** Inserting a document with the next id and a stamp no earlier than the clock keeps the constraints; the row is the latest. */
  lemma InsertDocumentKeepsTables(
    users: seq<User>, documents: seq<Document>, accessKeys: seq<AccessKey>,
    nextUserId: int, nextDocumentId: int, nextAccessKeyId: int, clock: Timestamp, row: Document)
    requires Tables(users, documents, accessKeys, nextUserId, nextDocumentId, nextAccessKeyId, clock)
    requires row.id == nextDocumentId && clock <= row.createdAt
    ensures Tables(users, documents + [row], accessKeys, nextUserId, nextDocumentId + 1, nextAccessKeyId, row.createdAt)
    ensures Latest(documents + [row], DocumentCreatedAt, row) && row in Reverse(documents + [row])
  {
    AppendNextId(documents, DocumentId, nextDocumentId, row);
    AppendLatest(documents, DocumentCreatedAt, clock, row);
    ClockAdvances(accessKeys, AccessKeyCreatedAt, clock, row.createdAt);
  }

  /** Inserting a key no row holds, with the next id and a stamp no earlier than the clock, keeps the constraints; the row is the latest. */
  lemma InsertAccessKeyKeepsTables(
    users: seq<User>, documents: seq<Document>, accessKeys: seq<AccessKey>,
    nextUserId: int, nextDocumentId: int, nextAccessKeyId: int, clock: Timestamp, row: AccessKey)
    requires Tables(users, documents, accessKeys, nextUserId, nextDocumentId, nextAccessKeyId, clock)
    requires row.id == nextAccessKeyId && clock <= row.createdAt
    requires forall k :: k in accessKeys ==> k.key != row.key
    ensures Tables(users, documents, accessKeys + [row], nextUserId, nextDocumentId, nextAccessKeyId + 1, row.createdAt)
    ensures Latest(accessKeys + [row], AccessKeyCreatedAt, row) && row in Reverse(accessKeys + [row])
  {
    AppendNextId(accessKeys, AccessKeyId, nextAccessKeyId, row);
    AppendUnique(accessKeys, AccessKeyValue, row);
    AppendLatest(accessKeys, AccessKeyCreatedAt, clock, row);
    ClockAdvances(documents, DocumentCreatedAt, clock, row.createdAt);
  }

  class Store {
    var users: seq<User>
    var documents: seq<Document>
    var accessKeys: seq<AccessKey>
    var nextUserId: int
    var nextDocumentId: int
    var nextAccessKeyId: int
    var clock: Timestamp

    /** The tables' constraints: unique ids, unique usernames and keys, rows stamped in order. */
    ghost predicate Valid()
      reads this
    {
      Tables(users, documents, accessKeys, nextUserId, nextDocumentId, nextAccessKeyId, clock)
    }

    constructor ()
      ensures Valid()
      ensures users == [] && documents == [] && accessKeys == []
    {
      users, documents, accessKeys := [], [], [];
      nextUserId, nextDocumentId, nextAccessKeyId := 1, 1, 1;
      clock := 0;
    }

    // ---- Users ----

    /** `getUser`: the user with this id, or none. */
    function GetUser(id: int): (r: Option<User>)
      reads this
      requires Valid()
      ensures r.Some? ==> r.value in users && r.value.id == id
      ensures r.Some? ==> forall u :: u in users && u.id == id ==> u == r.value
      ensures r.None? ==> forall u :: u in users ==> u.id != id
    {
      var r := FindBy(users, UserId, id);
      if r.Some? then
        assert forall u :: u in users && u.id == id ==> u == r.value by {
          forall u | u in users && u.id == id { UniqueRow(users, UserId, u, r.value); }
        }
        r
      else r
    }

    /** `getUserByUsername`: the one user with exactly this name, or none. */
    function GetUserByUsername(username: string): (r: Option<User>)
      reads this
      requires Valid()
      ensures r.Some? ==> r.value in users && r.value.username == username
      ensures r.Some? ==> forall u :: u in users && u.username == username ==> u == r.value
      ensures r.None? ==> forall u :: u in users ==> u.username != username
    {
      var r := FindBy(users, Username, username);
      if r.Some? then
        assert forall u :: u in users && u.username == username ==> u == r.value by {
          forall u | u in users && u.username == username { UniqueRow(users, Username, u, r.value); }
        }
        r
      else r
    }

    /**
      `createUser`: fails on a taken username (the unique constraint);
      otherwise appends one user whose password column is the salted hash.
    */
    method CreateUser(user: InsertUser, salt: seq<byte>, kdf: KeyDerivation) returns (r: Result<User, StoreError>)
      requires Valid()
      requires |salt| == 16
      modifies this
      ensures Valid()
      ensures r.Failure? <==> old(GetUserByUsername(user.username)).Some?
      ensures r.Failure? ==> r.error == DuplicateUsername && users == old(users)
      ensures r.Success? ==> r.value == User(old(nextUserId), user.username, HashPassword(user.password, salt, kdf))
      ensures r.Failure? ==> unchanged(this)
      ensures r.Success? ==> users == old(users) + [r.value] && nextUserId == old(nextUserId) + 1
      ensures documents == old(documents) && accessKeys == old(accessKeys) && clock == old(clock)
      ensures nextDocumentId == old(nextDocumentId) && nextAccessKeyId == old(nextAccessKeyId)
    {
      if GetUserByUsername(user.username).Some? {
        return Failure(DuplicateUsername);
      }
      var row := User(nextUserId, user.username, HashPassword(user.password, salt, kdf));
      AppendNextId(users, UserId, nextUserId, row);
      AppendUnique(users, Username, row);
      users := users + [row];
      nextUserId := nextUserId + 1;
      r := Success(row);
    }

    // ---- Documents ----

    /** `getDocuments`: every stored document, newest first. */
    function Documents(): (r: seq<Document>)
      reads this
      requires Valid()
      ensures multiset(r) == multiset(documents)
      ensures NewestFirst(r, DocumentCreatedAt)
    {
      ReverseIsNewestFirst(documents, DocumentCreatedAt, clock);
      Reverse(documents)
    }

    /** `getDocument`: the document with this id, or none. */
    function GetDocument(id: int): (r: Option<Document>)
      reads this
      requires Valid()
      ensures r.Some? ==> r.value in documents && r.value.id == id
      ensures r.Some? ==> forall d :: d in documents && d.id == id ==> d == r.value
      ensures r.None? ==> forall d :: d in documents ==> d.id != id
    {
      var r := FindBy(documents, DocumentId, id);
      if r.Some? then
        assert forall d :: d in documents && d.id == id ==> d == r.value by {
          forall d | d in documents && d.id == id { UniqueRow(documents, DocumentId, d, r.value); }
        }
        r
      else r
    }

    /** `createDocument`: appends one row with the supplied fields, a fresh id and the current time. */
    method CreateDocument(doc: InsertDocument, elapsed: nat) returns (row: Document)
      requires Valid()
      modifies this
      ensures Valid()
      ensures row == Document(old(nextDocumentId), doc.title, doc.filename, doc.fileType, doc.url, old(clock) + elapsed)
      ensures documents == old(documents) + [row] && nextDocumentId == old(nextDocumentId) + 1
      ensures row in Documents() && Latest(documents, DocumentCreatedAt, row)
      ensures clock == old(clock) + elapsed
      ensures users == old(users) && accessKeys == old(accessKeys)
      ensures nextUserId == old(nextUserId) && nextAccessKeyId == old(nextAccessKeyId)
    {
      var stamped := Document(nextDocumentId, doc.title, doc.filename, doc.fileType, doc.url, clock + elapsed);
      InsertDocumentKeepsTables(users, documents, accessKeys, nextUserId, nextDocumentId, nextAccessKeyId, clock, stamped);
      documents := documents + [stamped];
      nextDocumentId := nextDocumentId + 1;
      clock := clock + elapsed;
      row := stamped;
    }

    /** `deleteDocument`: a hard delete of the one row with this id; a missing id changes nothing. */
    method DeleteDocument(id: int)
      requires Valid()
      modifies this
      ensures Valid()
      ensures documents == RemoveBy(old(documents), DocumentId, id)
      ensures GetDocument(id).None?
      ensures forall d :: d in old(documents) && d.id != id ==> d in documents
      ensures |documents| == |old(documents)| - (if old(GetDocument(id)).Some? then 1 else 0)
      ensures old(GetDocument(id)).None? ==> documents == old(documents)
      ensures users == old(users) && accessKeys == old(accessKeys)
      ensures nextUserId == old(nextUserId) && nextDocumentId == old(nextDocumentId)
      ensures nextAccessKeyId == old(nextAccessKeyId) && clock == old(clock)
    {
      RemoveByCount(documents, DocumentId, id);
      RemoveByKeepsUnique(documents, DocumentId, id, DocumentId);
      RemoveByKeepsChronological(documents, DocumentId, id, DocumentCreatedAt, clock);
      documents := RemoveBy(documents, DocumentId, id);
    }

    // ---- Access keys ----

    /** `getAccessKeys`: every stored key, newest first. */
    function AccessKeys(): (r: seq<AccessKey>)
      reads this
      requires Valid()
      ensures multiset(r) == multiset(accessKeys)
      ensures NewestFirst(r, AccessKeyCreatedAt)
    {
      ReverseIsNewestFirst(accessKeys, AccessKeyCreatedAt, clock);
      Reverse(accessKeys)
    }

    /** `getAccessKey`: the one row whose key equals `key` exactly, or none. */
    function GetAccessKey(key: string): (r: Option<AccessKey>)
      reads this
      requires Valid()
      ensures r.Some? ==> r.value in accessKeys && r.value.key == key
      ensures r.Some? ==> forall k :: k in accessKeys && k.key == key ==> k == r.value
      ensures r.None? ==> forall k :: k in accessKeys ==> k.key != key
    {
      var r := FindBy(accessKeys, AccessKeyValue, key);
      if r.Some? then
        assert forall k :: k in accessKeys && k.key == key ==> k == r.value by {
          forall k | k in accessKeys && k.key == key { UniqueRow(accessKeys, AccessKeyValue, k, r.value); }
        }
        r
      else r
    }

    /**
      `createAccessKey`: fails on a key already stored (the unique
      constraint); otherwise appends one active row with the supplied key and
      label, a fresh id and the current time.
    */
    method CreateAccessKey(input: InsertAccessKey, elapsed: nat) returns (r: Result<AccessKey, StoreError>)
      requires Valid()
      modifies this
      ensures Valid()
      ensures r.Failure? <==> old(GetAccessKey(input.key)).Some?
      ensures r.Failure? ==> r.error == DuplicateAccessKey && unchanged(this)
      ensures r.Success? ==>
        r.value == AccessKey(old(nextAccessKeyId), input.key, input.keyLabel, old(clock) + elapsed, Some(true))
      ensures r.Success? ==> accessKeys == old(accessKeys) + [r.value] && nextAccessKeyId == old(nextAccessKeyId) + 1
      ensures r.Success? ==> clock == old(clock) + elapsed
      ensures r.Success? ==> r.value in AccessKeys() && Latest(accessKeys, AccessKeyCreatedAt, r.value)
      ensures users == old(users) && documents == old(documents)
      ensures nextUserId == old(nextUserId) && nextDocumentId == old(nextDocumentId)
    {
      if GetAccessKey(input.key).Some? {
        return Failure(DuplicateAccessKey);
      }
      var row := AccessKey(nextAccessKeyId, input.key, input.keyLabel, clock + elapsed, Some(true));
      InsertAccessKeyKeepsTables(users, documents, accessKeys, nextUserId, nextDocumentId, nextAccessKeyId, clock, row);
      accessKeys := accessKeys + [row];
      nextAccessKeyId := nextAccessKeyId + 1;
      clock := clock + elapsed;
      r := Success(row);
    }

    /** `deleteAccessKey`: a hard delete of the one row with this id; a missing id changes nothing. */
    method DeleteAccessKey(id: int)
      requires Valid()
      modifies this
      ensures Valid()
      ensures accessKeys == RemoveBy(old(accessKeys), AccessKeyId, id)
      ensures forall k :: k in old(accessKeys) && k.id != id ==> k in accessKeys
      ensures forall k :: k in accessKeys ==> k.id != id
      ensures forall k :: k in old(accessKeys) && k.id == id ==> GetAccessKey(k.key).None?
      ensures |accessKeys| == |old(accessKeys)| - (if FindBy(old(accessKeys), AccessKeyId, id).Some? then 1 else 0)
      ensures users == old(users) && documents == old(documents)
      ensures nextUserId == old(nextUserId) && nextDocumentId == old(nextDocumentId)
      ensures nextAccessKeyId == old(nextAccessKeyId) && clock == old(clock)
    {
      RemoveByCount(accessKeys, AccessKeyId, id);
      RemoveByKeepsUnique(accessKeys, AccessKeyId, id, AccessKeyId);
      RemoveByKeepsUnique(accessKeys, AccessKeyId, id, AccessKeyValue);
      RemoveByKeepsChronological(accessKeys, AccessKeyId, id, AccessKeyCreatedAt, clock);
      accessKeys := RemoveBy(accessKeys, AccessKeyId, id);
    }
  }
}
