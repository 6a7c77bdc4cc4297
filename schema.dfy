/** The SQLite schema (server/database.py): the CHECK domains and DEFAULT
    values of its columns as datatypes and constants, the rows of the
    `users`, `messages`, `corrections` and `documents` tables as records, the
    tables themselves as objects, and the idempotent seeding of users. */
module Schema {
  import opened Common

  // ---- column domains (CHECK constraints) and defaults ----

  /** users.role: CHECK(role IN ('user', 'admin')), DEFAULT 'user'. */
  datatype Role = User | Admin

  function RoleName(r: Role): string
  {
    match r
    case User => "user"
    case Admin => "admin"
  }

  /** The CHECK constraint on users.role: which strings the column admits. */
  function ParseRole(s: string): (r: Option<Role>)
    ensures r.Some? <==> s == "user" || s == "admin"
    ensures r.Some? ==> RoleName(r.value) == s
  {
    if s == "user" then Some(User) else if s == "admin" then Some(Admin) else None
  }

  /** corrections.status: CHECK(status IN ('pending','approved','rejected','superseded')),
      DEFAULT 'pending'. */
  datatype CorrectionStatus = Pending | Approved | Rejected | Superseded

  const DefaultStatus: CorrectionStatus := Pending

  function StatusName(s: CorrectionStatus): string
  {
    match s
    case Pending => "pending"
    case Approved => "approved"
    case Rejected => "rejected"
    case Superseded => "superseded"
  }

  function ParseStatus(s: string): (r: Option<CorrectionStatus>)
    ensures r.Some? <==> s in {"pending", "approved", "rejected", "superseded"}
    ensures r.Some? ==> StatusName(r.value) == s
  {
    if s == "pending" then Some(Pending)
    else if s == "approved" then Some(Approved)
    else if s == "rejected" then Some(Rejected)
    else if s == "superseded" then Some(Superseded)
    else None
  }

  /** documents.store_type: CHECK(store_type IN ('primary', 'correction')),
      DEFAULT 'primary'. */
  datatype StoreType = Primary | Correction

  function StoreTypeName(t: StoreType): string
  {
    match t
    case Primary => "primary"
    case Correction => "correction"
  }

  function ParseStoreType(s: string): (r: Option<StoreType>)
    ensures r.Some? <==> s == "primary" || s == "correction"
    ensures r.Some? ==> StoreTypeName(r.value) == s
  {
    if s == "primary" then Some(Primary) else if s == "correction" then Some(Correction) else None
  }

  /** The names are distinct, so each domain is in one-to-one correspondence
      with the strings its CHECK constraint admits. */
  lemma NamesRoundTrip(r: Role, s: CorrectionStatus, t: StoreType)
    ensures ParseRole(RoleName(r)) == Some(r)
    ensures ParseStatus(StatusName(s)) == Some(s)
    ensures ParseStoreType(StoreTypeName(t)) == Some(t)
  {
  }

  /** messages.role: CHECK(role IN ('user', 'assistant')). */
  datatype MessageRole = FromUser | FromAssistant

  function MessageRoleName(r: MessageRole): string
  {
    match r
    case FromUser => "user"
    case FromAssistant => "assistant"
  }

  // ---- rows ----

  datatype UserRow = UserRow(id: string, username: string, passwordHash: string, role: Role)

  datatype MessageRow = MessageRow(role: MessageRole, content: string)

  datatype CorrectionRow = CorrectionRow(
    id: string,
    sessionId: string,
    submittedBy: string,
    status: CorrectionStatus,
    originalQuestion: string,
    aiWrongAnswer: string,
    userCorrection: string,
    extractedFact: string,
    confidence: real,
    correctionText: string,
    storeDocumentName: Option<string>,
    reviewedBy: Option<string>,
    reviewedAt: Option<string>,
    rejectReason: Option<string>,
    createdAt: string)

  datatype DocumentRow = DocumentRow(
    id: string,
    fileName: string,
    displayName: string,
    versionGroup: string,
    versionDate: string,
    isLatest: bool,
    storeName: string,
    storeType: StoreType,
    uploadedBy: Option<string>)

  /** A primary key: no two rows share an id. */
  ghost predicate UniqueDocumentIds(rows: seq<DocumentRow>)
  {
    forall i, j :: 0 <= i < j < |rows| ==> rows[i].id != rows[j].id
  }

  ghost predicate IdFree(rows: seq<DocumentRow>, id: string)
  {
    forall j :: 0 <= j < |rows| ==> rows[j].id != id
  }

  /** Generated ids (`uuid4` based) are distinct and new to the table. */
  ghost predicate FreshIds(rows: seq<DocumentRow>, ids: seq<string>)
  {
    && (forall k :: 0 <= k < |ids| ==> IdFree(rows, ids[k]))
    && (forall k, l :: 0 <= k < l < |ids| ==> ids[k] != ids[l])
  }

  ghost predicate UniqueCorrectionIds(rows: seq<CorrectionRow>)
  {
    forall i, j :: 0 <= i < j < |rows| ==> rows[i].id != rows[j].id
  }

  // ---- tables ----

  /** The `documents` table, rows in rowid order. */
  class DocumentTable {
    var rows: seq<DocumentRow>

    ghost predicate Valid()
      reads this
    {
      UniqueDocumentIds(rows)
    }

    constructor ()
      ensures Valid() && rows == []
    {
      rows := [];
    }
  }

  /** The `corrections` table, rows in insertion order. */
  class CorrectionTable {
    var rows: seq<CorrectionRow>

    ghost predicate Valid()
      reads this
    {
      UniqueCorrectionIds(rows)
    }

    constructor ()
      ensures Valid() && rows == []
    {
      rows := [];
    }
  }

  // ---- users and their seeding ----

  /** An account `init_db` inserts when it is not there yet. */
  datatype SeedUser = SeedUser(id: string, username: string, password: string, role: Role)

  const SeedUsers: seq<SeedUser> := [
    SeedUser("admin_001", "admin", "admin123", Admin),
    SeedUser("user_001", "user", "user123", User)
  ]

  /** Inserting `u` violates `id PRIMARY KEY` or `username UNIQUE`. */
  predicate Conflicts(users: seq<UserRow>, u: UserRow)
  {
    exists i :: 0 <= i < |users| && (users[i].id == u.id || users[i].username == u.username)
  }

  ghost predicate UniqueUsers(users: seq<UserRow>)
  {
    forall i, j :: 0 <= i < j < |users| ==> users[i].id != users[j].id && users[i].username != users[j].username
  }

  /** One seeding step: the INSERT, or nothing when it raises IntegrityError. */
  function InsertIfFree(users: seq<UserRow>, u: UserRow): (r: seq<UserRow>)
    ensures Conflicts(r, u)
    ensures UniqueUsers(users) ==> UniqueUsers(r)
  {
    if Conflicts(users, u) then users
    else
      var r := users + [u];
      assert r[|users|] == u;
      r
  }

  function SeedRow(s: SeedUser, hash: string): UserRow
  {
    UserRow(s.id, s.username, hash, s.role)
  }

  /** The seeding loop of `init_db`, one fresh password hash per seed. */
  function SeedAll(users: seq<UserRow>, seeds: seq<SeedUser>, hashes: seq<string>): seq<UserRow>
    requires |hashes| == |seeds|
    decreases |seeds|
  {
    if seeds == [] then users
    else SeedAll(InsertIfFree(users, SeedRow(seeds[0], hashes[0])), seeds[1..], hashes[1..])
  }

  lemma {:induction false} ConflictsGrow(users: seq<UserRow>, extra: seq<UserRow>, u: UserRow)
    requires Conflicts(users, u)
    ensures Conflicts(users + extra, u)
  {
    var i :| 0 <= i < |users| && (users[i].id == u.id || users[i].username == u.username);
    assert (users + extra)[i] == users[i];
  }

  /** Seeding only appends and keeps the keys unique. */
  lemma {:induction false} SeedAllExtends(users: seq<UserRow>, seeds: seq<SeedUser>, hashes: seq<string>)
    requires |hashes| == |seeds|
    decreases |seeds|
    ensures users <= SeedAll(users, seeds, hashes)
    ensures UniqueUsers(users) ==> UniqueUsers(SeedAll(users, seeds, hashes))
  {
    if seeds != [] {
      var u := InsertIfFree(users, SeedRow(seeds[0], hashes[0]));
      assert users <= u;
      SeedAllExtends(u, seeds[1..], hashes[1..]);
    }
  }

  /** Afterwards every seed account (by id or username) is present. */
  lemma {:induction false} SeedAllCovers(users: seq<UserRow>, seeds: seq<SeedUser>, hashes: seq<string>)
    requires |hashes| == |seeds|
    decreases |seeds|
    ensures forall k :: 0 <= k < |seeds| ==> Conflicts(SeedAll(users, seeds, hashes), SeedRow(seeds[k], hashes[k]))
  {
    if seeds != [] {
      var first := SeedRow(seeds[0], hashes[0]);
      var u := InsertIfFree(users, first);
      var r := SeedAll(u, seeds[1..], hashes[1..]);
      assert SeedAll(users, seeds, hashes) == r;
      SeedAllCovers(u, seeds[1..], hashes[1..]);
      SeedAllExtends(u, seeds[1..], hashes[1..]);
      assert u + r[|u|..] == r;
      ConflictsGrow(u, r[|u|..], first);
      forall k | 0 < k < |seeds| ensures Conflicts(r, SeedRow(seeds[k], hashes[k])) {
        assert seeds[1..][k - 1] == seeds[k] && hashes[1..][k - 1] == hashes[k];
      }
    }
  }

  /** Conflicts depend on the id and username only, not on the hash. */
  lemma SeedConflictIgnoresHash(users: seq<UserRow>, s: SeedUser, h1: string, h2: string)
    ensures Conflicts(users, SeedRow(s, h1)) == Conflicts(users, SeedRow(s, h2))
  {
  }

  lemma {:induction false} SeedNothingNew(users: seq<UserRow>, seeds: seq<SeedUser>, hashes: seq<string>)
    requires |hashes| == |seeds|
    requires forall k :: 0 <= k < |seeds| ==> Conflicts(users, SeedRow(seeds[k], hashes[k]))
    decreases |seeds|
    ensures SeedAll(users, seeds, hashes) == users
  {
    if seeds != [] {
      forall k | 0 <= k < |seeds[1..]| ensures Conflicts(users, SeedRow(seeds[1..][k], hashes[1..][k])) {
        assert seeds[1..][k] == seeds[k + 1] && hashes[1..][k] == hashes[k + 1];
      }
      SeedNothingNew(users, seeds[1..], hashes[1..]);
    }
  }

  /** Running `init_db` a second time (with new hashes) leaves the same users. */
  lemma SeedIdempotent(users: seq<UserRow>, seeds: seq<SeedUser>, h1: seq<string>, h2: seq<string>)
    requires |h1| == |seeds| && |h2| == |seeds|
    ensures SeedAll(SeedAll(users, seeds, h1), seeds, h2) == SeedAll(users, seeds, h1)
  {
    var r := SeedAll(users, seeds, h1);
    SeedAllCovers(users, seeds, h1);
    forall k | 0 <= k < |seeds| ensures Conflicts(r, SeedRow(seeds[k], h2[k])) {
      SeedConflictIgnoresHash(r, seeds[k], h1[k], h2[k]);
    }
    SeedNothingNew(r, seeds, h2);
  }

  /** The `users` table. */
  class UserTable {
    var users: seq<UserRow>

    ghost predicate Valid()
      reads this
    {
      UniqueUsers(users)
    }

    constructor ()
      ensures Valid() && users == []
    {
      users := [];
    }

    /** `init_db`'s seeding loop: each INSERT that would break a key is skipped. */
    method Seed(hashes: seq<string>)
      requires Valid()
      requires |hashes| == |SeedUsers|
      modifies this
      ensures Valid()
      ensures users == SeedAll(old(users), SeedUsers, hashes)
    {
      var i := 0;
      while i < |SeedUsers|
        invariant 0 <= i <= |SeedUsers|
        invariant UniqueUsers(users)
        invariant SeedAll(users, SeedUsers[i..], hashes[i..]) == SeedAll(old(users), SeedUsers, hashes)
      {
        var s := SeedUsers[i];
        var row := UserRow(s.id, s.username, hashes[i], s.role);
        if !Conflicts(users, row) {
          users := users + [row];
        }
        assert SeedUsers[i..][1..] == SeedUsers[i + 1..] && hashes[i..][1..] == hashes[i + 1..];
        i := i + 1;
      }
    }
  }
}
