/**
 * The rows of the account database (`users`, `auth_tokens`,
 * `password_reset_tokens`, `auth_provider`), the `User` value the store hands
 * out, and the SQL statements the store issues, written as functions on
 * sequences of rows. A table is a sequence in rowid order, so "the row a
 * `SELECT ... WHERE` returns" is the first row that satisfies the condition.
 */
module Tables {
  import opened Wrappers

  // ---------------------------------------------------------------------------
  // Constants

  /** Session tokens live this many days (`AUTH_TOKEN_DURATION_DAYS`). */
  const AuthTokenDurationDays: int := 300
  const MillisPerDay: int := 86400000
  const MillisPerHour: int := 3600000
  /** `addDays(now, 300)`, taken as a fixed number of milliseconds. */
  const AuthTokenLifetime: int := AuthTokenDurationDays * MillisPerDay
  /** `addHours(now, 5)`. */
  const ResetTokenLifetime: int := 5 * MillisPerHour

  /** The text `randomBytes(30).toString('hex')` produces: 60 lower-case hex digits. */
  predicate IsRandomToken(t: string) {
    |t| == 60 && forall i :: 0 <= i < |t| ==> t[i] in "0123456789abcdef"
  }

  // ---------------------------------------------------------------------------
  // Entities

  /** The `Role` enum; its string values are what the `role` column holds. */
  datatype Role = User | Admin

  function RoleName(r: Role): string {
    match r
    case User => "user"
    case Admin => "admin"
  }

  /** The `AuthProvider` enum; Discord is its only member. */
  datatype AuthProvider = Discord

  /** A row of `users`. The `role` column is free text (default 'user'). */
  datatype UserRow = UserRow(id: int, email: string, passwordHash: string, role: string)

  /** The `User` object handed to callers; it carries no password hash. */
  datatype User = User(id: int, email: string, role: Role)

  /** A row of `auth_tokens`. */
  datatype TokenRow = TokenRow(userId: int, token: string, expirationDate: int)

  /** A row of `password_reset_tokens`. */
  datatype ResetRow = ResetRow(id: int, userId: int, token: string, expirationDate: int)

  /** A row of `auth_provider`. */
  datatype ProviderRow = ProviderRow(userId: int, provider: AuthProvider, accessTokenJson: string)

  /** `User.fromRow`: only the exact text "admin" makes an administrator. */
  function FromRow(row: UserRow): (u: User)
    ensures u.id == row.id && u.email == row.email
    ensures u.role == Role.Admin <==> row.role == "admin"
  {
    User.User(row.id, row.email, if row.role == RoleName(Role.Admin) then Role.Admin else Role.User)
  }

  /** Storing a role by its name and reading the row back gives the role again. */
  lemma FromRowRoundTrip(id: int, email: string, hash: string, r: Role)
    ensures FromRow(UserRow(id, email, hash, RoleName(r))) == User.User(id, email, r)
  {
    match r
    case User => assert RoleName(r) != "admin";
    case Admin =>
  }

  // Column accessors, used as keys of uniqueness constraints.
  function UserId(u: UserRow): int { u.id }
  function UserEmail(u: UserRow): string { u.email }
  function SessionToken(t: TokenRow): string { t.token }
  function ResetRowId(r: ResetRow): int { r.id }
  function ResetOwner(r: ResetRow): int { r.userId }
  function ResetToken(r: ResetRow): string { r.token }
  function LinkKey(p: ProviderRow): (int, AuthProvider) { (p.userId, p.provider) }

  // ---------------------------------------------------------------------------
  // Generic table operations

  /** No two rows agree on `key`: a UNIQUE constraint on that column. */
  ghost predicate DistinctBy<T, K>(s: seq<T>, key: T -> K) {
    forall i, j :: 0 <= i < j < |s| ==> key(s[i]) != key(s[j])
  }

  /** `DELETE FROM t WHERE NOT keep`: the rows that `keep` accepts, in their order. */
  function Filter<T(!new)>(s: seq<T>, keep: T -> bool): (r: seq<T>)
    ensures |r| <= |s|
    ensures forall x :: x in r <==> x in s && keep(x)
  {
    if s == [] then []
    else
      var rest := Filter(s[1..], keep);
      assert forall x :: x in s <==> x == s[0] || x in s[1..];
      if keep(s[0]) then [s[0]] + rest else rest
  }

  /** `UPDATE t SET ... WHERE sel`: each selected row is rewritten by `f`, the others stay. */
  function UpdateWhere<T>(s: seq<T>, sel: T -> bool, f: T -> T): (r: seq<T>)
    ensures |r| == |s|
  {
    seq(|s|, i requires 0 <= i < |s| => if sel(s[i]) then f(s[i]) else s[i])
  }

  /** `SELECT ... WHERE sel` returning one row: the index of the first row `sel` accepts. */
  function FindFirst<T(!new)>(s: seq<T>, sel: T -> bool): (r: Option<nat>)
    ensures r.Some? ==> r.value < |s| && sel(s[r.value])
    ensures r.Some? ==> forall j :: 0 <= j < r.value ==> !sel(s[j])
    ensures r.None? <==> forall x :: x in s ==> !sel(x)
  {
    if s == [] then None
    else if sel(s[0]) then Some(0)
    else
      match FindFirst(s[1..], sel)
      case None => None
      case Some(k) => Some(k + 1)
  }

  /** Deleting rows never breaks a uniqueness constraint. */
  lemma {:induction false} FilterKeepsDistinct<T(!new), K>(s: seq<T>, keep: T -> bool, key: T -> K)
    requires DistinctBy(s, key)
    ensures DistinctBy(Filter(s, keep), key)
  {
    if s != [] {
      var tail := s[1..];
      assert DistinctBy(tail, key) by {
        forall i, j | 0 <= i < j < |tail| ensures key(tail[i]) != key(tail[j]) {
          assert tail[i] == s[i + 1] && tail[j] == s[j + 1];
        }
      }
      FilterKeepsDistinct(tail, keep, key);
      var rest := Filter(tail, keep);
      if keep(s[0]) {
        forall y | y in rest ensures key(y) != key(s[0]) {
          var k :| 0 <= k < |tail| && tail[k] == y;
          assert s[k + 1] == y;
        }
        var r := [s[0]] + rest;
        forall i, j | 0 <= i < j < |r| ensures key(r[i]) != key(r[j]) {
          assert r[j] == rest[j - 1];
          if i > 0 { assert r[i] == rest[i - 1]; }
        }
      }
    }
  }

  /** Deleting nothing: when `keep` accepts every row the table is unchanged. */
  lemma {:induction false} FilterKeepsAll<T(!new)>(s: seq<T>, keep: T -> bool)
    requires forall x :: x in s ==> keep(x)
    ensures Filter(s, keep) == s
  {
    if s != [] {
      assert forall x :: x in s[1..] ==> x in s;
      FilterKeepsAll(s[1..], keep);
      assert [s[0]] + s[1..] == s;
    }
  }

  /** Inserting a row keeps a uniqueness constraint exactly when its key is new. */
  lemma AppendDistinct<T, K>(s: seq<T>, x: T, key: T -> K)
    ensures DistinctBy(s + [x], key) <==> DistinctBy(s, key) && forall y :: y in s ==> key(y) != key(x)
  {
    var r := s + [x];
    assert forall i :: 0 <= i < |s| ==> r[i] == s[i];
    if DistinctBy(s + [x], key) {
      forall y | y in s ensures key(y) != key(x) {
        var i :| 0 <= i < |s| && s[i] == y;
        assert r[i] == y && r[|s|] == x;
      }
    }
    if DistinctBy(s, key) && forall y :: y in s ==> key(y) != key(x) {
      forall i, j | 0 <= i < j < |r| ensures key(r[i]) != key(r[j]) {
        if j == |s| { assert r[j] == x && s[i] in s; }
      }
    }
  }

  /** An update that leaves `key` alone keeps a uniqueness constraint on it. */
  lemma UpdateKeepsDistinct<T, K>(s: seq<T>, sel: T -> bool, f: T -> T, key: T -> K)
    requires DistinctBy(s, key)
    requires forall x :: x in s ==> key(f(x)) == key(x)
    ensures DistinctBy(UpdateWhere(s, sel, f), key)
  {
    var r := UpdateWhere(s, sel, f);
    forall i | 0 <= i < |s| ensures key(r[i]) == key(s[i]) {
      assert s[i] in s;
    }
  }

  /** Under a uniqueness constraint a row is the only one with its key. */
  lemma DistinctOnly<T, K>(s: seq<T>, key: T -> K, x: T)
    requires DistinctBy(s, key) && x in s
    ensures forall y :: y in s && key(y) == key(x) ==> y == x
  {
    var i :| 0 <= i < |s| && s[i] == x;
    forall y | y in s && key(y) == key(x) ensures y == x {
      var j :| 0 <= j < |s| && s[j] == y;
      assert key(s[j]) == key(s[i]);
    }
  }

  // ---------------------------------------------------------------------------
  // The store's SQL statements

  /** `DELETE FROM auth_tokens WHERE expirationDate < now`. */
  function SweepAuthTokens(rows: seq<TokenRow>, now: int): (r: seq<TokenRow>)
    ensures forall t :: t in r <==> t in rows && now <= t.expirationDate
  {
    Filter(rows, (t: TokenRow) => now <= t.expirationDate)
  }

  /** `DELETE FROM password_reset_tokens WHERE expirationDate < now`. */
  function SweepResetTokens(rows: seq<ResetRow>, now: int): (r: seq<ResetRow>)
    ensures forall t :: t in r <==> t in rows && now <= t.expirationDate
  {
    Filter(rows, (t: ResetRow) => now <= t.expirationDate)
  }

  /** `DELETE FROM auth_tokens WHERE user_id = userId`. */
  function DeleteTokensOf(rows: seq<TokenRow>, userId: int): (r: seq<TokenRow>)
    ensures forall t :: t in r <==> t in rows && t.userId != userId
  {
    Filter(rows, (t: TokenRow) => t.userId != userId)
  }

  /** `DELETE FROM auth_tokens WHERE token = token`. */
  function DeleteToken(rows: seq<TokenRow>, token: string): (r: seq<TokenRow>)
    ensures forall t :: t in r <==> t in rows && t.token != token
  {
    Filter(rows, (t: TokenRow) => t.token != token)
  }

  /** `DELETE FROM users WHERE id = id`. */
  function DeleteUserRow(users: seq<UserRow>, id: int): (r: seq<UserRow>)
    ensures forall u :: u in r <==> u in users && u.id != id
  {
    Filter(users, (u: UserRow) => u.id != id)
  }

  /** `DELETE FROM password_reset_tokens WHERE user_id = userId`. */
  function DeleteResetTokensOf(rows: seq<ResetRow>, userId: int): (r: seq<ResetRow>)
    ensures forall t :: t in r <==> t in rows && t.userId != userId
  {
    Filter(rows, (t: ResetRow) => t.userId != userId)
  }

  /** `DELETE FROM password_reset_tokens WHERE id = id`. */
  function DeleteResetRow(rows: seq<ResetRow>, id: int): (r: seq<ResetRow>)
    ensures forall t :: t in r <==> t in rows && t.id != id
  {
    Filter(rows, (t: ResetRow) => t.id != id)
  }

  /** `UPDATE users SET passwordHash = hash WHERE id = id`. */
  function SetPasswordHash(users: seq<UserRow>, id: int, hash: string): (r: seq<UserRow>)
    ensures |r| == |users|
    ensures forall i :: 0 <= i < |r| ==>
      r[i].id == users[i].id && r[i].email == users[i].email && r[i].role == users[i].role &&
      r[i].passwordHash == (if users[i].id == id then hash else users[i].passwordHash)
    ensures forall u :: u in r && u.id == id ==> u.passwordHash == hash
    ensures forall u :: u in users && u.id == id ==> u.(passwordHash := hash) in r
    ensures forall u: UserRow :: u.id != id ==> (u in r <==> u in users)
  {
    UpdateWhere(users, (u: UserRow) => u.id == id, (u: UserRow) => u.(passwordHash := hash))
  }

  /** `UPDATE auth_provider SET access_token_json = json WHERE user_id = userId AND provider = provider`. */
  function SetAccessTokenJson(rows: seq<ProviderRow>, userId: int, provider: AuthProvider, json: string): (r: seq<ProviderRow>)
    ensures |r| == |rows|
    ensures forall i :: 0 <= i < |r| ==>
      LinkKey(r[i]) == LinkKey(rows[i]) &&
      r[i].accessTokenJson == (if LinkKey(rows[i]) == (userId, provider) then json else rows[i].accessTokenJson)
    ensures forall p :: p in r && LinkKey(p) == (userId, provider) ==> p.accessTokenJson == json
    ensures forall p: ProviderRow :: LinkKey(p) != (userId, provider) ==> (p in r <==> p in rows)
    ensures (exists p :: p in rows && LinkKey(p) == (userId, provider)) ==> ProviderRow(userId, provider, json) in r
  {
    UpdateWhere(rows, (p: ProviderRow) => p.userId == userId && p.provider == provider,
                (p: ProviderRow) => p.(accessTokenJson := json))
  }

  // ---------------------------------------------------------------------------
  // Properties of expiry

  /** Sweeping at `a` and then at `b` is one sweep at the later instant. */
  lemma {:induction false} SweepTwice(rows: seq<TokenRow>, a: int, b: int)
    ensures SweepAuthTokens(SweepAuthTokens(rows, a), b) == SweepAuthTokens(rows, if a <= b then b else a)
  {
    if rows != [] {
      SweepTwice(rows[1..], a, b);
    }
  }

  /** A second reset-token sweep at the same instant deletes nothing more. */
  lemma SweepResetTwice(rows: seq<ResetRow>, now: int)
    ensures SweepResetTokens(SweepResetTokens(rows, now), now) == SweepResetTokens(rows, now)
  {
    FilterKeepsAll(SweepResetTokens(rows, now), (t: ResetRow) => now <= t.expirationDate);
  }

  /** A token expiring exactly now survives the sweep; one that expired before does not. */
  lemma SweepBoundary(rows: seq<TokenRow>, t: TokenRow, now: int)
    requires t in rows
    ensures t.expirationDate == now ==> t in SweepAuthTokens(rows, now)
    ensures t.expirationDate < now ==> t !in SweepAuthTokens(rows, now)
  {
  }
}
