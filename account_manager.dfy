/**
 * The account manager: one process-wide database handle over four tables, and
 * the exported functions that run short sequences of statements against them.
 *
 * The handle `db` is the flag `open`; the tables and the AUTOINCREMENT counters
 * are fields. The clock (`Date.now()`), the random token generator and the
 * bcrypt hash are inputs: `now` in epoch milliseconds, `token` a 60-digit hex
 * string, `hash` a value the password comparison `matches` accepts.
 */
module AccountManager {
  import opened Wrappers
  import opened Tables

  /** The contents of the database file: the tables and the next AUTOINCREMENT ids. */
  datatype Db = Db(
    users: seq<UserRow>,
    authTokens: seq<TokenRow>,
    resetTokens: seq<ResetRow>,
    providers: seq<ProviderRow>,
    nextUserId: int,
    nextResetId: int)

  /** bcrypt refuses the empty string as a hash, so no password matches it. */
  ghost predicate RejectsEmptyHash(matches: (string, string) -> bool) {
    forall pw: string :: !matches(pw, "")
  }

  /**
   * An account created without a password (hash "") cannot log in with any
   * password: no user with its email has a hash the password matches.
   */
  lemma PasswordlessCannotLogIn(matches: (string, string) -> bool, d: Db, u: UserRow, password: string)
    requires RejectsEmptyHash(matches) && TablesValid(d)
    requires u in d.users && u.passwordHash == ""
    ensures !exists v :: v in d.users && v.email == u.email && matches(password, v.passwordHash)
  {
    DistinctOnly(d.users, UserEmail, u);
    forall v | v in d.users && v.email == u.email ensures !matches(password, v.passwordHash) {
      assert UserEmail(v) == UserEmail(u);
    }
  }

  /**
   * What every operation keeps true of the tables: ids are below their counters;
   * user ids, user emails, reset-token ids, reset-token owners and the tokens of
   * both token tables are unique; stored tokens have the random-token shape.
   * Token uniqueness rests on the assumption that 240 random bits never repeat.
   */
  ghost predicate TablesValid(d: Db) {
    (forall u :: u in d.users ==> u.id < d.nextUserId) &&
    (forall t :: t in d.resetTokens ==> t.id < d.nextResetId) &&
    DistinctBy(d.users, UserId) && DistinctBy(d.users, UserEmail) &&
    DistinctBy(d.authTokens, SessionToken) &&
    DistinctBy(d.resetTokens, ResetRowId) && DistinctBy(d.resetTokens, ResetOwner) &&
    DistinctBy(d.resetTokens, ResetToken) &&
    (forall t :: t in d.authTokens ==> IsRandomToken(t.token)) &&
    (forall t :: t in d.resetTokens ==> IsRandomToken(t.token))
  }

  ghost predicate EmailTaken(users: seq<UserRow>, email: string) {
    exists u :: u in users && u.email == email
  }

  ghost predicate UserExists(users: seq<UserRow>, id: int) {
    exists u :: u in users && u.id == id
  }

  ghost predicate LinkExists(providers: seq<ProviderRow>, userId: int, provider: AuthProvider) {
    exists p :: p in providers && LinkKey(p) == (userId, provider)
  }

  /** `row` owns a session token `token` that has not expired at `now`. */
  ghost predicate Resolves(d: Db, token: string, now: int, row: UserRow) {
    row in d.users &&
    exists t :: t in d.authTokens && t.token == token && now <= t.expirationDate && t.userId == row.id
  }

  /** A reset token `token` is stored and has not expired at `now`. */
  ghost predicate LiveResetToken(rows: seq<ResetRow>, token: string, now: int) {
    exists t :: t in rows && t.token == token && now <= t.expirationDate
  }

  /** A live reset token `token` belongs to a user whose email is exactly `email`. */
  ghost predicate ResetAuthorizes(d: Db, token: string, email: string, now: int) {
    exists t :: t in d.resetTokens && t.token == token && now <= t.expirationDate &&
      exists u :: u in d.users && u.id == t.userId && u.email == email
  }

  /** Replacing a user's reset token by a fresh one keeps the table invariant. */
  lemma ReplaceResetTokenKeepsValid(d: Db, userId: int, token: string, now: int)
    requires TablesValid(d)
    requires IsRandomToken(token) && forall t :: t in d.resetTokens ==> t.token != token
    ensures TablesValid(d.(
      resetTokens := DeleteResetTokensOf(d.resetTokens, userId)
                     + [ResetRow(d.nextResetId, userId, token, now + ResetTokenLifetime)],
      nextResetId := d.nextResetId + 1))
  {
    var rest := DeleteResetTokensOf(d.resetTokens, userId);
    var row := ResetRow(d.nextResetId, userId, token, now + ResetTokenLifetime);
    FilterKeepsDistinct(d.resetTokens, (t: ResetRow) => t.userId != userId, ResetRowId);
    FilterKeepsDistinct(d.resetTokens, (t: ResetRow) => t.userId != userId, ResetOwner);
    FilterKeepsDistinct(d.resetTokens, (t: ResetRow) => t.userId != userId, ResetToken);
    AppendDistinct(rest, row, ResetRowId);
    AppendDistinct(rest, row, ResetOwner);
    AppendDistinct(rest, row, ResetToken);
    assert forall t :: t in rest + [row] ==> t in rest || t == row;
  }

  /**
   * The reset tables after a reset request by `u` for `token`: the new token
   * authorizes `u`'s email, it is the only reset token `u` holds, and no other
   * token authorizes `u`'s email any more.
   */
  lemma ResetRequestSupersedes(d: Db, u: UserRow, token: string, now: int)
    requires TablesValid(d) && u in d.users
    ensures var d' := d.(
              resetTokens := DeleteResetTokensOf(SweepResetTokens(d.resetTokens, now), u.id)
                             + [ResetRow(d.nextResetId, u.id, token, now + ResetTokenLifetime)],
              nextResetId := d.nextResetId + 1);
            ResetAuthorizes(d', token, u.email, now) &&
            (forall t :: t in d'.resetTokens && t.userId == u.id ==> t.token == token) &&
            (forall t :: t in d'.resetTokens ==> t in d.resetTokens || t.token == token) &&
            (forall other :: other != token ==> !ResetAuthorizes(d', other, u.email, now))
  {
    var row := ResetRow(d.nextResetId, u.id, token, now + ResetTokenLifetime);
    var rest := DeleteResetTokensOf(SweepResetTokens(d.resetTokens, now), u.id);
    var d' := d.(resetTokens := rest + [row], nextResetId := d.nextResetId + 1);
    assert forall t :: t in d'.resetTokens ==> t in rest || t == row;
    assert row in d'.resetTokens;
    DistinctOnly(d.users, UserEmail, u);
    forall t, v | t in d'.resetTokens && v in d.users && v.id == t.userId && v.email == u.email
      ensures t.token == token
    {
      assert UserEmail(v) == UserEmail(u);
    }
  }

  /** Under the invariant, a session token resolves to at most one user. */
  lemma ResolvesOnly(d: Db, token: string, now: int, row: UserRow, other: UserRow)
    requires TablesValid(d) && Resolves(d, token, now, row) && Resolves(d, token, now, other)
    ensures other == row
  {
    var t :| t in d.authTokens && t.token == token && now <= t.expirationDate && t.userId == row.id;
    var t' :| t' in d.authTokens && t'.token == token && now <= t'.expirationDate && t'.userId == other.id;
    DistinctOnly(d.authTokens, SessionToken, t);
    assert SessionToken(t') == SessionToken(t);
    DistinctOnly(d.users, UserId, row);
    assert UserId(other) == UserId(row);
  }

  /** Under the invariant, a reset token authorizes at most one email. */
  lemma ResetAuthorizesOneEmail(d: Db, token: string, email: string, other: string, now: int)
    requires TablesValid(d) && ResetAuthorizes(d, token, email, now) && other != email
    ensures !ResetAuthorizes(d, token, other, now)
  {
    var t :| t in d.resetTokens && t.token == token && now <= t.expirationDate &&
      exists u :: u in d.users && u.id == t.userId && u.email == email;
    var u :| u in d.users && u.id == t.userId && u.email == email;
    DistinctOnly(d.resetTokens, ResetToken, t);
    DistinctOnly(d.users, UserId, u);
    forall t', v | t' in d.resetTokens && t'.token == token && v in d.users && v.id == t'.userId
      ensures v.email == email
    {
      assert ResetToken(t') == ResetToken(t);
      assert UserId(v) == UserId(u);
    }
  }

  /** Setting one user's hash and consuming one reset row keeps the table invariant. */
  lemma ResetPasswordKeepsValid(d: Db, t: ResetRow, newHash: string)
    requires TablesValid(d)
    ensures TablesValid(d.(
      users := SetPasswordHash(d.users, t.userId, newHash),
      resetTokens := DeleteResetRow(d.resetTokens, t.id)))
  {
    UpdateKeepsDistinct(d.users, (u: UserRow) => u.id == t.userId,
                        (u: UserRow) => u.(passwordHash := newHash), UserId);
    UpdateKeepsDistinct(d.users, (u: UserRow) => u.id == t.userId,
                        (u: UserRow) => u.(passwordHash := newHash), UserEmail);
    FilterKeepsDistinct(d.resetTokens, (r: ResetRow) => r.id != t.id, ResetRowId);
    FilterKeepsDistinct(d.resetTokens, (r: ResetRow) => r.id != t.id, ResetOwner);
    FilterKeepsDistinct(d.resetTokens, (r: ResetRow) => r.id != t.id, ResetToken);
    var users' := SetPasswordHash(d.users, t.userId, newHash);
    forall u | u in users' ensures u.id < d.nextUserId {
      var i :| 0 <= i < |users'| && users'[i] == u;
      assert d.users[i] in d.users;
    }
  }

  /** Under the invariant, a reset token authorizes an email only if it is that account's own token. */
  lemma ResetAuthorizesOnlyOwnToken(d: Db, u: UserRow, token: string, now: int)
    requires TablesValid(d) && u in d.users
    requires ResetAuthorizes(d, token, u.email, now)
    ensures exists t :: t in d.resetTokens && t.userId == u.id && t.token == token && now <= t.expirationDate
  {
    var t :| t in d.resetTokens && t.token == token && now <= t.expirationDate &&
      exists v :: v in d.users && v.id == t.userId && v.email == u.email;
    var v :| v in d.users && v.id == t.userId && v.email == u.email;
    DistinctOnly(d.users, UserEmail, u);
    assert UserEmail(v) == UserEmail(u);
  }

  class AccountStore {
    /** `bcrypt.compare(password, hash)`. */
    const matches: (string, string) -> bool

    /** `db !== undefined`. */
    var open: bool
    var users: seq<UserRow>
    var authTokens: seq<TokenRow>
    var resetTokens: seq<ResetRow>
    var providers: seq<ProviderRow>
    var nextUserId: int
    var nextResetId: int

    ghost function State(): Db
      reads this
    {
      Db(users, authTokens, resetTokens, providers, nextUserId, nextResetId)
    }

    ghost predicate Valid()
      reads this
    {
      TablesValid(State())
    }

    /** At most one `auth_provider` row per (user, provider). */
    ghost predicate LinksUnique()
      reads this
    {
      DistinctBy(providers, LinkKey)
    }

    /** The process starts with `db` undefined over an existing database file `d`. */
    constructor (matches: (string, string) -> bool, d: Db)
      requires TablesValid(d)
      ensures Valid() && !open && State() == d && this.matches == matches
    {
      this.matches := matches;
      open := false;
      users, authTokens, resetTokens, providers := d.users, d.authTokens, d.resetTokens, d.providers;
      nextUserId, nextResetId := d.nextUserId, d.nextResetId;
    }

    // -------------------------------------------------------------------------
    // Lifecycle

    /** `openDatabase`: a second open is a no-op; tables are created only if missing. */
    method OpenDatabase()
      modifies this
      ensures open && State() == old(State())
    {
      if open { return; }
      open := true;
    }

    /** `closeDatabase`: closing a closed store is a no-op; the file keeps its rows. */
    method CloseDatabase()
      modifies this
      ensures !open && State() == old(State())
    {
      if !open { return; }
      open := false;
    }

    // -------------------------------------------------------------------------
    // Single-row queries (`db.get`), each on a column the invariant keeps unique

    /** `SELECT * FROM users WHERE email = ?`. */
    method SelectUserByEmail(email: string) returns (row: Option<UserRow>)
      requires Valid() && open
      ensures row.None? <==> !EmailTaken(users, email)
      ensures row.Some? ==> row.value in users && row.value.email == email
      ensures row.Some? ==> forall v :: v in users && v.email == email ==> v == row.value
    {
      var found := FindFirst(users, (u: UserRow) => u.email == email);
      if found.None? { return None; }
      row := Some(users[found.value]);
      DistinctOnly(users, UserEmail, row.value);
    }

    /** `SELECT * FROM users WHERE id = ?`. */
    method SelectUserById(id: int) returns (row: Option<UserRow>)
      requires Valid() && open
      ensures row.None? <==> !UserExists(users, id)
      ensures row.Some? ==> row.value in users && row.value.id == id
      ensures row.Some? ==> forall v :: v in users && v.id == id ==> v == row.value
    {
      var found := FindFirst(users, (u: UserRow) => u.id == id);
      if found.None? { return None; }
      row := Some(users[found.value]);
      DistinctOnly(users, UserId, row.value);
    }

    /** `SELECT * FROM auth_tokens WHERE token = ?`. */
    method SelectAuthToken(token: string) returns (row: Option<TokenRow>)
      requires Valid() && open
      ensures row.None? <==> forall t :: t in authTokens ==> t.token != token
      ensures row.Some? ==> row.value in authTokens && row.value.token == token
      ensures row.Some? ==> forall t :: t in authTokens && t.token == token ==> t == row.value
    {
      var found := FindFirst(authTokens, (t: TokenRow) => t.token == token);
      if found.None? { return None; }
      row := Some(authTokens[found.value]);
      DistinctOnly(authTokens, SessionToken, row.value);
    }

    /** `SELECT * FROM password_reset_tokens WHERE token = ?`. */
    method SelectResetToken(token: string) returns (row: Option<ResetRow>)
      requires Valid() && open
      ensures row.None? <==> forall t :: t in resetTokens ==> t.token != token
      ensures row.Some? ==> row.value in resetTokens && row.value.token == token
      ensures row.Some? ==> forall t :: t in resetTokens && t.token == token ==> t == row.value
    {
      var found := FindFirst(resetTokens, (t: ResetRow) => t.token == token);
      if found.None? { return None; }
      row := Some(resetTokens[found.value]);
      DistinctOnly(resetTokens, ResetToken, row.value);
    }

    // -------------------------------------------------------------------------
    // Users

    /**
     * `createUser`: refuses a closed store and an email that is already taken;
     * otherwise inserts one user with the next id, role "user", and the supplied
     * bcrypt hash of the password or "" when there is no password.
     */
    method CreateUser(email: string, password: Option<string>, hash: string) returns (u: Option<User>)
      requires Valid()
      requires password.Some? ==> matches(password.value, hash)
      modifies this
      ensures Valid() && open == old(open)
      ensures u.None? <==> !old(open) || EmailTaken(old(users), email)
      ensures u.None? ==> State() == old(State())
      ensures u.Some? ==>
        u.value == User.User(old(nextUserId), email, Role.User) &&
        !UserExists(old(users), u.value.id) &&
        State() == old(State()).(
          users := old(users) + [UserRow(old(nextUserId), email, if password.Some? then hash else "", "user")],
          nextUserId := old(nextUserId) + 1)
    {
      if !open { return None; }
      var found := FindFirst(users, (r: UserRow) => r.email == email);
      if found.Some? {
        assert users[found.value] in users;
        return None;
      }
      var passwordHash := if password.Some? then hash else "";
      var row := UserRow(nextUserId, email, passwordHash, RoleName(Role.User));
      AppendDistinct(users, row, UserId);
      AppendDistinct(users, row, UserEmail);
      users := users + [row];
      nextUserId := nextUserId + 1;
      u := Some(FromRow(row));
    }

    /** `getUserByEmail`: the user whose email is exactly `email`, if the store is open. */
    method GetUserByEmail(email: string) returns (u: Option<User>)
      requires Valid()
      ensures u.Some? <==> open && EmailTaken(users, email)
      ensures u.Some? ==> exists row :: row in users && row.email == email && u.value == FromRow(row)
    {
      if !open { return None; }
      var row := SelectUserByEmail(email);
      if row.None? { return None; }
      u := Some(FromRow(row.value));
    }

    /**
     * `deleteUser`: removes the user and its session tokens, and nothing else:
     * its reset tokens and provider links stay. There is no open check in the
     * source, so on a closed store the call fails (`ok` is false).
     */
    method DeleteUser(id: int) returns (ok: bool)
      requires Valid()
      modifies this
      ensures Valid() && open == old(open)
      ensures ok == old(open)
      ensures !ok ==> State() == old(State())
      ensures ok ==> State() == old(State()).(
        users := DeleteUserRow(old(users), id),
        authTokens := DeleteTokensOf(old(authTokens), id))
    {
      if !open { return false; }
      FilterKeepsDistinct(authTokens, (t: TokenRow) => t.userId != id, SessionToken);
      FilterKeepsDistinct(users, (u: UserRow) => u.id != id, UserId);
      FilterKeepsDistinct(users, (u: UserRow) => u.id != id, UserEmail);
      authTokens := DeleteTokensOf(authTokens, id);
      users := DeleteUserRow(users, id);
      ok := true;
    }

    // -------------------------------------------------------------------------
    // Session tokens

    /**
     * `generateAuthToken`: appends one session token for `userId`, valid for 300
     * days, and returns it with its expiry. Existing tokens stay, and the user
     * id is not checked.
     */
    method GenerateAuthToken(userId: int, token: string, now: int) returns (r: Option<(string, int)>)
      requires Valid()
      requires IsRandomToken(token) && forall t :: t in authTokens ==> t.token != token
      modifies this
      ensures Valid() && open == old(open)
      ensures !old(open) ==> r.None? && State() == old(State())
      ensures old(open) ==>
        r == Some((token, now + AuthTokenLifetime)) &&
        State() == old(State()).(authTokens := old(authTokens) + [TokenRow(userId, token, now + AuthTokenLifetime)])
    {
      if !open { return None; }
      var expirationDate := now + AuthTokenLifetime;
      var row := TokenRow(userId, token, expirationDate);
      AppendDistinct(authTokens, row, SessionToken);
      authTokens := authTokens + [row];
      r := Some((token, expirationDate));
    }

    /**
     * `checkCredentialsAndGenerateAuthToken`: issues a session token exactly
     * when the user with that email exists and the password matches its hash.
     */
    method CheckCredentialsAndGenerateAuthToken(email: string, password: string, token: string, now: int)
      returns (r: Option<(string, int)>)
      requires Valid()
      requires IsRandomToken(token) && forall t :: t in authTokens ==> t.token != token
      modifies this
      ensures Valid() && open == old(open)
      ensures r.None? <==>
        !old(open) || !exists u :: u in old(users) && u.email == email && matches(password, u.passwordHash)
      ensures r.None? ==> State() == old(State())
      ensures r.Some? ==>
        r.value == (token, now + AuthTokenLifetime) &&
        forall u :: u in old(users) && u.email == email ==>
          matches(password, u.passwordHash) &&
          State() == old(State()).(authTokens := old(authTokens) + [TokenRow(u.id, token, now + AuthTokenLifetime)])
    {
      if !open { return None; }
      var row := SelectUserByEmail(email);
      if row.None? { return None; }
      if !matches(password, row.value.passwordHash) { return None; }
      r := GenerateAuthToken(row.value.id, token, now);
    }

    /**
     * `getUser`: first deletes every session token that expired strictly before
     * `now`, then returns the owner of the token, if the token survived and its
     * owner still exists.
     */
    method GetUser(authToken: string, now: int) returns (u: Option<User>)
      requires Valid()
      modifies this
      ensures Valid() && open == old(open)
      ensures !old(open) ==> u.None? && State() == old(State())
      ensures old(open) ==> State() == old(State()).(authTokens := SweepAuthTokens(old(authTokens), now))
      ensures u.Some? <==> old(open) && exists row :: Resolves(old(State()), authToken, now, row)
      ensures u.Some? ==> exists row :: Resolves(old(State()), authToken, now, row) && u.value == FromRow(row)
      ensures !IsRandomToken(authToken) ==> u.None?
    {
      if !open { return None; }
      ghost var d := State();
      FilterKeepsDistinct(authTokens, (t: TokenRow) => now <= t.expirationDate, SessionToken);
      authTokens := SweepAuthTokens(authTokens, now);
      var tokenRow := SelectAuthToken(authToken);
      if tokenRow.None? { return None; }
      var ownerId := tokenRow.value.userId;
      var owner := SelectUserById(ownerId);
      if owner.None? {
        assert forall row :: Resolves(d, authToken, now, row) ==> row.id == ownerId;
        return None;
      }
      assert Resolves(d, authToken, now, owner.value);
      u := Some(FromRow(owner.value));
    }

    /** `deleteAuthToken`: revokes a token; revoking an absent token changes nothing. */
    method DeleteAuthToken(token: string) returns (ok: bool)
      requires Valid()
      modifies this
      ensures Valid() && open == old(open)
      ensures ok == old(open)
      ensures !ok ==> State() == old(State())
      ensures ok ==> State() == old(State()).(authTokens := DeleteToken(old(authTokens), token))
      ensures ok && (forall t :: t in old(authTokens) ==> t.token != token) ==> State() == old(State())
    {
      if !open { return false; }
      if forall t :: t in authTokens ==> t.token != token {
        FilterKeepsAll(authTokens, (t: TokenRow) => t.token != token);
      }
      FilterKeepsDistinct(authTokens, (t: TokenRow) => t.token != token, SessionToken);
      authTokens := DeleteToken(authTokens, token);
      ok := true;
    }

    // -------------------------------------------------------------------------
    // Password reset

    /** `deleteExpiredPasswordResetTokens`, called only once the store is known to be open. */
    method DeleteExpiredPasswordResetTokens(now: int)
      requires Valid() && open
      modifies this
      ensures Valid() && open
      ensures State() == old(State()).(resetTokens := SweepResetTokens(old(resetTokens), now))
    {
      FilterKeepsDistinct(resetTokens, (t: ResetRow) => now <= t.expirationDate, ResetRowId);
      FilterKeepsDistinct(resetTokens, (t: ResetRow) => now <= t.expirationDate, ResetOwner);
      FilterKeepsDistinct(resetTokens, (t: ResetRow) => now <= t.expirationDate, ResetToken);
      resetTokens := SweepResetTokens(resetTokens, now);
    }

    /**
     * The tail of `generatePasswordResetToken` for a known user: delete the
     * user's reset token if there is one, then insert the new one.
     */
    method ReplaceResetToken(userId: int, token: string, now: int)
      requires Valid() && open
      requires IsRandomToken(token) && forall t :: t in resetTokens ==> t.token != token
      modifies this
      ensures Valid() && open
      ensures State() == old(State()).(
        resetTokens := DeleteResetTokensOf(old(resetTokens), userId)
                       + [ResetRow(old(nextResetId), userId, token, now + ResetTokenLifetime)],
        nextResetId := old(nextResetId) + 1)
    {
      ReplaceResetTokenKeepsValid(State(), userId, token, now);
      var existing := FindFirst(resetTokens, (t: ResetRow) => t.userId == userId);
      if existing.Some? {
        resetTokens := DeleteResetTokensOf(resetTokens, userId);
      } else {
        FilterKeepsAll(resetTokens, (t: ResetRow) => t.userId != userId);
      }
      resetTokens := resetTokens + [ResetRow(nextResetId, userId, token, now + ResetTokenLifetime)];
      nextResetId := nextResetId + 1;
    }

    /**
     * `generatePasswordResetToken`: sweeps expired reset tokens; for a known
     * email replaces that user's reset token by a new one valid for 5 hours.
     */
    method GeneratePasswordResetToken(email: string, token: string, now: int) returns (r: Option<string>)
      requires Valid()
      requires IsRandomToken(token) && forall t :: t in resetTokens ==> t.token != token
      modifies this
      ensures Valid() && open == old(open)
      ensures !old(open) ==> r.None? && State() == old(State())
      ensures old(open) ==> (r.None? <==> !EmailTaken(old(users), email))
      ensures old(open) && r.None? ==>
        State() == old(State()).(resetTokens := SweepResetTokens(old(resetTokens), now))
      ensures r.Some? ==>
        r.value == token &&
        forall u :: u in old(users) && u.email == email ==>
          State() == old(State()).(
            resetTokens := DeleteResetTokensOf(SweepResetTokens(old(resetTokens), now), u.id)
                           + [ResetRow(old(nextResetId), u.id, token, now + ResetTokenLifetime)],
            nextResetId := old(nextResetId) + 1)
    {
      if !open { return None; }
      DeleteExpiredPasswordResetTokens(now);
      var userRow := SelectUserByEmail(email);
      if userRow.None? { return None; }
      ReplaceResetToken(userRow.value.id, token, now);
      r := Some(token);
    }

    /**
     * `validatePasswordResetCredentials`: after the sweep, true exactly when a
     * live reset token `token` belongs to a user whose email is `email`.
     */
    method ValidatePasswordResetCredentials(token: string, email: string, now: int) returns (b: bool)
      requires Valid()
      modifies this
      ensures Valid() && open == old(open)
      ensures !old(open) ==> State() == old(State())
      ensures old(open) ==> State() == old(State()).(resetTokens := SweepResetTokens(old(resetTokens), now))
      ensures b <==> old(open) && ResetAuthorizes(old(State()), token, email, now)
    {
      if !open { return false; }
      ghost var d := State();
      DeleteExpiredPasswordResetTokens(now);
      var tokenRow := SelectResetToken(token);
      if tokenRow.None? { return false; }
      var userRow := SelectUserById(tokenRow.value.userId);
      if userRow.None? { return false; }
      if userRow.value.email != email { return false; }
      b := true;
    }

    /**
     * `resetPassword`: if a live reset token `token` exists, sets its owner's
     * hash to the new one, deletes that token row and returns true. The `email`
     * argument is not consulted. When the owner no longer exists the update
     * touches no row, but the token is still consumed and the result is true.
     */
    method ResetPassword(token: string, email: string, newPassword: string, newHash: string, now: int)
      returns (b: bool)
      requires Valid()
      requires matches(newPassword, newHash)
      modifies this
      ensures Valid() && open == old(open)
      ensures !old(open) ==> !b && State() == old(State())
      ensures old(open) ==> (b <==> LiveResetToken(old(resetTokens), token, now))
      ensures old(open) && !b ==>
        State() == old(State()).(resetTokens := SweepResetTokens(old(resetTokens), now))
      ensures b ==>
        forall t :: t in old(resetTokens) && t.token == token ==>
          now <= t.expirationDate &&
          State() == old(State()).(
            users := SetPasswordHash(old(users), t.userId, newHash),
            resetTokens := DeleteResetRow(SweepResetTokens(old(resetTokens), now), t.id))
    {
      if !open { return false; }
      DeleteExpiredPasswordResetTokens(now);
      var tokenRow := SelectResetToken(token);
      if tokenRow.None? { return false; }
      assert tokenRow.value in old(resetTokens) && now <= tokenRow.value.expirationDate;
      DistinctOnly(old(resetTokens), ResetToken, tokenRow.value);
      ConsumeResetToken(tokenRow.value, newHash);
      b := true;
    }

    /** The two statements of `resetPassword` for a found row: update the owner's hash, delete the row. */
    method ConsumeResetToken(tokenRow: ResetRow, newHash: string)
      requires Valid() && open
      modifies this
      ensures Valid() && open
      ensures State() == old(State()).(
        users := SetPasswordHash(old(users), tokenRow.userId, newHash),
        resetTokens := DeleteResetRow(old(resetTokens), tokenRow.id))
    {
      ResetPasswordKeepsValid(State(), tokenRow, newHash);
      users := SetPasswordHash(users, tokenRow.userId, newHash);
      resetTokens := DeleteResetRow(resetTokens, tokenRow.id);
    }

    /**
     * `resetPassword` as its parameters and the reset protocol intend it: the
     * token is consumed only when it first passes
     * `validatePasswordResetCredentials`, i.e. its owner's email is `email`.
     */
    method ResetPasswordCheckingEmail(token: string, email: string, newPassword: string, newHash: string, now: int)
      returns (b: bool)
      requires Valid()
      requires matches(newPassword, newHash)
      modifies this
      ensures Valid() && open == old(open)
      ensures !old(open) ==> !b && State() == old(State())
      ensures b <==> old(open) && ResetAuthorizes(old(State()), token, email, now)
      ensures old(open) && !b ==>
        State() == old(State()).(resetTokens := SweepResetTokens(old(resetTokens), now))
      ensures b ==>
        forall t :: t in old(resetTokens) && t.token == token ==>
          now <= t.expirationDate &&
          State() == old(State()).(
            users := SetPasswordHash(old(users), t.userId, newHash),
            resetTokens := DeleteResetRow(SweepResetTokens(old(resetTokens), now), t.id))
    {
      ghost var d := State();
      var valid := ValidatePasswordResetCredentials(token, email, now);
      if !valid { return false; }
      ghost var t0 :| t0 in d.resetTokens && t0.token == token && now <= t0.expirationDate;
      DistinctOnly(d.resetTokens, ResetToken, t0);
      assert t0 in resetTokens;
      SweepResetTwice(d.resetTokens, now);
      b := ResetPassword(token, email, newPassword, newHash, now);
    }

    // -------------------------------------------------------------------------
    // Provider links

    /** `getAuthProviderAccessTokenJson`: the stored token material of the link, if any. */
    method GetAuthProviderAccessTokenJson(userId: int, provider: AuthProvider) returns (json: Option<string>)
      ensures json.Some? <==> open && LinkExists(providers, userId, provider)
      ensures json.Some? ==> ProviderRow(userId, provider, json.value) in providers
    {
      if !open { return None; }
      var found := FindFirst(providers, (p: ProviderRow) => p.userId == userId && p.provider == provider);
      if found.None? { return None; }
      var row := providers[found.value];
      json := Some(row.accessTokenJson);
    }

    /**
     * `registerAuthProvider`: inserts a link when the store is open and the user
     * exists. It does not look for an existing link, so it keeps links unique
     * exactly when none existed for the pair.
     */
    method RegisterAuthProvider(userId: int, provider: AuthProvider, accessTokenJson: string)
      requires Valid()
      modifies this
      ensures Valid() && open == old(open)
      ensures !(old(open) && UserExists(old(users), userId)) ==> State() == old(State())
      ensures old(open) && UserExists(old(users), userId) ==>
        State() == old(State()).(providers := old(providers) + [ProviderRow(userId, provider, accessTokenJson)])
      ensures old(open) && UserExists(old(users), userId) ==>
        (LinksUnique() <==> old(LinksUnique()) && !LinkExists(old(providers), userId, provider))
    {
      if !open { return; }
      var found := FindFirst(users, (u: UserRow) => u.id == userId);
      if found.None? { return; }
      var row := ProviderRow(userId, provider, accessTokenJson);
      AppendDistinct(providers, row, LinkKey);
      providers := providers + [row];
    }

    /**
     * `updateAuthProviderAccessTokenJson`: overwrites the token material of every
     * link of the pair; the set of (user, provider) keys does not change.
     */
    method UpdateAuthProviderAccessTokenJson(userId: int, provider: AuthProvider, accessTokenJson: string)
      requires Valid()
      modifies this
      ensures Valid() && open == old(open)
      ensures !old(open) ==> State() == old(State())
      ensures old(open) ==>
        State() == old(State()).(providers := SetAccessTokenJson(old(providers), userId, provider, accessTokenJson))
      ensures LinksUnique() <==> old(LinksUnique())
    {
      if !open { return; }
      ghost var before := providers;
      providers := SetAccessTokenJson(providers, userId, provider, accessTokenJson);
      assert forall i :: 0 <= i < |providers| ==> LinkKey(providers[i]) == LinkKey(before[i]);
    }

    /**
     * The link-or-update step of `finishDiscordOauth2Login`: insert a link when
     * the user has none for the provider, otherwise overwrite the material of
     * the existing one. Revoking the old material with the provider is a
     * network call and is not part of this model.
     */
    method LinkProvider(userId: int, provider: AuthProvider, accessTokenJson: string)
      requires Valid() && open && UserExists(users, userId)
      modifies this
      ensures Valid() && open
      ensures State() == old(State()).(providers := providers)
      ensures ProviderRow(userId, provider, accessTokenJson) in providers
      ensures forall p :: p in providers && LinkKey(p) == (userId, provider) ==> p.accessTokenJson == accessTokenJson
      ensures forall p: ProviderRow :: LinkKey(p) != (userId, provider) ==> (p in providers <==> p in old(providers))
      ensures old(LinksUnique()) ==> LinksUnique()
    {
      var existing := GetAuthProviderAccessTokenJson(userId, provider);
      if existing.None? {
        RegisterAuthProvider(userId, provider, accessTokenJson);
      } else {
        UpdateAuthProviderAccessTokenJson(userId, provider, accessTokenJson);
      }
    }

    /**
     * The account step of `finishDiscordOauth2Login` once the provider has
     * answered with `email` and its token material `accessTokenJson`: find or
     * create the user (without a password), link it to Discord or overwrite the
     * existing link's material, and issue a session token. On a closed store
     * no user is found or created and the source fails reading `user.id`.
     */
    method FinishDiscordLogin(email: string, accessTokenJson: string, token: string, now: int)
      returns (r: Option<(string, int)>, ghost uid: int)
      requires Valid()
      requires IsRandomToken(token) && forall t :: t in authTokens ==> t.token != token
      modifies this
      ensures Valid() && open == old(open)
      ensures !old(open) ==> r.None? && State() == old(State())
      ensures old(open) ==> r == Some((token, now + AuthTokenLifetime))
      ensures old(open) ==> exists u :: u in users && u.id == uid && u.email == email
      ensures old(open) && EmailTaken(old(users), email) ==>
        users == old(users) && nextUserId == old(nextUserId)
      ensures old(open) && !EmailTaken(old(users), email) ==>
        uid == old(nextUserId) && users == old(users) + [UserRow(uid, email, "", "user")] &&
        nextUserId == old(nextUserId) + 1
      ensures old(open) ==>
        authTokens == old(authTokens) + [TokenRow(uid, token, now + AuthTokenLifetime)] &&
        resetTokens == old(resetTokens) && nextResetId == old(nextResetId)
      ensures old(open) ==>
        ProviderRow(uid, Discord, accessTokenJson) in providers &&
        (forall p :: p in providers && LinkKey(p) == (uid, Discord) ==> p.accessTokenJson == accessTokenJson) &&
        (forall p: ProviderRow :: LinkKey(p) != (uid, Discord) ==> (p in providers <==> p in old(providers)))
      ensures old(LinksUnique()) ==> LinksUnique()
    {
      uid := 0;
      var user := GetUserByEmail(email);
      if user.None? {
        user := CreateUser(email, None, "");
      }
      if user.None? { return None, uid; }
      ghost var row :| row in users && row.email == email && user.value == FromRow(row);
      var id := user.value.id;
      uid := id;
      LinkProvider(id, Discord, accessTokenJson);
      r := GenerateAuthToken(id, token, now);
    }
  }
}
