/**
 * Callers' view of the account store: sequences of calls as the HTTP layer
 * makes them, with what their results and the final tables must be. Each
 * method is proved from the contracts of the store's methods alone.
 */
module Scenarios {
  import opened Wrappers
  import opened Tables
  import opened AccountManager

  /** Registering one email twice: the second call is refused and one account has the email. */
  method RegisterTwice(store: AccountStore, email: string, password: string, hash: string)
    returns (first: Option<User>, second: Option<User>)
    requires store.Valid() && store.open && !EmailTaken(store.users, email)
    requires store.matches(password, hash)
    modifies store
    ensures first.Some? && first.value.email == email && second.None?
    ensures exists u :: u in store.users && u.email == email &&
                        forall v :: v in store.users && v.email == email ==> v == u
  {
    first := store.CreateUser(email, Some(password), hash);
    var i := |store.users| - 1;
    var u := store.users[i];
    assert u in store.users && u.email == email;
    second := store.CreateUser(email, Some(password), hash);
    assert store.users[i] == u;
    DistinctOnly(store.users, UserEmail, u);
    assert u in store.users && u.email == email &&
           forall v :: v in store.users && v.email == email ==> v == u;
  }

  /** Register, log in, resolve the session token, revoke it, resolve it again. */
  method LoginResolveRevoke(store: AccountStore, email: string, password: string, hash: string,
                            token: string, now: int)
    returns (login: Option<(string, int)>, who: Option<User>, after: Option<User>)
    requires store.Valid() && store.open && !EmailTaken(store.users, email)
    requires store.matches(password, hash)
    requires IsRandomToken(token) && forall t :: t in store.authTokens ==> t.token != token
    modifies store
    ensures login == Some((token, now + AuthTokenLifetime))
    ensures who.Some? && who.value.email == email
    ensures after.None?
  {
    var created := store.CreateUser(email, Some(password), hash);
    var row := store.users[|store.users| - 1];
    assert row in store.users && row.email == email && store.matches(password, row.passwordHash);
    login := store.CheckCredentialsAndGenerateAuthToken(email, password, token, now);
    var session := store.authTokens[|store.authTokens| - 1];
    assert session.token == token;
    assert session.userId == row.id by {
      DistinctOnly(store.users, UserEmail, store.users[|store.users| - 1]);
    }
    ghost var d := store.State();
    assert Resolves(d, token, now, row);
    who := store.GetUser(token, now);
    ghost var owner :| Resolves(d, token, now, owner) && who.value == FromRow(owner);
    ResolvesOnly(d, token, now, row, owner);
    var revoked := store.DeleteAuthToken(token);
    after := store.GetUser(token, now);
  }

  /**
   * Requesting a reset twice: the user is left with one reset token, the second;
   * the first no longer validates.
   */
  method ResetRequestedTwice(store: AccountStore, email: string, first: string, second: string, now: int)
    returns (r1: Option<string>, r2: Option<string>, firstValid: bool, secondValid: bool)
    requires store.Valid() && store.open && EmailTaken(store.users, email)
    requires IsRandomToken(first) && IsRandomToken(second) && first != second
    requires forall t :: t in store.resetTokens ==> t.token != first && t.token != second
    modifies store
    ensures r1 == Some(first) && r2 == Some(second)
    ensures !firstValid && secondValid
    ensures exists u :: u in store.users && u.email == email &&
                        forall t :: t in store.resetTokens && t.userId == u.id ==> t.token == second
  {
    ghost var u :| u in store.users && u.email == email;
    ghost var d0 := store.State();
    ResetRequestSupersedes(d0, u, first, now);
    r1 := store.GeneratePasswordResetToken(email, first, now);
    ghost var d1 := store.State();
    ResetRequestSupersedes(d1, u, second, now);
    r2 := store.GeneratePasswordResetToken(email, second, now);
    ghost var d := store.State();
    firstValid := store.ValidatePasswordResetCredentials(first, email, now);
    secondValid := store.ValidatePasswordResetCredentials(second, email, now);
    assert forall t :: t in store.resetTokens ==> t in d.resetTokens;
  }

  /**
   * The reset flow as the routes run it: request a reset, validate the token,
   * redeem it with `resetPassword`. The token validates, the reset succeeds,
   * the account has the new hash and the token is gone.
   */
  method RequestAndReset(store: AccountStore, email: string, token: string, newPassword: string,
                         newHash: string, now: int)
    returns (valid: bool, reset: bool)
    requires store.Valid() && store.open && EmailTaken(store.users, email)
    requires IsRandomToken(token) && forall t :: t in store.resetTokens ==> t.token != token
    requires store.matches(newPassword, newHash)
    modifies store
    ensures store.Valid() && store.open && store.authTokens == old(store.authTokens)
    ensures valid && reset
    ensures forall u :: u in old(store.users) && u.email == email ==>
              u.(passwordHash := newHash) in store.users
    ensures forall t :: t in store.resetTokens ==> t.token != token
  {
    ghost var u :| u in store.users && u.email == email;
    DistinctOnly(store.users, UserEmail, u);
    ghost var row := ResetRow(store.nextResetId, u.id, token, now + ResetTokenLifetime);
    ResetRequestSupersedes(store.State(), u, token, now);
    var issued := store.GeneratePasswordResetToken(email, token, now);
    assert row == store.resetTokens[|store.resetTokens| - 1];
    valid := store.ValidatePasswordResetCredentials(token, email, now);
    ghost var d := store.State();
    assert row in d.resetTokens;
    reset := store.ResetPassword(token, email, newPassword, newHash, now);
    assert store.users == SetPasswordHash(d.users, u.id, newHash);
    DistinctOnly(d.resetTokens, ResetToken, row);
  }

  /**
   * The same flow through the corrected reset, which validates token and email
   * before it consumes the token: the outcome is the same for the account's own
   * email.
   */
  method RequestAndCheckedReset(store: AccountStore, email: string, token: string, newPassword: string,
                               newHash: string, now: int)
    returns (valid: bool, reset: bool)
    requires store.Valid() && store.open && EmailTaken(store.users, email)
    requires IsRandomToken(token) && forall t :: t in store.resetTokens ==> t.token != token
    requires store.matches(newPassword, newHash)
    modifies store
    ensures store.Valid() && store.open && store.authTokens == old(store.authTokens)
    ensures valid && reset
    ensures forall u :: u in old(store.users) && u.email == email ==>
              u.(passwordHash := newHash) in store.users
    ensures forall t :: t in store.resetTokens ==> t.token != token
  {
    ghost var u :| u in store.users && u.email == email;
    DistinctOnly(store.users, UserEmail, u);
    ghost var row := ResetRow(store.nextResetId, u.id, token, now + ResetTokenLifetime);
    ResetRequestSupersedes(store.State(), u, token, now);
    var issued := store.GeneratePasswordResetToken(email, token, now);
    assert row == store.resetTokens[|store.resetTokens| - 1];
    valid := store.ValidatePasswordResetCredentials(token, email, now);
    ghost var d := store.State();
    assert row in d.resetTokens;
    reset := store.ResetPasswordCheckingEmail(token, email, newPassword, newHash, now);
    assert store.users == SetPasswordHash(d.users, u.id, newHash);
    DistinctOnly(d.resetTokens, ResetToken, row);
  }

  /** A reset token is used once: redeeming it a second time fails and changes no password. */
  method ResetOnce(store: AccountStore, email: string, token: string, newPassword: string, newHash: string,
                   now: int)
    returns (valid: bool, reset: bool, again: bool)
    requires store.Valid() && store.open && EmailTaken(store.users, email)
    requires IsRandomToken(token) && forall t :: t in store.resetTokens ==> t.token != token
    requires store.matches(newPassword, newHash)
    modifies store
    ensures store.Valid() && store.open && store.authTokens == old(store.authTokens)
    ensures valid && reset && !again
    ensures forall u :: u in old(store.users) && u.email == email ==>
              u.(passwordHash := newHash) in store.users
  {
    valid, reset := RequestAndReset(store, email, token, newPassword, newHash, now);
    again := store.ResetPassword(token, email, newPassword, newHash, now);
  }

  /** After a reset, the old password no longer logs in and the new one does. */
  method LoginAfterReset(store: AccountStore, email: string, token: string, oldPassword: string,
                         newPassword: string, newHash: string, loginToken: string, now: int)
    returns (stale: Option<(string, int)>, login: Option<(string, int)>)
    requires store.Valid() && store.open && EmailTaken(store.users, email)
    requires IsRandomToken(token) && forall t :: t in store.resetTokens ==> t.token != token
    requires IsRandomToken(loginToken) && forall t :: t in store.authTokens ==> t.token != loginToken
    requires store.matches(newPassword, newHash) && !store.matches(oldPassword, newHash)
    modifies store
    ensures stale.None?
    ensures login == Some((loginToken, now + AuthTokenLifetime))
  {
    ghost var u :| u in store.users && u.email == email;
    var valid, reset, again := ResetOnce(store, email, token, newPassword, newHash, now);
    ghost var v := u.(passwordHash := newHash);
    assert v in store.users;
    DistinctOnly(store.users, UserEmail, v);
    stale := store.CheckCredentialsAndGenerateAuthToken(email, oldPassword, loginToken, now);
    login := store.CheckCredentialsAndGenerateAuthToken(email, newPassword, loginToken, now);
  }

  /**
   * `resetPassword` as written: a live reset token owned by `owner` resets the
   * owner's password even when the caller names a different email, which
   * `validatePasswordResetCredentials` would have refused.
   */
  method ResetIgnoresEmail(store: AccountStore, token: string, owner: string, other: string,
                           newPassword: string, newHash: string, now: int)
    returns (b: bool)
    requires store.Valid() && store.open && other != owner
    requires ResetAuthorizes(store.State(), token, owner, now)
    requires store.matches(newPassword, newHash)
    modifies store
    ensures !ResetAuthorizes(old(store.State()), token, other, now)
    ensures b
    ensures exists u :: u in store.users && u.email == owner && u.passwordHash == newHash
  {
    ghost var d := store.State();
    ghost var t :| t in d.resetTokens && t.token == token && now <= t.expirationDate &&
      exists u :: u in d.users && u.id == t.userId && u.email == owner;
    ghost var u :| u in d.users && u.id == t.userId && u.email == owner;
    ResetAuthorizesOneEmail(d, token, owner, other, now);
    assert LiveResetToken(d.resetTokens, token, now);
    b := store.ResetPassword(token, other, newPassword, newHash, now);
    assert store.users == SetPasswordHash(d.users, t.userId, newHash);
    assert u.(passwordHash := newHash) in store.users;
  }

  /** The corrected reset refuses the same call and leaves every password hash as it was. */
  method CheckedResetRefusesForeignEmail(store: AccountStore, token: string, owner: string, other: string,
                                         newPassword: string, newHash: string, now: int)
    returns (b: bool)
    requires store.Valid() && store.open && other != owner
    requires ResetAuthorizes(store.State(), token, owner, now)
    requires store.matches(newPassword, newHash)
    modifies store
    ensures !b && store.users == old(store.users)
  {
    ResetAuthorizesOneEmail(store.State(), token, owner, other, now);
    b := store.ResetPasswordCheckingEmail(token, other, newPassword, newHash, now);
  }

  /**
   * Two Discord logins for one email: the account with that email has exactly
   * one Discord link, carrying the second login's token material.
   */
  method DiscordLoginTwice(store: AccountStore, email: string, json1: string, json2: string,
                           token1: string, token2: string, now: int)
    returns (r1: Option<(string, int)>, r2: Option<(string, int)>)
    requires store.Valid() && store.open && store.LinksUnique()
    requires IsRandomToken(token1) && IsRandomToken(token2) && token1 != token2
    requires forall t :: t in store.authTokens ==> t.token != token1 && t.token != token2
    modifies store
    ensures r1.Some? && r2.Some?
    ensures store.LinksUnique()
    ensures exists u :: u in store.users && u.email == email &&
                        ProviderRow(u.id, Discord, json2) in store.providers &&
                        forall p :: p in store.providers && LinkKey(p) == (u.id, Discord) ==> p == ProviderRow(u.id, Discord, json2)
  {
    ghost var uid1, uid2;
    r1, uid1 := store.FinishDiscordLogin(email, json1, token1, now);
    r2, uid2 := store.FinishDiscordLogin(email, json2, token2, now);
    ghost var u2 :| u2 in store.users && u2.id == uid2 && u2.email == email;
    ghost var p0 := ProviderRow(u2.id, Discord, json2);
    DistinctOnly(store.providers, LinkKey, p0);
    assert u2 in store.users && u2.email == email && p0 in store.providers &&
           forall p :: p in store.providers && LinkKey(p) == (u2.id, Discord) ==> p == p0;
  }
}
