/** The admin accounts of `AuthService`: login, account management and the
    password-reset token life cycle, over the `admins` repository. */
module Auth {
  import opened Common
  import opened Sequences
  import Text
  import Bcrypt

  const InvalidCredentials := "Identifiants invalides"
  /** The message Nest gives an `UnauthorizedException` built without one. */
  const DefaultUnauthorized := "Unauthorized"
  const DuplicateEmail := "Un administrateur avec cet email existe déjà"
  const ResetLinkSent := "Si cet email existe, un lien de réinitialisation a été envoyé"
  const InvalidResetToken := "Token de réinitialisation invalide ou expiré"
  const ExpiredResetToken := "Token de réinitialisation expiré"
  const PasswordResetDone := "Mot de passe réinitialisé avec succès"

  /** `randomBytes(32)` */
  const ResetTokenBytes: nat := 32
  /** One hour, in the milliseconds of the clock. */
  const ResetTokenLifetime: int := 3600000
  /** The minimum password length of the create-admin and reset-password DTOs. */
  const MinPasswordLength: nat := 6

  /** What `randomBytes(32)` yields. */
  type ResetEntropy = s: seq<Text.byte> | |s| == ResetTokenBytes witness seq(32, _ => 0 as Text.byte)

  function NotFoundMessage(id: string): string {
    "Admin avec l'ID " + id + " non trouvé"
  }

  /** A row of the `admins` table. Times are milliseconds since the epoch. */
  datatype Admin = Admin(
    id: string,
    email: string,
    password: Bcrypt.Digest,
    profileImageUrl: Option<string>,
    resetToken: Option<string>,
    resetExpires: Option<int>,
    createdAt: int)

  /** An admin as the account-management operations return it: every
      column but `password` (the object spread drops only that one). */
  datatype AdminView = AdminView(
    id: string,
    email: string,
    profileImageUrl: Option<string>,
    resetToken: Option<string>,
    resetExpires: Option<int>,
    createdAt: int)

  function View(a: Admin): AdminView {
    AdminView(a.id, a.email, a.profileImageUrl, a.resetToken, a.resetExpires, a.createdAt)
  }

  /** The JWT payload `{ email, sub }`. */
  datatype Claims = Claims(email: string, sub: string)
  datatype SessionUser = SessionUser(id: string, email: string)
  datatype LoginReply = LoginReply(accessToken: string, user: SessionUser)

  /** Unique ids (primary key), unique emails (unique column), and a reset
      token never without its expiry nor an expiry without its token. */
  predicate ValidStore(admins: seq<Admin>) {
    (forall i, j :: 0 <= i < j < |admins| ==> admins[i].id != admins[j].id && admins[i].email != admins[j].email)
    && (forall i :: 0 <= i < |admins| ==> admins[i].resetToken.Some? == admins[i].resetExpires.Some?)
  }

  /** No two admins hold the same outstanding reset token. The source does not
      enforce it; 256 random bits make a clash negligible. */
  predicate TokensDistinct(admins: seq<Admin>) {
    forall i, j :: 0 <= i < j < |admins| && admins[i].resetToken.Some? ==> admins[i].resetToken != admins[j].resetToken
  }

  function IndexOfEmail(admins: seq<Admin>, email: string): Option<nat> {
    FirstIndex(admins, (a: Admin) => a.email == email)
  }

  function IndexOfId(admins: seq<Admin>, id: string): Option<nat> {
    FirstIndex(admins, (a: Admin) => a.id == id)
  }

  function IndexOfToken(admins: seq<Admin>, token: string): Option<nat> {
    FirstIndex(admins, (a: Admin) => a.resetToken == Some(token))
  }

  // ---------------------------------------------------------------- queries

  /** `login`: one generic Unauthorized for an unknown email and for a wrong
      password; on success a token signed over `{ email, sub: id }` and the
      user's id and email only. `sign` is the JWT service. */
  function Login(admins: seq<Admin>, email: string, password: string, sign: Claims -> string): (r: Result<LoginReply>)
    ensures r.Err? ==> r.error == Unauthorized(InvalidCredentials)
    ensures r.Ok? ==> exists a :: a in admins && a.email == email && Bcrypt.Compare(password, a.password)
                        && r.value == LoginReply(sign(Claims(a.email, a.id)), SessionUser(a.id, a.email))
  {
    match IndexOfEmail(admins, email)
    case None => Err(Unauthorized(InvalidCredentials))
    case Some(i) =>
      var a := admins[i];
      if !Bcrypt.Compare(password, a.password) then Err(Unauthorized(InvalidCredentials))
      else Ok(LoginReply(sign(Claims(a.email, a.id)), SessionUser(a.id, a.email)))
  }

  /** `validateUser`: the admin with that id, or a bare Unauthorized. */
  function ValidateUser(admins: seq<Admin>, userId: string): (r: Result<Admin>)
    ensures r.Ok? ==> r.value in admins && r.value.id == userId
    ensures r.Err? <==> forall a :: a in admins ==> a.id != userId
    ensures r.Err? ==> r.error == Unauthorized(DefaultUnauthorized)
  {
    match IndexOfId(admins, userId)
    case None => Err(Unauthorized(DefaultUnauthorized))
    case Some(i) => Ok(admins[i])
  }

  /** `findOneAdmin`: the admin with that id without its password, or NotFound. */
  function FindOneAdmin(admins: seq<Admin>, id: string): (r: Result<AdminView>)
    ensures r.Ok? ==> exists a :: a in admins && a.id == id && r.value == View(a)
    ensures r.Err? <==> forall a :: a in admins ==> a.id != id
    ensures r.Err? ==> r.error == NotFound(NotFoundMessage(id))
  {
    match IndexOfId(admins, id)
    case None => Err(NotFound(NotFoundMessage(id)))
    case Some(i) => Ok(View(admins[i]))
  }

  /** `findAllAdmins`: every admin once, without its password, newest first. */
  function FindAllAdmins(admins: seq<Admin>): (r: seq<AdminView>)
    ensures |r| == |admins|
    ensures NewestFirst(r, (v: AdminView) => v.createdAt)
    ensures forall a :: a in admins ==> View(a) in r
    ensures forall v :: v in r ==> exists a :: a in admins && View(a) == v
  {
    var sorted := SortNewest(admins, (a: Admin) => a.createdAt);
    var r := seq(|sorted|, k requires 0 <= k < |sorted| => View(sorted[k]));
    assert forall a :: a in admins ==> View(a) in r by {
      forall a | a in admins ensures View(a) in r {
        assert a in multiset(sorted);
        var k :| 0 <= k < |sorted| && sorted[k] == a;
        assert r[k] == View(a);
      }
    }
    assert forall v :: v in r ==> exists a :: a in admins && View(a) == v by {
      forall v | v in r ensures exists a :: a in admins && View(a) == v {
        var k :| 0 <= k < |r| && r[k] == v;
        assert sorted[k] in multiset(admins);
      }
    }
    r
  }

  // ------------------------------------------------------------ transitions

  /** `createAdmin`: Conflict on a taken email; otherwise one new admin
      holding the hash of the password. */
  function ApplyCreateAdmin(admins: seq<Admin>, email: string, password: string, id: string, salt: nat, now: int)
    : (Result<AdminView>, seq<Admin>)
  {
    if IndexOfEmail(admins, email).Some? then (Err(Conflict(DuplicateEmail)), admins)
    else
      var a := Admin(id, email, Bcrypt.Hash(password, salt), None, None, None, now);
      (Ok(View(a)), admins + [a])
  }

  /** `removeAdmin`: NotFound, or the store without that admin. */
  function ApplyRemoveAdmin(admins: seq<Admin>, id: string): (Result<()>, seq<Admin>) {
    match IndexOfId(admins, id)
    case None => (Err(NotFound(NotFoundMessage(id))), admins)
    case Some(i) => (Ok(()), RemoveAt(admins, i))
  }

  /** `forgotPassword`: the same reply in every case; a known email gets a
      fresh token (hex of the random bytes) valid until now + 1 h. */
  function ApplyForgotPassword(admins: seq<Admin>, email: string, entropy: ResetEntropy, now: int)
    : (string, seq<Admin>)
  {
    match IndexOfEmail(admins, email)
    case None => (ResetLinkSent, admins)
    case Some(i) =>
      (ResetLinkSent,
       admins[i := admins[i].(resetToken := Some(Text.Hex(entropy)), resetExpires := Some(now + ResetTokenLifetime))])
  }

  /** `resetPassword`: BadRequest for a token nobody holds, BadRequest for a
      missing or past expiry; otherwise the new hash, and the token and its
      expiry cleared together. */
  function ApplyResetPassword(admins: seq<Admin>, token: string, newPassword: string, salt: nat, now: int)
    : (Result<string>, seq<Admin>)
  {
    match IndexOfToken(admins, token)
    case None => (Err(BadRequest(InvalidResetToken)), admins)
    case Some(i) =>
      var a := admins[i];
      if a.resetExpires.None? || a.resetExpires.value < now then (Err(BadRequest(ExpiredResetToken)), admins)
      else
        (Ok(PasswordResetDone),
         admins[i := a.(password := Bcrypt.Hash(newPassword, salt), resetToken := None, resetExpires := None)])
  }

  // ------------------------------------------------------------- properties

  /** With unique emails, login succeeds exactly for a stored email whose
      hash matches the password. */
  lemma LoginSucceedsIff(admins: seq<Admin>, email: string, password: string, sign: Claims -> string)
    requires ValidStore(admins)
    ensures Login(admins, email, password, sign).Ok?
        <==> exists i :: 0 <= i < |admins| && admins[i].email == email && Bcrypt.Compare(password, admins[i].password)
  {
    if i :| 0 <= i < |admins| && admins[i].email == email && Bcrypt.Compare(password, admins[i].password) {
      var found := IndexOfEmail(admins, email);
      assert found.Some?;
      assert found.value == i;
    }
  }

  lemma CreateAdminOutcome(admins: seq<Admin>, email: string, password: string, id: string, salt: nat, now: int)
    ensures var (r, after) := ApplyCreateAdmin(admins, email, password, id, salt, now);
      && (r.Err? <==> exists a :: a in admins && a.email == email)
      && (r.Err? ==> r.error == Conflict(DuplicateEmail) && after == admins)
      && (r.Ok? ==> |after| == |admins| + 1 && after[..|admins|] == admins
                    && after[|admins|].email == email && Bcrypt.Compare(password, after[|admins|].password)
                    && r.value == View(after[|admins|]) && r.value.profileImageUrl == None)
  {
    var (r, after) := ApplyCreateAdmin(admins, email, password, id, salt, now);
    if a :| a in admins && a.email == email {
      var k :| 0 <= k < |admins| && admins[k] == a;
      assert !(forall j :: 0 <= j < |admins| ==> admins[j].email != email);
    }
    if r.Ok? {
      assert after[..|admins|] == admins;
    }
  }

  lemma CreateAdminKeepsValid(admins: seq<Admin>, email: string, password: string, id: string, salt: nat, now: int)
    requires ValidStore(admins)
    requires forall a :: a in admins ==> a.id != id
    ensures ValidStore(ApplyCreateAdmin(admins, email, password, id, salt, now).1)
    ensures TokensDistinct(admins) ==> TokensDistinct(ApplyCreateAdmin(admins, email, password, id, salt, now).1)
  {
    var after := ApplyCreateAdmin(admins, email, password, id, salt, now).1;
    if |after| != |admins| {
      forall i, j | 0 <= i < j < |after|
        ensures after[i].id != after[j].id && after[i].email != after[j].email
      {
        if j == |admins| {
          assert after[i] in admins;
        }
      }
    }
  }

  /** A newly created admin can log in with its password and with no other. */
  lemma CreateThenLogin(admins: seq<Admin>, email: string, password: string, other: string,
                        id: string, salt: nat, now: int, sign: Claims -> string)
    requires ApplyCreateAdmin(admins, email, password, id, salt, now).0.Ok?
    requires other != password
    ensures var after := ApplyCreateAdmin(admins, email, password, id, salt, now).1;
      && Login(after, email, password, sign) == Ok(LoginReply(sign(Claims(email, id)), SessionUser(id, email)))
      && Login(after, email, other, sign) == Err(Unauthorized(InvalidCredentials))
  {
    var after := ApplyCreateAdmin(admins, email, password, id, salt, now).1;
    var found := IndexOfEmail(after, email);
    assert after[|admins|].email == email;
    assert found.Some?;
    assert found.value == |admins|;
  }

  /** `removeAdmin` deletes exactly the admin with that id. */
  lemma RemoveAdminOnlyTarget(admins: seq<Admin>, id: string)
    requires ValidStore(admins)
    ensures var (r, after) := ApplyRemoveAdmin(admins, id);
      && (r.Err? <==> forall a :: a in admins ==> a.id != id)
      && (r.Err? ==> r.error == NotFound(NotFoundMessage(id)) && after == admins)
      && (r.Ok? ==> |after| == |admins| - 1)
      && (forall a :: a in after <==> a in admins && a.id != id)
  {
    var (r, after) := ApplyRemoveAdmin(admins, id);
    var found := IndexOfId(admins, id);
    if found.Some? {
      var i := found.value;
      assert after == RemoveAt(admins, i);
      forall a ensures a in after <==> a in admins && a.id != id {
        if a in admins && a.id != id {
          var k :| 0 <= k < |admins| && admins[k] == a;
          if k < i { assert after[k] == a; } else { assert after[k - 1] == a; }
        }
        if a in after {
          var k :| 0 <= k < |after| && after[k] == a;
          if k < i { assert a == admins[k]; } else { assert a == admins[k + 1]; }
        }
      }
    } else {
      forall a | a in admins ensures a.id != id {
        var k :| 0 <= k < |admins| && admins[k] == a;
      }
    }
  }

  lemma RemoveAdminKeepsInvariants(admins: seq<Admin>, id: string)
    requires ValidStore(admins)
    ensures ValidStore(ApplyRemoveAdmin(admins, id).1)
    ensures TokensDistinct(admins) ==> TokensDistinct(ApplyRemoveAdmin(admins, id).1)
  {
    var found := IndexOfId(admins, id);
    if found.Some? {
      var i := found.value;
      var after := RemoveAt(admins, i);
      assert ApplyRemoveAdmin(admins, id).1 == after;
      forall p, q | 0 <= p < q < |after|
        ensures after[p].id != after[q].id && after[p].email != after[q].email
        ensures TokensDistinct(admins) && after[p].resetToken.Some? ==> after[p].resetToken != after[q].resetToken
      {
        var p' := if p < i then p else p + 1;
        var q' := if q < i then q else q + 1;
        assert after[p] == admins[p'] && after[q] == admins[q'];
      }
    }
  }

  /** `forgotPassword` answers the same whatever the store and the email, and
      leaves the store alone when no admin has the email. */
  lemma ForgotPasswordDoesNotRevealEmail(admins: seq<Admin>, email: string, entropy: ResetEntropy, now: int)
    ensures ApplyForgotPassword(admins, email, entropy, now).0 == ResetLinkSent
    ensures (forall a :: a in admins ==> a.email != email) ==> ApplyForgotPassword(admins, email, entropy, now).1 == admins
  {
    if forall a :: a in admins ==> a.email != email {
      forall k | 0 <= k < |admins| ensures admins[k].email != email {
        assert admins[k] in admins;
      }
    }
  }

  /** For a known email, the admin's token becomes the 64 hex digits of the
      random bytes and its expiry now + 1 h; nothing else changes. */
  lemma ForgotPasswordIssuesToken(admins: seq<Admin>, email: string, entropy: ResetEntropy, now: int, i: nat)
    requires ValidStore(admins)
    requires i < |admins| && admins[i].email == email
    ensures var after := ApplyForgotPassword(admins, email, entropy, now).1;
      && |after| == |admins|
      && after[i] == admins[i].(resetToken := Some(Text.Hex(entropy)), resetExpires := Some(now + ResetTokenLifetime))
      && (forall j :: 0 <= j < |admins| && j != i ==> after[j] == admins[j])
      && |Text.Hex(entropy)| == 64
      && (forall k :: 0 <= k < 64 ==> Text.IsLowerHex(Text.Hex(entropy)[k]))
  {
    var found := IndexOfEmail(admins, email);
    assert found.Some?;
    assert found.value == i;
  }

  lemma ForgotPasswordKeepsValid(admins: seq<Admin>, email: string, entropy: ResetEntropy, now: int)
    requires ValidStore(admins)
    ensures ValidStore(ApplyForgotPassword(admins, email, entropy, now).1)
  {
    var after := ApplyForgotPassword(admins, email, entropy, now).1;
    assert |after| == |admins|;
    assert forall k :: 0 <= k < |after| ==> after[k].id == admins[k].id && after[k].email == admins[k].email;
  }

  /** The new token keeps tokens distinct unless another admin already holds it. */
  lemma ForgotPasswordKeepsTokensDistinct(admins: seq<Admin>, email: string, entropy: ResetEntropy, now: int)
    requires ValidStore(admins) && TokensDistinct(admins)
    requires forall a :: a in admins && a.email != email ==> a.resetToken != Some(Text.Hex(entropy))
    ensures TokensDistinct(ApplyForgotPassword(admins, email, entropy, now).1)
  {
    var after := ApplyForgotPassword(admins, email, entropy, now).1;
    var found := IndexOfEmail(admins, email);
    if found.Some? {
      var i := found.value;
      forall p, q | 0 <= p < q < |after| && after[p].resetToken.Some?
        ensures after[p].resetToken != after[q].resetToken
      {
        if p == i { assert admins[q] in admins; }
        else if q == i { assert admins[p] in admins; }
      }
    }
  }

  /** A second request revokes the earlier token: drawn from other random
      bytes, it no longer matches any admin. */
  lemma EarlierTokenRevoked(admins: seq<Admin>, email: string, earlier: ResetEntropy, entropy: ResetEntropy, now: int, i: nat)
    requires ValidStore(admins) && TokensDistinct(admins)
    requires i < |admins| && admins[i].email == email
    requires admins[i].resetToken == Some(Text.Hex(earlier))
    requires earlier != entropy
    ensures IndexOfToken(ApplyForgotPassword(admins, email, entropy, now).1, Text.Hex(earlier)).None?
  {
    var after := ApplyForgotPassword(admins, email, entropy, now).1;
    ForgotPasswordIssuesToken(admins, email, entropy, now, i);
    Text.HexInjective(earlier, entropy);
    forall k | 0 <= k < |after| ensures after[k].resetToken != Some(Text.Hex(earlier)) {
      if k != i {
        if k < i { assert admins[k].resetToken != admins[i].resetToken; }
        else { assert admins[i].resetToken != admins[k].resetToken; }
      }
    }
  }

  /** With distinct tokens, reset succeeds exactly when some admin holds the
      token with an expiry not before now (so a token still works at its
      expiry instant), and then changes that admin's hash and clears both
      token fields, and nothing else. */
  lemma ResetPasswordSucceedsIff(admins: seq<Admin>, token: string, newPassword: string, salt: nat, now: int)
    requires TokensDistinct(admins)
    ensures var (r, after) := ApplyResetPassword(admins, token, newPassword, salt, now);
      && (r.Ok? <==> exists i :: 0 <= i < |admins| && admins[i].resetToken == Some(token)
                                && admins[i].resetExpires.Some? && now <= admins[i].resetExpires.value)
      && (r.Err? ==> after == admins && r.error.BadRequest?)
      && (r.Ok? ==> r.value == PasswordResetDone
                    && (exists i ::
                          && 0 <= i < |admins| && admins[i].resetToken == Some(token)
                          && after == admins[i := admins[i].(password := Bcrypt.Hash(newPassword, salt),
                                                            resetToken := None, resetExpires := None)]))
  {
    if i :| 0 <= i < |admins| && admins[i].resetToken == Some(token) {
      var found := IndexOfToken(admins, token);
      assert found.Some?;
      assert found.value == i;
    }
  }

  /** A reset token works once: after a successful reset, the same token is
      rejected as unknown, whatever the password and the time. */
  lemma ResetPasswordSingleUse(admins: seq<Admin>, token: string, pw1: string, salt1: nat, now1: int,
                               pw2: string, salt2: nat, now2: int)
    requires TokensDistinct(admins)
    requires ApplyResetPassword(admins, token, pw1, salt1, now1).0.Ok?
    ensures var after := ApplyResetPassword(admins, token, pw1, salt1, now1).1;
      ApplyResetPassword(after, token, pw2, salt2, now2) == (Err(BadRequest(InvalidResetToken)), after)
  {
    var after := ApplyResetPassword(admins, token, pw1, salt1, now1).1;
    var i := IndexOfToken(admins, token).value;
    forall k | 0 <= k < |after| ensures after[k].resetToken != Some(token) {
      if k < i { assert admins[k].resetToken != admins[i].resetToken; }
      else if k > i { assert admins[i].resetToken != admins[k].resetToken; }
    }
  }

  lemma ResetPasswordKeepsInvariants(admins: seq<Admin>, token: string, newPassword: string, salt: nat, now: int)
    requires ValidStore(admins)
    ensures ValidStore(ApplyResetPassword(admins, token, newPassword, salt, now).1)
    ensures TokensDistinct(admins) ==> TokensDistinct(ApplyResetPassword(admins, token, newPassword, salt, now).1)
  {
    var after := ApplyResetPassword(admins, token, newPassword, salt, now).1;
    assert |after| == |admins|;
    assert forall k :: 0 <= k < |after| ==> after[k].id == admins[k].id && after[k].email == admins[k].email;
    assert forall k :: 0 <= k < |after| ==> after[k].resetToken == admins[k].resetToken || after[k].resetToken.None?;
  }

  /** After a reset the admin logs in with the new password, not the old one. */
  lemma ResetThenLogin(admins: seq<Admin>, token: string, newPassword: string, oldPassword: string,
                       salt: nat, now: int, sign: Claims -> string, i: nat)
    requires ValidStore(admins) && TokensDistinct(admins)
    requires i < |admins| && admins[i].resetToken == Some(token)
    requires ApplyResetPassword(admins, token, newPassword, salt, now).0.Ok?
    requires oldPassword != newPassword
    ensures var after := ApplyResetPassword(admins, token, newPassword, salt, now).1;
      && Login(after, admins[i].email, newPassword, sign).Ok?
      && Login(after, admins[i].email, oldPassword, sign) == Err(Unauthorized(InvalidCredentials))
  {
    var after := ApplyResetPassword(admins, token, newPassword, salt, now).1;
    ResetPasswordSucceedsIff(admins, token, newPassword, salt, now);
    ResetPasswordKeepsInvariants(admins, token, newPassword, salt, now);
    var j := IndexOfToken(admins, token).value;
    assert j == i;
    assert after[i].email == admins[i].email;
    LoginSucceedsIff(after, admins[i].email, newPassword, sign);
    var found := IndexOfEmail(after, admins[i].email);
    assert found.Some? && found.value == i;
  }

  /** The whole flow for one admin: the token issued at `issued` resets the
      password at any time up to and including issued + 1 h, and is rejected
      as expired after that. */
  lemma ForgotThenReset(admins: seq<Admin>, email: string, entropy: ResetEntropy, issued: int,
                        newPassword: string, salt: nat, now: int, i: nat)
    requires ValidStore(admins) && TokensDistinct(admins)
    requires i < |admins| && admins[i].email == email
    requires forall a :: a in admins && a.email != email ==> a.resetToken != Some(Text.Hex(entropy))
    ensures var issuedStore := ApplyForgotPassword(admins, email, entropy, issued).1;
      var (r, _) := ApplyResetPassword(issuedStore, Text.Hex(entropy), newPassword, salt, now);
      && (now <= issued + ResetTokenLifetime ==> r == Ok(PasswordResetDone))
      && (now > issued + ResetTokenLifetime ==> r == Err(BadRequest(ExpiredResetToken)))
  {
    var issuedStore := ApplyForgotPassword(admins, email, entropy, issued).1;
    ForgotPasswordIssuesToken(admins, email, entropy, issued, i);
    ForgotPasswordKeepsTokensDistinct(admins, email, entropy, issued);
    var found := IndexOfToken(issuedStore, Text.Hex(entropy));
    assert issuedStore[i].resetToken == Some(Text.Hex(entropy));
    assert found.Some?;
    assert found.value == i;
  }

  // ------------------------------------------------------------------ state

  /** The service with its repository of admins. */
  class AuthService {
    var admins: seq<Admin>

    /** The repository as the database holds it: the primary key and the
        unique email column make it a valid store. */
    constructor(initial: seq<Admin>)
      requires ValidStore(initial)
      ensures admins == initial
    {
      admins := initial;
    }

    method CreateAdmin(email: string, password: string, id: string, salt: nat, now: int)
      returns (r: Result<AdminView>)
      requires ValidStore(admins)
      requires |password| >= MinPasswordLength
      requires forall a :: a in admins ==> a.id != id
      modifies this
      ensures ValidStore(admins)
      ensures TokensDistinct(old(admins)) ==> TokensDistinct(admins)
      ensures (r, admins) == ApplyCreateAdmin(old(admins), email, password, id, salt, now)
    {
      CreateAdminKeepsValid(admins, email, password, id, salt, now);
      if IndexOfEmail(admins, email).Some? {
        return Err(Conflict(DuplicateEmail));
      }
      var admin := Admin(id, email, Bcrypt.Hash(password, salt), None, None, None, now);
      admins := admins + [admin];
      r := Ok(View(admin));
    }

    method RemoveAdmin(id: string) returns (r: Result<()>)
      requires ValidStore(admins)
      modifies this
      ensures ValidStore(admins)
      ensures TokensDistinct(old(admins)) ==> TokensDistinct(admins)
      ensures (r, admins) == ApplyRemoveAdmin(old(admins), id)
    {
      RemoveAdminKeepsInvariants(admins, id);
      var found := IndexOfId(admins, id);
      if found.None? {
        return Err(NotFound(NotFoundMessage(id)));
      }
      admins := admins[..found.value] + admins[found.value + 1..];
      r := Ok(());
    }

    method ForgotPassword(email: string, entropy: ResetEntropy, now: int) returns (reply: string)
      requires ValidStore(admins)
      modifies this
      ensures ValidStore(admins)
      ensures TokensDistinct(old(admins))
              && (forall a :: a in old(admins) && a.email != email ==> a.resetToken != Some(Text.Hex(entropy)))
              ==> TokensDistinct(admins)
      ensures (reply, admins) == ApplyForgotPassword(old(admins), email, entropy, now)
    {
      ForgotPasswordKeepsValid(admins, email, entropy, now);
      if TokensDistinct(admins) && (forall a :: a in admins && a.email != email ==> a.resetToken != Some(Text.Hex(entropy))) {
        ForgotPasswordKeepsTokensDistinct(admins, email, entropy, now);
      }
      var found := IndexOfEmail(admins, email);
      if found.None? {
        return ResetLinkSent;
      }
      var admin := admins[found.value];
      admin := admin.(resetToken := Some(Text.Hex(entropy)), resetExpires := Some(now + ResetTokenLifetime));
      admins := admins[found.value := admin];
      reply := ResetLinkSent;
    }

    method ResetPassword(token: string, newPassword: string, salt: nat, now: int) returns (r: Result<string>)
      requires ValidStore(admins)
      requires |newPassword| >= MinPasswordLength
      modifies this
      ensures ValidStore(admins)
      ensures TokensDistinct(old(admins)) ==> TokensDistinct(admins)
      ensures (r, admins) == ApplyResetPassword(old(admins), token, newPassword, salt, now)
    {
      ResetPasswordKeepsInvariants(admins, token, newPassword, salt, now);
      var found := IndexOfToken(admins, token);
      if found.None? {
        return Err(BadRequest(InvalidResetToken));
      }
      var admin := admins[found.value];
      if admin.resetExpires.None? || admin.resetExpires.value < now {
        return Err(BadRequest(ExpiredResetToken));
      }
      admin := admin.(password := Bcrypt.Hash(newPassword, salt), resetToken := None, resetExpires := None);
      admins := admins[found.value := admin];
      r := Ok(PasswordResetDone);
    }
  }
}
