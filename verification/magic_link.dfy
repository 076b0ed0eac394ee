/** Passwordless sign-in: a per-user one-time token with an expiry
    instant, issued by `requestMagicLink` and redeemed by
    `consumeMagicToken`; and the superadmin route that sets a user's role.
    The random token and the clock are parameters. */
module MagicLink {
  import opened Base
  import opened Authz

  /** A token is valid for fifteen minutes after it is issued. */
  const TokenLifetime: int := 1000 * 60 * 15

  datatype User = User(
    id: UserId,
    email: string,
    role: Role,
    name: Option<string>,
    magicToken: Option<string>,
    tokenExpires: Option<Time>)

  /** The user table, keyed by its unique email; every user has its own
      id, and new users take the next one. */
  datatype Users = Users(byEmail: map<string, User>, nextId: UserId) {
    ghost predicate Valid() {
      && (forall e :: e in byEmail ==> byEmail[e].email == e && byEmail[e].id < nextId && Canonical(byEmail[e].role))
      && (forall e1, e2 :: e1 in byEmail && e2 in byEmail && e1 != e2 ==> byEmail[e1].id != byEmail[e2].id)
    }
  }

  /** The store's filter `{ magicToken: token, tokenExpires: { gt: now } }`. */
  predicate Redeemable(u: User, token: string, now: Time) {
    u.magicToken == Some(token) && u.tokenExpires.Some? && u.tokenExpires.value > now
  }

  /** Some user in the table would match the filter. */
  ghost predicate Anyone(us: Users, token: string, now: Time) {
    exists e :: e in us.byEmail && Redeemable(us.byEmail[e], token, now)
  }

  /** The user at `e` with both token fields cleared. */
  function ClearToken(us: Users, e: string): Users
    requires e in us.byEmail
  {
    us.(byEmail := us.byEmail[e := us.byEmail[e].(magicToken := None, tokenExpires := None)])
  }

  /** No two users hold the same outstanding token. */
  ghost predicate TokensDistinct(us: Users) {
    forall e1, e2 :: e1 in us.byEmail && e2 in us.byEmail && e1 != e2 && us.byEmail[e1].magicToken.Some? ==>
      us.byEmail[e1].magicToken != us.byEmail[e2].magicToken
  }

  /** `requestMagicLink(email)`: upsert by email. An existing user gets the
      new token and expiry and keeps everything else; an unknown email
      becomes a new student. The link e-mail is not modelled. */
  function RequestMagicLink(us: Users, email: string, token: string, now: Time): (us': Users)
    ensures email in us'.byEmail
    ensures us'.byEmail[email].magicToken == Some(token)
    ensures us'.byEmail[email].tokenExpires == Some(now + TokenLifetime)
    ensures email in us.byEmail ==>
              us'.byEmail[email] == us.byEmail[email].(magicToken := Some(token), tokenExpires := Some(now + TokenLifetime))
    ensures email !in us.byEmail ==>
              && us'.byEmail[email].role == Student
              && us'.byEmail[email].email == email
              && us'.byEmail[email].id == us.nextId
    ensures forall e :: e != email ==> (e in us'.byEmail <==> e in us.byEmail)
    ensures forall e :: e in us.byEmail && e != email ==> us'.byEmail[e] == us.byEmail[e]
  {
    var expires := now + TokenLifetime;
    if email in us.byEmail then
      us.(byEmail := us.byEmail[email := us.byEmail[email].(magicToken := Some(token), tokenExpires := Some(expires))])
    else
      Users(us.byEmail[email := User(us.nextId, email, Student, None, Some(token), Some(expires))], us.nextId + 1)
  }

  /** `consumeMagicToken(token)`: find some user holding the token unexpired
      (in no particular order), clear both token fields, and return the
      user as it was found; otherwise return nothing and change nothing. */
  method ConsumeMagicToken(us: Users, token: string, now: Time) returns (user: Option<User>, us': Users)
    ensures user.None? <==> !Anyone(us, token, now)
    ensures user.None? ==> us' == us
    ensures user.Some? ==>
              exists e :: e in us.byEmail && us.byEmail[e] == user.value && us' == ClearToken(us, e)
    ensures user.Some? ==> Redeemable(user.value, token, now)
  {
    var todo := us.byEmail.Keys;
    while todo != {}
      invariant todo <= us.byEmail.Keys
      invariant forall e :: e in us.byEmail && e !in todo ==> !Redeemable(us.byEmail[e], token, now)
      decreases todo
    {
      var e :| e in todo;
      if Redeemable(us.byEmail[e], token, now) {
        return Some(us.byEmail[e]), ClearToken(us, e);
      }
      todo := todo - {e};
    }
    return None, us;
  }

  /** The session the consume route stores: the user's id and role. */
  function SessionActor(u: User): Actor {
    Actor(u.id, u.role)
  }

  /** A freshly requested token redeems exactly until its expiry instant:
      at any `later` strictly before `now + 15 min`, and never from then on. */
  lemma RequestedTokenRedeemsUntilExpiry(us: Users, email: string, token: string, now: Time, later: Time)
    ensures Redeemable(RequestMagicLink(us, email, token, now).byEmail[email], token, later)
            <==> later < now + TokenLifetime
  {
  }

  /** A new request replaces the user's earlier token: the old one no
      longer redeems for that user, at any time. */
  lemma RequestRevokesEarlierToken(us: Users, email: string, token: string, now: Time, earlier: string, later: Time)
    requires earlier != token
    ensures !Redeemable(RequestMagicLink(us, email, token, now).byEmail[email], earlier, later)
  {
  }

  /** Requesting a link never changes an existing user's role, id or name. */
  lemma RequestPreservesRole(us: Users, email: string, token: string, now: Time)
    requires email in us.byEmail
    ensures RequestMagicLink(us, email, token, now).byEmail[email].role == us.byEmail[email].role
    ensures RequestMagicLink(us, email, token, now).byEmail[email].id == us.byEmail[email].id
    ensures RequestMagicLink(us, email, token, now).byEmail[email].name == us.byEmail[email].name
  {
  }

  /** Once consumed, a token is dead: with tokens distinct across users, no
      user of the new table redeems it at any time, so a second consume of
      the same token returns nothing. */
  lemma {:induction false} ConsumedTokenIsSingleUse(us: Users, e: string, token: string, now: Time, later: Time)
    requires e in us.byEmail && Redeemable(us.byEmail[e], token, now)
    requires TokensDistinct(us)
    ensures !Anyone(ClearToken(us, e), token, later)
  {
    var us' := ClearToken(us, e);
    forall e' | e' in us'.byEmail
      ensures !Redeemable(us'.byEmail[e'], token, later)
    {
      if e' != e {
        assert us'.byEmail[e'] == us.byEmail[e'];
        assert us.byEmail[e'].magicToken != us.byEmail[e].magicToken;
      }
    }
  }

  /** Consuming touches only the consumed user's token fields. */
  lemma ConsumeChangesOnlyTokenFields(us: Users, e: string)
    requires e in us.byEmail
    ensures var u := ClearToken(us, e).byEmail[e];
            && u.magicToken.None? && u.tokenExpires.None?
            && u == us.byEmail[e].(magicToken := None, tokenExpires := None)
    ensures ClearToken(us, e).byEmail.Keys == us.byEmail.Keys
    ensures forall e' :: e' in us.byEmail && e' != e ==> ClearToken(us, e).byEmail[e'] == us.byEmail[e']
  {
  }

  /** A request followed by a consume before expiry signs in as that user,
      when no one else holds the same token. */
  lemma {:induction false} RequestThenConsume(us: Users, email: string, token: string, now: Time, later: Time)
    requires later < now + TokenLifetime
    requires forall e :: e in us.byEmail && e != email ==> us.byEmail[e].magicToken != Some(token)
    ensures Anyone(RequestMagicLink(us, email, token, now), token, later)
    ensures var us' := RequestMagicLink(us, email, token, now);
            forall e :: e in us'.byEmail && Redeemable(us'.byEmail[e], token, later) ==> e == email
  {
    var us' := RequestMagicLink(us, email, token, now);
    assert email in us'.byEmail && Redeemable(us'.byEmail[email], token, later);
  }

  // ---------------------------------------------------------------------
  // Role administration

  /** `POST /admin/users/role`: superadmin only; email and role are
      required; upsert by email. An existing user gets the role and keeps
      everything else; an unknown email becomes a user with that role and
      no token. */
  function SetUserRole(us: Users, actor: Actor, email: Option<string>, role: Option<string>): (r: Result<(Users, User)>)
    ensures actor.role != Superadmin ==> r == Err(Forbidden)
    ensures actor.role == Superadmin && (!Truthy(email) || !Truthy(role)) ==> r == Err(BadRequest)
    ensures r.Ok? <==> actor.role == Superadmin && Truthy(email) && Truthy(role)
    ensures r.Ok? ==>
              var (us', u) := r.value;
              && email.value in us'.byEmail
              && us'.byEmail[email.value] == u
              && u.role == RoleOf(role.value)
              && (email.value in us.byEmail ==> u == us.byEmail[email.value].(role := u.role))
              && (email.value !in us.byEmail ==> u.magicToken.None? && u.tokenExpires.None? && u.email == email.value)
              && (forall e :: e != email.value ==> (e in us'.byEmail <==> e in us.byEmail))
              && (forall e :: e in us.byEmail && e != email.value ==> us'.byEmail[e] == us.byEmail[e])
  {
    if RequireSuperadmin(actor).Fail? then Err(Forbidden)
    else if !Truthy(email) || !Truthy(role) then Err(BadRequest)
    else
      var e := email.value;
      var newRole := RoleOf(role.value);
      if e in us.byEmail then
        var u := us.byEmail[e].(role := newRole);
        Ok((us.(byEmail := us.byEmail[e := u]), u))
      else
        var u := User(us.nextId, e, newRole, None, None, None);
        Ok((Users(us.byEmail[e := u], us.nextId + 1), u))
  }

  /** Setting a role and then requesting a link: the sign-in carries the
      role the superadmin set. */
  lemma RoleSurvivesSignIn(us: Users, actor: Actor, email: string, role: string, token: string, now: Time)
    requires actor.role == Superadmin && email != "" && role != ""
    ensures var us1 := SetUserRole(us, actor, Some(email), Some(role)).value.0;
            SessionActor(RequestMagicLink(us1, email, token, now).byEmail[email]).role == RoleOf(role)
  {
  }

  // ---------------------------------------------------------------------
  // The table invariant

  lemma RequestPreservesValid(us: Users, email: string, token: string, now: Time)
    requires us.Valid()
    ensures RequestMagicLink(us, email, token, now).Valid()
  {
  }

  lemma ClearTokenPreservesValid(us: Users, e: string)
    requires us.Valid() && e in us.byEmail
    ensures ClearToken(us, e).Valid()
  {
  }

  lemma SetUserRolePreservesValid(us: Users, actor: Actor, email: Option<string>, role: Option<string>)
    requires us.Valid()
    ensures SetUserRole(us, actor, email, role).Ok? ==> SetUserRole(us, actor, email, role).value.0.Valid()
  {
  }
}
