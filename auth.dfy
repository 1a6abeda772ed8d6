/**
 * The profile and role helpers of `server/auth.js`: two read-only lookups
 * over the `users` table.
 */
module Auth {
  import opened Wrappers
  import opened Schema

  /** The part of an Express request `checkAdmin` reads: `req.session`, possibly absent. */
  datatype Request = Request(session: Option<Session>)
  datatype Session = Session(userId: JsId)

  /** `req.session?.userId`. */
  function SessionUserId(req: Request): (r: JsId)
    ensures req.session.None? ==> r.None?
    ensures req.session.Some? ==> r == req.session.value.userId
  {
    if req.session.Some? then req.session.value.userId else None
  }

  /**
   * `checkAdmin(req)`: false without a truthy session user id; otherwise
   * whether that user exists and has the role `'admin'` exactly.
   */
  function CheckAdmin(req: Request, users: seq<User>): (r: bool)
    ensures !IsTruthyId(SessionUserId(req)) ==> !r
    ensures r ==> exists i :: 0 <= i < |users| && users[i].id == SessionUserId(req).value
                              && users[i].role == AdminRole
    ensures UniqueUserIds(users) && IsTruthyId(SessionUserId(req)) ==>
      (r <==> exists i :: 0 <= i < |users| && users[i].id == SessionUserId(req).value
                          && users[i].role == AdminRole)
  {
    var userId := SessionUserId(req);
    if !IsTruthyId(userId) then false
    else
      var row := LookupUser(users, userId.value);
      row.Some? && row.value.role == AdminRole
  }

  /**
   * `getUserProfile(userId)`: null when no user has that id (a missing id
   * binds NULL, which matches no row), otherwise that user's public profile.
   */
  function GetUserProfile(users: seq<User>, userId: JsId): (r: Option<Profile>)
    ensures r.None? <==> userId.None? || forall i :: 0 <= i < |users| ==> users[i].id != userId.value
    ensures r.Some? ==> exists i :: 0 <= i < |users| && users[i].id == userId.value
                                    && r.value == ProfileOf(users[i])
    ensures UniqueUserIds(users) && userId.Some? ==>
      forall i :: 0 <= i < |users| && users[i].id == userId.value ==> r == Some(ProfileOf(users[i]))
  {
    if userId.None? then None
    else
      var row := LookupUser(users, userId.value);
      if row.Some? then Some(ProfileOf(row.value)) else None
  }

  /**
   * The profile never carries the ban flag: banning or unbanning a user
   * leaves every profile lookup as it was.
   */
  lemma ProfileHidesBanFlag(users: seq<User>, k: int, banned: int, userId: JsId)
    requires UniqueUserIds(users) && 0 <= k < |users|
    ensures GetUserProfile(users[k := users[k].(isBanned := banned)], userId) == GetUserProfile(users, userId)
  {
    var users' := users[k := users[k].(isBanned := banned)];
    assert forall i :: 0 <= i < |users| ==> users'[i].id == users[i].id;
    assert UniqueUserIds(users');
    if userId.Some? {
      if i :| 0 <= i < |users| && users[i].id == userId.value {
        assert ProfileOf(users'[i]) == ProfileOf(users[i]);
      }
    }
  }
}
