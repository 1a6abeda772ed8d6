/**
 * The chat server's three tables (`users`, `invite_codes`, `messages`),
 * their column defaults, the start-up seed, and the invariant the
 * `PRIMARY KEY AUTOINCREMENT` and `UNIQUE` columns maintain.
 *
 * A table is a sequence of rows in rowid order. AUTOINCREMENT is a
 * per-table counter: the next id handed out, always above every id used.
 * Timestamp columns (`created_at`, `used_at`, `timestamp`) are not modelled.
 */
module Schema {
  import opened Wrappers

  /** Text of the invite code inserted at start-up; redeeming it grants the admin role. */
  const SeedCode: string := "ADMIN123"

  const AdminRole: string := "admin"
  const UserRole: string := "user"

  /** The avatar colours a new account is given one of. */
  const Palette: seq<string> :=
    ["#3498db", "#2ecc71", "#e74c3c", "#f39c12", "#9b59b6", "#1abc9c"]

  /**
   * A numeric field of a request body, a socket payload or a session.
   * `None` stands for `undefined`/`null`; `Some(0)` is the other falsy number.
   */
  type JsId = Option<int>

  /** `!!v` for a numeric field. */
  predicate IsTruthyId(v: JsId) {
    v.Some? && v.value != 0
  }

  /** `!!s` for a string field: present and not the empty string. */
  predicate IsTruthyText(s: Option<string>) {
    s.Some? && s.value != ""
  }

  /** A `users` row. `isBanned` is the INTEGER flag; any non-zero value is truthy. */
  datatype User = User(id: int, nickname: string, tgUsername: string, role: string,
                       avatarColor: string, isBanned: int)

  /** An `invite_codes` row. `usedBy` is NULL until the code is redeemed. */
  datatype InviteCode = InviteCode(id: int, code: string, createdBy: int,
                                   usedBy: Option<int>, isActive: int)

  /** A `messages` row. `userId` is not checked against `users` when written. */
  datatype Message = Message(id: int, userId: int, text: string)

  /** The public projection of a user: every column but `is_banned` and `created_at`. */
  datatype Profile = Profile(id: int, nickname: string, tgUsername: string, role: string,
                             avatarColor: string)

  function ProfileOf(u: User): Profile {
    Profile(u.id, u.nickname, u.tgUsername, u.role, u.avatarColor)
  }

  /** The row `INSERT INTO users (nickname, tg_username, avatar_color, role)` creates: `is_banned` defaults to 0. */
  function NewUser(id: int, nickname: string, tgUsername: string, avatarColor: string, role: string): User {
    User(id, nickname, tgUsername, role, avatarColor, 0)
  }

  /** The row `INSERT INTO invite_codes (code)` creates: created_by 0, used_by NULL, is_active 1. */
  function NewCode(id: int, code: string): InviteCode {
    InviteCode(id, code, 0, None, 1)
  }

  /** The filter of `/api/check-code`: `is_active = 1 AND used_by IS NULL`. */
  predicate Redeemable(c: InviteCode) {
    c.isActive == 1 && c.usedBy.None?
  }

  /** The whole store: three tables and their AUTOINCREMENT counters. */
  datatype Tables = Tables(users: seq<User>, codes: seq<InviteCode>, messages: seq<Message>,
                           nextUserId: int, nextCodeId: int, nextMessageId: int)

  predicate UniqueUserIds(users: seq<User>) {
    forall i, j :: 0 <= i < |users| && 0 <= j < |users| && users[i].id == users[j].id ==> i == j
  }

  predicate UniqueCodeIds(codes: seq<InviteCode>) {
    forall i, j :: 0 <= i < |codes| && 0 <= j < |codes| && codes[i].id == codes[j].id ==> i == j
  }

  /** `code TEXT UNIQUE`. */
  predicate UniqueCodeTexts(codes: seq<InviteCode>) {
    forall i, j :: 0 <= i < |codes| && 0 <= j < |codes| && codes[i].code == codes[j].code ==> i == j
  }

  /** Message ids grow along the table: rowid order is id order. */
  predicate IdsIncreasing(messages: seq<Message>) {
    forall i, j :: 0 <= i < j < |messages| ==> messages[i].id < messages[j].id
  }

  /**
   * What the schema guarantees of every reachable store: ids are positive,
   * increase in rowid order and stay below their table's counter; a
   * code's `used_by` is an id the users counter has handed out; code texts
   * are unique.
   */
  predicate Valid(t: Tables) {
    && 1 <= t.nextUserId && 1 <= t.nextCodeId && 1 <= t.nextMessageId
    && (forall i :: 0 <= i < |t.users| ==> 1 <= t.users[i].id < t.nextUserId)
    && (forall i, j :: 0 <= i < j < |t.users| ==> t.users[i].id < t.users[j].id)
    && (forall i :: 0 <= i < |t.codes| ==> 1 <= t.codes[i].id < t.nextCodeId)
    && (forall i, j :: 0 <= i < j < |t.codes| ==> t.codes[i].id < t.codes[j].id)
    && (forall i :: 0 <= i < |t.codes| && t.codes[i].usedBy.Some? ==> t.codes[i].usedBy.value < t.nextUserId)
    && (forall i :: 0 <= i < |t.messages| ==> 1 <= t.messages[i].id < t.nextMessageId)
    && IdsIncreasing(t.messages)
    && UniqueCodeTexts(t.codes)
  }

  /** Increasing ids are unique ids. */
  lemma ValidUnique(t: Tables)
    requires Valid(t)
    ensures UniqueUserIds(t.users) && UniqueCodeIds(t.codes)
  {
  }

  /**
   * The in-memory database right after start-up: empty tables, and the
   * one row `INSERT OR IGNORE INTO invite_codes (code) VALUES ('ADMIN123')`
   * adds, which gets id 1.
   */
  function Seeded(): (t: Tables)
    ensures Valid(t)
    ensures t.users == [] && t.messages == []
    ensures |t.codes| == 1 && t.codes[0].id == 1 && t.codes[0].code == SeedCode && Redeemable(t.codes[0])
  {
    Tables([], [NewCode(1, SeedCode)], [], 1, 2, 1)
  }

  /**
   * `SELECT … FROM users WHERE id = ?` and its first row, if any.
   * `users.id` is the primary key, so at most one row matches.
   */
  function LookupUser(users: seq<User>, id: int): (r: Option<User>)
    ensures r.None? <==> forall i :: 0 <= i < |users| ==> users[i].id != id
    ensures r.Some? ==> r.value in users && r.value.id == id
    ensures UniqueUserIds(users) ==>
      forall i :: 0 <= i < |users| && users[i].id == id ==> r == Some(users[i])
  {
    if users == [] then None
    else if users[0].id == id then Some(users[0])
    else
      var r := LookupUser(users[1..], id);
      assert forall i :: 1 <= i < |users| ==> users[i] == users[1..][i - 1];
      r
  }
}
